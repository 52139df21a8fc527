# OwOS kernel and loader: verified models

OwOS is a small i686 kernel with its own C library and dynamic linker. This project models
the parts of it whose data structures carry hard invariants, and proves those invariants over
all inputs, all runs or all reachable states. `dafny verify dfyconfig.toml` checks everything.

Each component has a value-level model (what an operation means), lemmas about it, and, where
the kernel changes things in place, a class whose methods follow the loops of the source and are
proved to compute the model.

- **Physical pages** (`BitmapWords`, `BuddyIndex`, `BuddySearch`, `PhysicalMemory`): eight
  stacked bitmaps with 32-bit fast paths, and the wrapping next-fit search over them.
- **Paging** (`Paging`): two-level tables that `map` and `unmap` build and reclaim on demand,
  as a refinement of one flat translation (section 4.3 of volume 3A of the Intel SDM).
- **AVL tree** (`AvlShape`, `AvlClimb`, `AvlStore`, `AvlRemoval`, `AvlTree`): nodes in an
  explicit store with parent links and cached heights; rotations, rebalancing, insertion,
  removal, traversal.
- **Ext2** (`Ext2Geometry`, `Ext2BlockMap`, `Ext2Iterator`, `Ext2Allocation`, `Ext2Append`):
  block pointers through direct and indirect blocks, the caching block iterator, block
  allocation, and appending with blocks from the volume.
- **Heap** (`HeapIds`, `HeapRuns`, `HeapSearch`, `HeapChunk`, `HeapBook`, `Heap`): 2-bit run
  ids without length headers; the same algorithm serves the C library's allocator.
- **Dynamic linker** (`LinkGraph`, `BreadthFirst`, `InitOrder`, `DynamicLinker`): symbol lookup
  and initialisation order over a dependency graph that may have cycles.
- **Region map** (`Regions`, on the AVL tree), **timer queue** (`EventQueue`), **process tree** (`ProcessTree`),
  **path lookup** (`VfsPath`, `Vfs`). `Basics` and `Division` hold shared notions and arithmetic.

## Where the code does less than it means to

The models follow the code. Where a property one would expect is false of it, a lemma or contract
gives the exact condition under which it holds, and another a concrete input on which it fails.

- A physical request above 512 KiB counts free pages by testing one bit again and again:
  `CountRightIff`, `CountExample`. Frees match allocations only up to one page: `FreeMatchesAllocIff`,
  `FreeExample`. The allocation hint can wrap, and then the search leaves its window:
  `LastAllocWrapsIff`, `WindowExact`, `AllocatedAddress`, `BelowWindowExample`. The search can
  run for ever: `DivergesIff`, `SinglePageDivergesIff`, `PhysicalMemory.SpinExample`.
- A byte offset that differs between the two addresses of a mapping is lost:
  `TranslationExactIff`, `TranslationExample`. The rights of the first mapping in a table bound
  all later ones: the last equivalence of `Map`, `WriteExample`.
- Rebalancing after a removal sends a child of factor 0 to the double rotation:
  `RemovalBalancesIff`, `RemovalCanUnbalance`. A root with two children cannot be removed:
  `Remove` and `RegionMap.Unmap` say exactly when; `NullParentExample`.
- A last block group of full size is scanned with size 0: `AllocationExactIff`,
  `FullLastGroupExample`.
- The heap's search steps over its own end marker, or misses the one gap that starts at it:
  the two equivalences of `HeapSearch.Search`, carried to `Chunk.Alloc` and `BitmapHeap.Alloc`;
  `HangsAfterExpand`, `MissExample`.
- The queue of the symbol lookup can be one slot short: the last equivalence of
  `ResolveSymbol`, `OverrunExample`.
- Initialisation recurses for ever on a dependency cycle: `InitEndsIff`, `SelfDependencyExample`.
- `update_queue` takes the elapsed time off every delta: `UpdateShiftsIff`, `UpdateExample`. An
  event queued behind the front one ignores the time elapsed, and one that overtakes it only
  until that time is taken off leaves no timer running: `ScheduleRightIff`, `LateExample`,
  `SilentExample`.

## Model

| member | source | states |
|---|---|---|
| `BitmapWords.PutBit` | src/kernel/memory/PhysicalMemoryManager.cpp:80-99 | Setting or clearing one bit of the word bitmap changes that bit of the flat bit sequence and no other. |
| `BitmapWords.FillDword` | src/kernel/memory/PhysicalMemoryManager.cpp:101-117 | Writing a whole word sets or clears exactly its 32 bits. |
| `BitmapWords.FillSpan` | src/kernel/memory/PhysicalMemoryManager.cpp:123-133 | The span loop with its 32-bit fast path sets exactly the bits from begin to end, both included. |
| `BitmapWords.BothHalvesBlank` | src/kernel/memory/PhysicalMemoryManager.cpp:161-163 | The two word reads of the fast path answer yes only when all 64 bits below the 32 upper bits are clear. |
| `BitmapWords.ClearCoveredSpan` | src/kernel/memory/PhysicalMemoryManager.cpp:159-173 | One upper level of `mark_free`: a bit of the span is cleared exactly when both its halves below are clear, fast path included. |
| `BuddyIndex.UsedKeepsAgreement` | src/kernel/memory/PhysicalMemoryManager.cpp:119-138 | Marking any span used keeps every level the exact summary of the level below. |
| `BuddyIndex.FreeKeepsAgreement` | src/kernel/memory/PhysicalMemoryManager.cpp:140-175 | Marking any span free keeps every level the exact summary of the level below. |
| `BuddyIndex.RunKeepsAgreement` | src/kernel/memory/PhysicalMemoryManager.cpp:119-175 | So does any sequence of marks. |
| `BuddyIndex.IndexIsExact` | src/kernel/memory/PhysicalMemoryManager.cpp:119-175 | In an agreeing index bit j of level k is set if and only if some page p with p / 2^k = j is set. |
| `BuddyIndex.IndexExactAfterAnyRun` | src/kernel/memory/PhysicalMemoryManager.cpp:119-175 | That equivalence holds after every sequence of marks from the boot state. |
| `BuddyIndex.DivisibleCountCovers` | src/kernel/memory/PhysicalMemoryManager.cpp:119-138 | A page count divisible by 128 keeps every halved span inside the bitmap of its level. |
| `BuddySearch.CountFree` | src/kernel/memory/PhysicalMemoryManager.cpp:218-220 | The counting loop, which tests bit i on every round, in closed form. |
| `BuddySearch.TryCandidate` | src/kernel/memory/PhysicalMemoryManager.cpp:211-227 | One candidate is taken exactly when it crosses no boundary and the count is reached; otherwise where the loop goes on. |
| `BuddySearch.Search` | src/kernel/memory/PhysicalMemoryManager.cpp:199-250 | The wrapping search finds, fails or repeats for ever exactly as the iteration of its body does; failure means nothing else in the window was usable, and it never ends if and only if nothing it tries is usable and its rounds pass by `origin`. |
| `BuddySearch.OutcomesExclusive` | src/kernel/memory/PhysicalMemoryManager.cpp:201-246 | Found, out of memory and endless exclude one another and the found page is unique. |
| `BuddySearch.SecondWrapDiverges` | src/kernel/memory/PhysicalMemoryManager.cpp:201-209 | Reaching the end of the window twice means the loop never ends. |
| `BuddySearch.Outcome` | src/kernel/memory/PhysicalMemoryManager.cpp:201-246 | Every search finds the first usable page behind the hint, or else the first one from the start of the window, gives up having tried all but `origin`, or never ends, the last if and only if `Endless` holds of the bitmap and the window. |
| `BuddySearch.DivergesIff` | src/kernel/memory/PhysicalMemoryManager.cpp:201-246 | For any number of buddy pages: the loop never ends if and only if nothing in the window or above the hint is usable and `origin` lies past a round or is jumped over by a run cut off at the last page. |
| `BuddySearch.SinglePageDivergesIff` | src/kernel/memory/PhysicalMemoryManager.cpp:201-246 | For a single buddy page: it never ends if and only if the hint lies past the window and nothing in the window or above the hint is usable. |
| `BuddySearch.WindowExact` | src/kernel/memory/PhysicalMemoryManager.cpp:195-209 | For a single buddy page: the result lies in the address window if and only if the window holds a buddy page and no usable page below it is reachable through a wrapped hint. |
| `BuddySearch.CountRightIff` | src/kernel/memory/PhysicalMemoryManager.cpp:199-227 | Whatever the bitmap, all pages of what the search returns are free, if and only if a single buddy page is needed or every candidate the loop can try with enough pages behind it crosses the boundary. |
| `BuddySearch.FoundIsTried` | src/kernel/memory/PhysicalMemoryManager.cpp:199-227 | What the search returns is the first usable page behind the hint in the window, or, if there is none, the first one from the start of the window. |
| `PhysicalMemory.BuddyFor` | src/kernel/memory/PhysicalMemoryManager.cpp:177-186 | The first level whose pages are large enough, or the last level. |
| `PhysicalMemory.FreeMatchesAllocIff` | src/kernel/memory/PhysicalMemoryManager.cpp:229-256 | `free` gives back as many pages as `alloc` took if and only if the size is at most one page. |
| `PhysicalMemory.FreeExample` | src/kernel/memory/PhysicalMemoryManager.cpp:229-256 | A concrete size for which it does not. |
| `PhysicalMemory.ClaimedPagesFree` | src/kernel/memory/PhysicalMemoryManager.cpp:229-231 | Every page that a claim of one buddy page marks existed and was free. |
| `PhysicalMemory.FoundIsFree` | src/kernel/memory/PhysicalMemoryManager.cpp:190-227 | Up to 512 KiB a found candidate is one existing, free buddy page. |
| `PhysicalMemory.AllocKeepsInv` | src/kernel/memory/PhysicalMemoryManager.cpp:188-246 | An allocation up to 512 KiB keeps live allocations disjoint and marked, the index exact and the used-memory counter right. |
| `PhysicalMemory.FreeKeepsInv` | src/kernel/memory/PhysicalMemoryManager.cpp:252-266 | So does the free of a live single page. |
| `PhysicalMemory.EveryRunIsSafe` | src/kernel/memory/PhysicalMemoryManager.cpp:188-266 | The invariant holds in every state of every run of such allocations and frees. |
| `PhysicalMemory.BootStartsRun` | src/kernel/memory/PhysicalMemoryManager.cpp:24-78 | The state after booting satisfies the invariant, whatever spans were marked on the way. |
| `PhysicalMemory.AllocatedAddress` | src/kernel/memory/PhysicalMemoryManager.cpp:195-211 | The address is aligned to its buddy size; it and its buddy page lie in the window if and only if the window holds a buddy page, rounding `min` up does not overflow 32 bits, and no wrapped hint reaches below it. |
| `PhysicalMemory.AddressOfClaim` | src/kernel/memory/PhysicalMemoryManager.cpp:229-231 | The returned address divided by the page size is the first page marked, and the address rounded up behind the last byte the end of what is marked. |
| `PhysicalMemory.ClaimMarks` | src/kernel/memory/PhysicalMemoryManager.cpp:229-235 | The pages marked are exactly the 4 KiB pages that hold the bytes from the returned address on. |
| `PhysicalMemory.ClaimWasFree` | src/kernel/memory/PhysicalMemoryManager.cpp:211-235 | Up to 512 KiB all those pages exist and were free. |
| `PhysicalMemory.BetweenBoundaries` | src/kernel/memory/PhysicalMemoryManager.cpp:211-216 | A run that passes the boundary test holds no multiple of the boundary behind its first byte, while addresses stay below 2^32. |
| `PhysicalMemory.LastAllocWrapsIff` | src/kernel/memory/PhysicalMemoryManager.cpp:236-241 | The hint of a level becomes 2^32 - 1 if and only if page index and page count both halve to zero there. |
| `PhysicalMemory.TakingPageOneWraps` | src/kernel/memory/PhysicalMemoryManager.cpp:236-241 | A concrete case of that: taking page 1. |
| `PhysicalMemory.SmallFirst` | src/kernel/memory/PhysicalMemoryManager.cpp:24-78 | A concrete machine with 128 pages, the first two in use after booting: it satisfies the invariant, and the first page asked for is page 2. |
| `PhysicalMemory.SpinExample` | src/kernel/memory/PhysicalMemoryManager.cpp:199-209 | On that machine, after that page, asking for a page below 4 KiB never ends. |
| `PhysicalMemory.BelowWindowExample` | src/kernel/memory/PhysicalMemoryManager.cpp:195-209 | On that machine, after that page, asking for 16 KiB at 32 KiB or above returns address 16 KiB. |
| `PhysicalMemory.CountExample` | src/kernel/memory/PhysicalMemoryManager.cpp:211-231 | A concrete machine of 384 pages after booting on which asking for 1 MiB returns pages that are in use. |
| `PhysicalMemory.PhysicalMemoryManager.constructor` | src/kernel/memory/PhysicalMemoryManager.cpp:24-53 | All bitmaps start with every bit set. |
| `PhysicalMemory.PhysicalMemoryManager.MarkSpanUsed` | src/kernel/memory/PhysicalMemoryManager.cpp:119-138 | The nested loops mark exactly the pages of the span and compute the marked index, level by level. |
| `PhysicalMemory.PhysicalMemoryManager.MarkSpanFree` | src/kernel/memory/PhysicalMemoryManager.cpp:140-175 | The nested loops free exactly the pages of the span and compute the freed index, level by level. |
| `PhysicalMemory.PhysicalMemoryManager.UpdateHints` | src/kernel/memory/PhysicalMemoryManager.cpp:236-241 | All eight hints after an allocation, in 32-bit arithmetic. |
| `PhysicalMemory.PhysicalMemoryManager.Take` | src/kernel/memory/PhysicalMemoryManager.cpp:229-241 | The whole new state once a buddy page was found. |
| `PhysicalMemory.PhysicalMemoryManager.Alloc` | src/kernel/memory/PhysicalMemoryManager.cpp:188-250 | Exactly the pages that hold the bytes from the returned address on become marked, and up to 512 KiB they were free; counters and hints follow from address and size; the address is that of the first usable buddy page behind the hint, else from the window's start, and passes the boundary test; out of memory and endless if and only if the search loop is, up to 512 KiB endless exactly when the hint lies past the window and nothing in it or above the hint is usable; no change unless allocated. |
| `PhysicalMemory.PhysicalMemoryManager.Free` | src/kernel/memory/PhysicalMemoryManager.cpp:252-266 | The pages from that of the address on, as many as the size plus a buddy page less one byte has, are free afterwards and no other page changed; the counters fall by as much. |
| `Paging.TableAdded` | src/kernel/arch/i686/memory.cpp:229-241 | A new cleared table for a directory entry keeps the two levels consistent and changes no translation. |
| `Paging.EntryStored` | src/kernel/arch/i686/memory.cpp:167-182 | One table write changes the translation of its page and of no other. |
| `Paging.TableDropped` | src/kernel/arch/i686/memory.cpp:532-537 | Dropping an empty table keeps consistency and every translation. |
| `Paging.PagingSpace.constructor` | src/kernel/arch/i686/memory.cpp:396-432 | A new address space is consistent, translates no user page, and has the kernel half of the master copies. |
| `Paging.PagingSpace.MapPage` | src/kernel/arch/i686/memory.cpp:442-481 | The body of `map`'s loop: the page gets its entry, all others keep theirs, a table is created only where none was. |
| `Paging.PagingSpace.Map` | src/kernel/arch/i686/memory.cpp:434-482 | Every byte of the range is mapped, at phys plus its distance from virt when both have the same offset in their page, with the access asked for; every page outside translates as before, and tables exist exactly where entries do; a page of the range can be written if and only if that was asked for and a directory entry that was already there grants it too. |
| `Paging.PagingSpace.ClearRange` | src/kernel/arch/i686/memory.cpp:488-513 | `unmap`'s first loop nulls exactly the range and collects every table that may have become empty. |
| `Paging.PagingSpace.TableIsEmpty` | src/kernel/arch/i686/memory.cpp:520-530 | The scan answers whether the table holds no entry. |
| `Paging.PagingSpace.ReclaimIfEmpty` | src/kernel/arch/i686/memory.cpp:518-538 | A table survives if and only if it holds an entry; no translation changes. |
| `Paging.PagingSpace.Unmap` | src/kernel/arch/i686/memory.cpp:484-539 | No byte of the range is mapped any more, every page outside translates as before, and tables exist exactly where entries do. |
| `Paging.BytesAreMapped` | src/kernel/arch/i686/memory.cpp:434-482 | If every page from the first to the last of a byte range has its entry, every byte of the range is mapped, off by the difference of the two offsets. |
| `Paging.BytesAreUnmapped` | src/kernel/arch/i686/memory.cpp:484-539 | If every page of a byte range is cleared, no byte of the range is mapped. |
| `Paging.ByteExact` | src/kernel/arch/i686/memory.cpp:475-478 | Such a byte is mapped to its own physical byte if and only if phys and virt have the same offset in their page. |
| `Paging.PagingSpace.MapThenUnmap` | src/kernel/arch/i686/memory.cpp:434-539 | Unmapping what was mapped restores translations, directory and frames in use. |
| `Paging.RestoredTables` | src/kernel/arch/i686/memory.cpp:484-539 | Equal translations in two reachable states force equal directories and equal frames in use. |
| `Paging.PagingSpace.AsPhysical` | src/kernel/arch/i686/memory.cpp:278-289 | The two-level walk returns the frame of the page plus the offset. |
| `Paging.TranslationExactIff` | src/kernel/arch/i686/memory.cpp:475-478 | A byte v translates to phys + (v - virt) if and only if phys and virt have the same offset in their page. |
| `Paging.TranslationExample` | src/kernel/arch/i686/memory.cpp:475-478 | A concrete mapping whose first byte is found one byte too high. |
| `Paging.WriteExample` | src/kernel/arch/i686/memory.cpp:442-478 | A concrete page mapped with write access that cannot be written. |
| `AvlShape.RebalanceKeys` | src/kernel/include/libk/AVLTree.hpp:332-427 | Rebalancing from any node to the root keeps the in-order keys. |
| `AvlShape.RebalanceBalances` | src/kernel/include/libk/AVLTree.hpp:332-359 | After an insertion into a balanced tree, rebalancing makes every node's subtrees differ by at most one. |
| `AvlShape.StepBalancesIff` | src/kernel/include/libk/AVLTree.hpp:339-352 | One rebalancing step restores balance if and only if it is not the step that sends a child of factor 0 with an outward-leaning inner subtree to the double rotation. |
| `AvlShape.ClimbBalancesIff` | src/kernel/include/libk/AVLTree.hpp:332-359 | Whatever was removed below: rebalancing up to the root balances the whole tree if and only if no step of the climb is that step. |
| `AvlClimb.RemovalBalancesIff` | src/kernel/include/libk/AVLTree.hpp:218-296 | Removing any node with any number of children from a balanced tree leaves it balanced if and only if the climb from where it starts makes no such step. |
| `AvlClimb.RemovalCanUnbalance` | src/kernel/include/libk/AVLTree.hpp:265-359 | A concrete balanced tree of eight ascending keys, held in a store, that the removal of one key leaves unbalanced. |
| `AvlStore.RotatedRightRep` | src/kernel/include/libk/AVLTree.hpp:361-387 | The pointer writes of the right rotation represent the rotated tree, with exact parent links and heights. |
| `AvlStore.RotatedLeftRep` | src/kernel/include/libk/AVLTree.hpp:389-415 | The same for the left rotation. |
| `AvlTree.Avl.UpdateHeight` | src/kernel/include/libk/AVLTree.hpp:429-435 | The cached height becomes exact. |
| `AvlTree.Avl.GetFactor` | src/kernel/include/libk/AVLTree.hpp:437-443 | The cached heights give the true balance factor. |
| `AvlTree.Avl.RotateRightAt` | src/kernel/include/libk/AVLTree.hpp:361-387 | The rotated subtree is linked in place of the old one; nothing else changes. |
| `AvlTree.Avl.RotateLeftAt` | src/kernel/include/libk/AVLTree.hpp:389-415 | The same to the left. |
| `AvlTree.Avl.RotateLeftRightAt` | src/kernel/include/libk/AVLTree.hpp:423-427 | Double rotation. |
| `AvlTree.Avl.RotateRightLeftAt` | src/kernel/include/libk/AVLTree.hpp:417-421 | Double rotation. |
| `AvlTree.Avl.BalanceAt` | src/kernel/include/libk/AVLTree.hpp:336-352 | The loop body performs the balancing step of the pure tree. |
| `AvlTree.Avl.Rebalance` | src/kernel/include/libk/AVLTree.hpp:332-359 | The loop up to the root computes the rebalanced tree with exact links and heights. |
| `AvlTree.Avl.FindPlace` | src/kernel/include/libk/AVLTree.hpp:185-198 | The descent ends at the one empty place where the key keeps the order. |
| `AvlTree.Avl.Insert` | src/kernel/include/libk/AVLTree.hpp:183-216 | Order, exact heights and parent links are kept, the key set grows by the key, and a balanced tree stays balanced. |
| `AvlTree.Avl.FindNode` | src/kernel/include/libk/AVLTree.hpp:298-313 | A node is found if and only if the key is in the set. |
| `AvlTree.Avl.FindNodeBy` | src/kernel/include/libk/AVLTree.hpp:315-330 | With a comparator that rises along the keys, a node is found if and only if some key compares equal. |
| `AvlTree.Avl.Traverse` | src/kernel/include/libk/AVLTree.hpp:106-129 | The stack walk calls a callback with state for the keys in ascending order, up to the first call that says stop. |
| `AvlTree.FoldVisits` | src/kernel/include/libk/AVLTree.hpp:106-129 | So a callback that notes its keys gets a prefix of them, all unless the last one noted said stop. |
| `AvlTree.Avl.FindSuccessor` | src/kernel/include/libk/AVLTree.hpp:227-229 | The leftmost node of the right subtree, with the path to it. |
| `AvlTree.Avl.Substitute` | src/kernel/include/libk/AVLTree.hpp:231-260 | Afterwards the successor keeps its key and carries the removed node's parent and children, that parent and those children name the successor, and no other node changed. |
| `AvlRemoval.SubstitutionCells` | src/kernel/include/libk/AVLTree.hpp:231-260 | Wherever the removed node hangs, the sequence of writes leaves exactly those links: none of them undoes another, since node, successor, parent and children are five different cells. |
| `AvlTree.Avl.RemoveInner` | src/kernel/include/libk/AVLTree.hpp:225-264 | Removing a node with two children and a parent drops exactly its key, with exact links and heights, and keeps balance if and only if the climb makes no bad step. |
| `AvlTree.Avl.RemoveOuter` | src/kernel/include/libk/AVLTree.hpp:265-282 | The same for a node with at most one child. |
| `AvlTree.Avl.Remove` | src/kernel/include/libk/AVLTree.hpp:218-296 | Order, heights and parent links are kept and exactly the given key is removed; a balanced tree stays balanced if and only if the climb makes no bad step; a null parent is followed if and only if the key is in a root with two children. |
| `AvlTree.NullParentExample` | src/kernel/include/libk/AVLTree.hpp:225-264 | After inserting any three keys in ascending order, removing the middle one follows a null parent. |
| `Ext2Geometry.FromLinearByGroup` | src/kernel/filesystem/Ext2FileSystem.cpp:17-39 | `from_linear_index` in terms of one running number of single indirect blocks. |
| `Ext2Geometry.FromLinearInjective` | src/kernel/filesystem/Ext2FileSystem.cpp:17-39 | No two block indices get the same pointer. |
| `Ext2Geometry.InvalidatedMeaning` | src/kernel/filesystem/Ext2FileSystem.cpp:116-130 | Comparing consecutive pointers finds exactly the indirect blocks that become due. |
| `Ext2BlockMap.ResolveByGroup` | src/kernel/filesystem/Ext2FileSystem.cpp:77-83 | Resolving an index through all levels is one look into the single indirect block of its group. |
| `Ext2BlockMap.DirectLayout` | src/kernel/filesystem/Ext2FileSystem.cpp:17-39 | Blocks 0 to 11 are those in the inode. |
| `Ext2BlockMap.SingleLayout` | src/kernel/filesystem/Ext2FileSystem.cpp:17-39 | Block 12 + c is entry c of the single indirect block. |
| `Ext2BlockMap.DoubleLayout` | src/kernel/filesystem/Ext2FileSystem.cpp:17-39 | Block 12 + n + b n + c is entry c of entry b of the double indirect block, n being the entries per block. |
| `Ext2BlockMap.TripleLayout` | src/kernel/filesystem/Ext2FileSystem.cpp:17-39 | Block 12 + n + n^2 + (a n + b) n + c is entry c of entry b of entry a of the triple indirect block. |
| `Ext2BlockMap.Grown` | src/kernel/filesystem/Ext2FileSystem.cpp:140-193 | Naming new indirect blocks keeps all indirect blocks apart and moves none. |
| `Ext2BlockMap.PointerStored` | src/kernel/filesystem/Ext2FileSystem.cpp:93-96 | Storing a data pointer changes what that index resolves to and no other. |
| `Ext2BlockMap.Appended` | src/kernel/filesystem/Ext2FileSystem.cpp:89-97 | One appended block: earlier blocks resolve as before, the new one to its number. |
| `Ext2BlockMap.AppendedAll` | src/kernel/filesystem/Ext2FileSystem.cpp:87-98 | Any number of appended blocks, across all boundaries, given fresh distinct indirect blocks. |
| `Ext2Iterator.LinkedIsGrow` | src/kernel/filesystem/Ext2FileSystem.cpp:140-193 | The links stored by comparing pointers are the ones the grown file prescribes. |
| `Ext2Iterator.DoubleIsNotTriple` | src/kernel/filesystem/Ext2FileSystem.cpp:153-172 | While a file grows, the double indirect block written to is never the triple one. |
| `Ext2Iterator.BlockIterator.constructor` | src/kernel/filesystem/Ext2FileSystem.cpp:44-55 | From any start offset the indirect blocks at hand are the ones above that place. |
| `Ext2Iterator.BlockIterator.UpdateBlocks` | src/kernel/filesystem/Ext2FileSystem.cpp:108-194 | Only what differs is replaced, and afterwards the blocks at hand are right for the new place. |
| `Ext2Iterator.BlockIterator.Get` | src/kernel/filesystem/Ext2FileSystem.cpp:77-83 | The cached look equals resolving the index from the inode. |
| `Ext2Iterator.BlockIterator.Next` | src/kernel/filesystem/Ext2FileSystem.cpp:100-106 | A step keeps that. |
| `Ext2Iterator.BlockIterator.NextAllocating` | src/kernel/filesystem/Ext2FileSystem.cpp:100-106 | An allocating step computes the grown file. |
| `Ext2Iterator.BlockIterator.Store` | src/kernel/filesystem/Ext2FileSystem.cpp:93-96 | The number goes to the place the index resolves through, and the blocks at hand stay right. |
| `Ext2Iterator.BlockIterator.AppendBlocks` | src/kernel/filesystem/Ext2FileSystem.cpp:87-98 | Old blocks resolve as before and the new ones to the appended numbers in order, for any fresh supply of indirect blocks. |
| `Ext2Allocation.LowestRange` | src/kernel/filesystem/Ext2FileSystem.cpp:685-693 | The picked positions ascend, lie in range, and are as many as asked for or as there are. |
| `Ext2Allocation.LowestAt` | src/kernel/filesystem/Ext2FileSystem.cpp:685-693 | A position is picked if and only if it is clear and fewer than k clear ones precede it; exactly the picked ones are set. |
| `Ext2Allocation.SkipSet` | src/kernel/filesystem/Ext2FileSystem.cpp:677-682 | Passing over a run of set positions changes nothing that is picked. |
| `Ext2Allocation.ScanGroup` | src/kernel/filesystem/Ext2FileSystem.cpp:668-707 | The scan with word skip and table-block changes picks the same blocks as a bit-by-bit scan and sets those bits only. |
| `Ext2Allocation.GroupCount` | src/kernel/filesystem/Ext2FileSystem.cpp:422 | A volume has as many groups as its blocks divided by the group size, rounded up. |
| `Ext2Allocation.LimitIsSize` | src/kernel/filesystem/Ext2FileSystem.cpp:673 | The scanned size is the group's true size, except 0 for a last group of full size. |
| `Ext2Allocation.AllocationExactIff` | src/kernel/filesystem/Ext2FileSystem.cpp:631-717 | The lowest `count` free block numbers of the volume are returned, their bits set and all counters still agree, if and only if the request does not reach into a last group of full size. |
| `Ext2Allocation.AllocationMeaning` | src/kernel/filesystem/Ext2FileSystem.cpp:631-717 | Under that condition: as many block numbers as asked for, ascending, all clear before, and their bits and no others set. |
| `Ext2Allocation.FlatAt` | src/kernel/filesystem/Ext2FileSystem.cpp:631-717 | Bit i of group g is the bit of block g times the group size plus i. |
| `Ext2Allocation.AllocationInGroups` | src/kernel/filesystem/Ext2FileSystem.cpp:631-717 | Under that condition, group by group: exactly the bits of the returned block numbers become set, and they were clear. |
| `Ext2Allocation.FullLastGroupExample` | src/kernel/filesystem/Ext2FileSystem.cpp:673-675 | A concrete mounted volume of one full group of 32 blocks with agreeing counters and one free block, from which nothing is returned, after which the counters disagree. |
| `Ext2Allocation.BlockAllocator.constructor` | src/kernel/filesystem/Ext2FileSystem.cpp:402-437 | The counters and bitmaps of a mounted volume, with as many groups as its blocks need. |
| `Ext2Allocation.BlockAllocator.AllocateInGroup` | src/kernel/filesystem/Ext2FileSystem.cpp:655-711 | One group's counter, bitmap and picked blocks. |
| `Ext2Allocation.BlockAllocator.AllocateBlocks` | src/kernel/filesystem/Ext2FileSystem.cpp:631-717 | Under that condition exactly the bits of the returned numbers, as many as asked for, go from clear to set in their groups, and the counters stay right; in any case the returned numbers and the whole new volume; nothing changes when too few blocks are free. |
| `Ext2Append.GrantedIsFresh` | src/kernel/filesystem/Ext2FileSystem.cpp:631-717 | Blocks that the volume hands out are distinct and are no indirect block of any file whose indirect blocks the bitmaps show in use; these stay in use. |
| `Ext2Append.GrantsAreFresh` | src/kernel/filesystem/Ext2FileSystem.cpp:132-138 | Any sequence of such allocations is a fresh supply for appending. |
| `Ext2Append.AppendKeepsMarks` | src/kernel/filesystem/Ext2FileSystem.cpp:87-194 | After an append with such blocks all indirect blocks of the grown file are in use according to the bitmaps. |
| `Ext2Append.AvailableAfter` | src/kernel/filesystem/Ext2FileSystem.cpp:631-717 | An allocation lowers what the volume can give by exactly the blocks handed out. |
| `Ext2Append.Grant` | src/kernel/filesystem/Ext2FileSystem.cpp:132-138 | The assertion on the number of returned blocks holds if and only if the volume can give as many. |
| `Ext2Append.AppendOne` | src/kernel/filesystem/Ext2FileSystem.cpp:87-98 | One data block appended with indirect blocks from the volume; file and volume invariants are kept. |
| `Ext2Append.AppendBlocks` | src/kernel/filesystem/Ext2FileSystem.cpp:87-194 | Any number of data blocks appended with indirect blocks from the volume: old blocks resolve as before, new ones in order, and it comes through if and only if the volume can give as many blocks as become due. |
| `Ext2Append.ExtendFile` | src/kernel/filesystem/Ext2FileSystem.cpp:271-288 | The same for a file that may be empty, whose first block is set: all blocks resolve to the given numbers in order, and it comes through if and only if the volume can give as many indirect blocks as become due. |
| `HeapIds.PutMeaning` | src/kernel/heap/BitmapHeap.cpp:18-23 | Storing a 2-bit id changes that id and no other. |
| `HeapIds.SetId` | src/kernel/heap/BitmapHeap.cpp:18-23 | The same for the byte array in place. |
| `HeapIds.ReadId` | src/kernel/heap/BitmapHeap.cpp:26-31 | The id read is the one of that block, at most 3. |
| `HeapIds.FreeId` | src/kernel/heap/BitmapHeap.cpp:34-43 | The id is non-zero and differs from both neighbours. |
| `HeapRuns.RunsApart` | src/kernel/heap/BitmapHeap.cpp:180-194 | Two maximal runs that share a block are one. |
| `HeapRuns.AllocationAddsRun` | src/kernel/heap/BitmapHeap.cpp:145-151 | Painting free blocks with such an id adds one maximal run, apart from all others, and changes none. |
| `HeapRuns.FreeRemovesRun` | src/kernel/heap/BitmapHeap.cpp:180-194 | Clearing a maximal run removes it and changes no other. |
| `HeapSearch.AlignOffset` | src/kernel/heap/BitmapHeap.cpp:55-61 | The offset makes the address a multiple of the alignment. |
| `HeapSearch.CountFree` | src/kernel/heap/BitmapHeap.cpp:134-136 | The length of the free run, counted no further than needed. |
| `HeapSearch.TryBlock` | src/kernel/heap/BitmapHeap.cpp:123-143 | When a start is taken, and where the search goes on otherwise. |
| `HeapSearch.SecondWrapDiverges` | src/kernel/heap/BitmapHeap.cpp:118-121 | Running off the end twice means the loop never ends. |
| `HeapSearch.SkippedHasNoRoom` | src/kernel/heap/BitmapHeap.cpp:123-143 | No start inside what is jumped over has room, whatever the alignment. |
| `HeapSearch.LaterEndsLater` | src/kernel/heap/BitmapHeap.cpp:126-128 | Whatever the alignment, a later start needs blocks up to no earlier an end. |
| `HeapSearch.PlainAlignment` | src/kernel/heap/BitmapHeap.cpp:118-143 | With alignment one: room is a long enough free run, and `last_alloc` is stepped over if and only if it is block 0 or free behind a free block. |
| `HeapSearch.Search` | src/kernel/heap/BitmapHeap.cpp:118-162 | What is found is the first room behind `last_alloc`, or else the first from block 0; for every alignment it is endless if and only if the loop steps over `last_alloc` and nothing has room, and fails if and only if it does not and only `last_alloc` may have room. |
| `HeapSearch.FoundIsNext` | src/kernel/heap/BitmapHeap.cpp:118-143 | Whatever was jumped over, no start between the first one tried and the one taken has room. |
| `HeapSearch.MissExample` | src/kernel/heap/BitmapHeap.cpp:118-143 | A concrete heap block with room on which the search fails. |
| `HeapChunk.PruneSound` | src/kernel/heap/BitmapHeap.cpp:111-112 | The free-byte test skips no heap block that has room, whatever the alignment. |
| `HeapChunk.AddressInRun` | src/kernel/heap/BitmapHeap.cpp:126-161 | The pointer is aligned and its bytes lie inside the run. |
| `HeapChunk.Chunk.constructor` | src/kernel/heap/BitmapHeap.cpp:68-96 | After `expand` the only run is the one holding the bitmap, and the search starts behind it. |
| `HeapChunk.Chunk.SetIds` | src/kernel/heap/BitmapHeap.cpp:150-151 | The loop sets exactly that stretch of ids. |
| `HeapChunk.Chunk.Alloc` | src/kernel/heap/BitmapHeap.cpp:111-162 | One new run apart from all others that holds the bytes asked for at an aligned address and no block more than they need, or no change; it finds nothing, or never ends, exactly under conditions on the free bytes, `last_alloc` and the free runs; with the last allocation still in use it ends, and fails if and only if there is no room. |
| `HeapChunk.LastInUse` | src/kernel/heap/BitmapHeap.cpp:111-143 | With the last allocation still in use, a heap block never keeps the search for ever and is passed over if and only if it has no room. |
| `HeapChunk.SpinExample` | src/kernel/heap/BitmapHeap.cpp:111-143 | The heap block of the next row: 31 bytes are left, 17 are asked for and need two blocks, only one is free, and the search steps over its end marker. |
| `HeapChunk.HangsAfterExpand` | src/kernel/heap/BitmapHeap.cpp:68-143 | On a concrete heap block straight after `expand`, a request that passes the free-byte test never ends. |
| `HeapChunk.Chunk.Place` | src/kernel/heap/BitmapHeap.cpp:145-154 | The state after a gap was found. |
| `HeapChunk.Chunk.LeftEdge` | src/kernel/heap/BitmapHeap.cpp:184-188 | The backward search finds the first block of the run. |
| `HeapChunk.Chunk.ClearFrom` | src/kernel/heap/BitmapHeap.cpp:192-194 | The forward loop clears up to the end of the run. |
| `HeapChunk.Chunk.Free` | src/kernel/heap/BitmapHeap.cpp:177-197 | The assertion fails exactly on a free block; otherwise exactly the run that holds the pointer disappears, and `used_blocks` falls by its length. |
| `HeapChunk.Chunk.Size` | src/kernel/heap/BitmapHeap.cpp:217-229 | The bytes from the pointer to the end of its run or gap. |
| `HeapBook.Conservation` | src/kernel/heap/BitmapHeap.cpp:97-101 | Size is free plus used plus metadata. |
| `HeapBook.PointerIsNew` | src/kernel/heap/BitmapHeap.cpp:153-161 | No pointer is handed out twice. |
| `HeapBook.FreeFindsRun` | src/kernel/heap/BitmapHeap.cpp:172-194 | The run a live pointer is found in is the one it was handed out for. |
| `HeapBook.TakeKeepsInv` | src/kernel/heap/BitmapHeap.cpp:105-162 | An allocation keeps: runs are exactly the live allocations and the bitmaps' own runs. |
| `HeapBook.ReleaseKeepsInv` | src/kernel/heap/BitmapHeap.cpp:169-204 | So does a free. |
| `HeapBook.ExpandKeepsInv` | src/kernel/heap/BitmapHeap.cpp:68-103 | So does adding a heap block. |
| `HeapBook.EveryHistory` | src/kernel/heap/BitmapHeap.cpp:68-208 | In every run of expansions, allocations and frees the invariant and the balance of the statistics hold. |
| `Heap.BitmapHeap.Expand` | src/kernel/heap/BitmapHeap.cpp:68-103 | The whole new state; header and bitmap, four ids a byte rounded up to whole blocks, count as metadata and the rest as free. |
| `Heap.BitmapHeap.Alloc` | src/kernel/heap/BitmapHeap.cpp:105-167 | An aligned pointer that is new, and each of the size bytes from it on belongs to it and to no other live pointer; at least as many bytes go from free to used; or no change: null if and only if every heap block is passed over, endless if and only if the first one that is not passed over keeps the search for ever; heap blocks whose last allocation is in use had no room. |
| `Heap.OneOwner` | src/kernel/heap/BitmapHeap.cpp:145-161 | In every state of every history, a byte belongs to at most one live pointer. |
| `Heap.TakenOwns` | src/kernel/heap/BitmapHeap.cpp:145-161 | A live pointer owns, alone, every byte from it to the end of its run. |
| `Heap.BitmapHeap.FindChunk` | src/kernel/heap/BitmapHeap.cpp:172-175 | The heap block that holds the address, or none if and only if it lies outside all of them. |
| `Heap.BitmapHeap.Free` | src/kernel/heap/BitmapHeap.cpp:169-208 | Exactly the run the pointer points into is cleared, interior pointers included; the assertion fails if and only if it points into no run handed out; a foreign pointer changes nothing. |
| `Heap.BitmapHeap.LiveInBlocks` | src/kernel/heap/BitmapHeap.cpp:172-180 | Every live pointer may be freed. |
| `Heap.BitmapHeap.Size` | src/kernel/heap/BitmapHeap.cpp:210-235 | The bytes from a pointer, interior ones included, to the end of the run it points into. |
| `BreadthFirst.QueueIsLevelOrder` | src/userland/ld-owos/elf/shared_object.c:81-106 | The queue with its flags visits objects level by level. |
| `BreadthFirst.BreadthFirstIsNearest` | src/userland/ld-owos/elf/shared_object.c:74-112 | The first definition in that order is one at least distance; there is none only when no reachable object defines the name. |
| `BreadthFirst.LookupMeans` | src/userland/ld-owos/elf/shared_object.c:53-72 | The address found in an object is base plus value, in 32 bits, of the first symbol of that name that is defined or is a function with a value; zero if there is none. |
| `BreadthFirst.NearestIsAddress` | src/userland/ld-owos/elf/shared_object.c:74-112 | So the address resolved is that of such a symbol in an object at least distance that gives one, and zero only if no reachable object gives one. |
| `BreadthFirst.FlagsOnlyEndTheWalk` | src/userland/ld-owos/elf/shared_object.c:81-106 | Walking level by level without any flags, for more rounds than there are objects, comes to the same definition first: the flags change nothing but that the walk ends. |
| `DynamicLinker.Linker.FindSymbol` | src/userland/ld-owos/elf/shared_object.c:53-72 | Base plus value, in 32 bits, of the first symbol of that name that is defined or is a function with a value; zero if there is none. |
| `DynamicLinker.Linker.Enqueue` | src/userland/ld-owos/elf/shared_object.c:96-105 | Exactly the unseen dependencies are queued, each once, and flagged. |
| `DynamicLinker.Linker.ResolveSymbol` | src/userland/ld-owos/elf/shared_object.c:74-113 | Ends on every graph; returns the address of such a symbol in an object at least distance, the one that a breadth-first walk without flags comes to first, or zero if no reachable object gives one, and clears all flags; queues the start and exactly the dependencies of the objects before the first definition, each once, so its slots are one too few if and only if those are all objects. |
| `DynamicLinker.Linker.WorkOff` | src/userland/ld-owos/elf/shared_object.c:81-106 | Its loop: what is queued and flagged, and that it stops at the first definition of the queue's order. |
| `DynamicLinker.OverrunExample` | src/userland/ld-owos/elf/shared_object.c:78-105 | A single object that depends on itself fills two slots of one. |
| `DynamicLinker.Linker.ClearFlags` | src/userland/ld-owos/elf/shared_object.c:108-110 | The flags of everything queued are cleared, so all are. |
| `InitOrder.PathsLeadForward` | src/userland/ld-owos/elf/loader.c:311-329 | In an order where dependencies come first every path leads strictly towards the front. |
| `InitOrder.InitOrderExact` | src/userland/ld-owos/elf/loader.c:340-346 | When the recursion ends, each dependency of the start object is initialised once, after its own dependencies, and nothing else is. |
| `InitOrder.InitEndsIff` | src/userland/ld-owos/elf/loader.c:311-346 | It ends if and only if no dependency of the start object depends on itself. |
| `InitOrder.SelfDependencyExample` | src/userland/ld-owos/elf/loader.c:311-329 | A concrete graph on which it never ends. |
| `DynamicLinker.Linker.CallFunction` | src/userland/ld-owos/elf/loader.c:302-309 | The address is called unless it is zero or all ones. |
| `DynamicLinker.CallsMeans` | src/userland/ld-owos/elf/loader.c:302-309 | In any list of addresses, exactly those that are neither zero nor all ones are called, in order. |
| `DynamicLinker.AllCallsMeans` | src/userland/ld-owos/elf/loader.c:316-328 | Each object of an order adds, at its place, its init function and then its init array. |
| `DynamicLinker.Linker.InitialiseObject` | src/userland/ld-owos/elf/loader.c:311-329 | The recursion performs the visit order, flags what it has done and calls init before the init array. |
| `DynamicLinker.Linker.InitialiseAll` | src/userland/ld-owos/elf/loader.c:340-346 | The loop over dependencies does the same. |
| `DynamicLinker.Linker.CallInitFunctions` | src/userland/ld-owos/elf/loader.c:331-351 | Preinit functions first, then every dependency once after its own, all flags clear at the end. |
| `Regions.PiecesTile` | src/kernel/memory/VirtualMemoryManager.cpp:335-402 | Reported gaps and regions follow one another without hole or overlap up to the kernel half. |
| `Regions.PiecesShowRegions` | src/kernel/memory/VirtualMemoryManager.cpp:363-371 | The mapped pieces are the regions in order. |
| `Regions.PiecesAreGaps` | src/kernel/memory/VirtualMemoryManager.cpp:335-402 | The free pieces are exactly the stretches that hold no region and end at one, or at an end of the user half, on either side. |
| `Regions.FreeLiesInGap` | src/kernel/memory/VirtualMemoryManager.cpp:335-402 | Every free stretch of addresses lies in such a gap. |
| `Regions.BestFitIsBestGap` | src/kernel/memory/VirtualMemoryManager.cpp:171-198 | The free piece found is a smallest such gap that is long enough, the lowest of several. |
| `Regions.NoFitIsNoRoom` | src/kernel/memory/VirtualMemoryManager.cpp:171-198 | If none is found, every stretch that long meets a region. |
| `Regions.RoundUpMeans` | src/kernel/memory/VirtualMemoryManager.cpp:42-46 | The rounded size is zero if and only if nothing is wanted or rounding overflows 32 bits; otherwise it is the wanted size in whole pages. |
| `Regions.UserHalfPartition` | src/kernel/memory/VirtualMemoryManager.cpp:335-422 | Every user address lies in exactly one piece, mapped if and only if `find_region` has a region for it. |
| `Regions.CompareIsMonotone` | src/kernel/memory/VirtualMemoryManager.cpp:208-215 | The comparator of `find_region` rises along the sorted regions, as the tree search needs. |
| `Regions.InsertKeepsSorted` | src/kernel/memory/VirtualMemoryManager.cpp:290-308 | Mapping at the start of a gap that fits keeps regions ordered and disjoint. |
| `Regions.RemoveKeepsSorted` | src/kernel/memory/VirtualMemoryManager.cpp:310-316 | Unmapping removes that region only and keeps the order. |
| `Regions.RemoveUndoesInsert` | src/kernel/memory/VirtualMemoryManager.cpp:290-316 | Mapping and unmapping a new address gives the old map back. |
| `Regions.ListDetermined` | src/kernel/memory/VirtualMemoryManager.cpp:290-316 | A search tree over the addresses of a sorted list of regions holds exactly that list in order. |
| `Regions.VisitStep` | src/kernel/memory/VirtualMemoryManager.cpp:178-191 | One callback keeps the smallest fitting gap and stops the traversal only when it cannot be bettered. |
| `Regions.FoldFindsBest` | src/kernel/memory/VirtualMemoryManager.cpp:171-198 | The traversal of the tree with that callback, and the gap behind the last region, find the smallest fitting gap. |
| `Regions.RegionMap.constructor` | src/kernel/memory/VirtualMemoryManager.cpp:237-240 | An empty map. |
| `Regions.RegionMap.FindRegion` | src/kernel/memory/VirtualMemoryManager.cpp:200-222 | The tree search finds a region if and only if one contains the address, and one that does. |
| `Regions.RegionMap.Map` | src/kernel/memory/VirtualMemoryManager.cpp:290-308 | Inserting a region that fits at the start of a gap into the tree gives the list with it in its place. |
| `Regions.RegionMap.FindFreeRegion` | src/kernel/memory/VirtualMemoryManager.cpp:171-198 | By traversing the tree: the smallest gap that fits, the first of several, or none if none fits. |
| `Regions.RegionMap.AllocateRegion` | src/kernel/memory/VirtualMemoryManager.cpp:42-61 | Refused if and only if nothing is wanted or rounding overflows; else a region of the wanted size in whole pages at the start of the smallest gap that holds it, inserted into the tree with order and disjointness kept; out of addresses only if no page-sized free stretch of the user half is long enough. |
| `Regions.RegionMap.Unmap` | src/kernel/memory/VirtualMemoryManager.cpp:310-316 | Exactly that region is gone from the tree; it fails by following a null parent if and only if the region is at a root with two children. |
| `EventQueue.InsertKeepsDues` | src/kernel/time/EventManager.cpp:63-97 | Every queued event keeps its tag, its core, its due time and its order, and the new one is put in whole and is due when asked for. |
| `EventQueue.DuesAdd` | src/kernel/time/EventManager.cpp:63-97 | An event is due when the one before it is, plus its own delta. |
| `EventQueue.PlaceIsOrdered` | src/kernel/time/EventManager.cpp:69-91 | It comes after all events due earlier and before those due then or later. |
| `EventQueue.UpdateShiftsIff` | src/kernel/time/EventManager.cpp:99-105 | `update_queue` moves all due times by the elapsed time if and only if nothing elapsed, or at most one event is queued and it is not overdue. |
| `EventQueue.UpdateExample` | src/kernel/time/EventManager.cpp:99-105 | A concrete queue on which it does not. |
| `EventQueue.ScheduleRightIff` | src/kernel/time/EventManager.cpp:63-105 | Counted from the call, all queued events stay due as before and the new one is due when asked for, if and only if the queue is empty, no time has elapsed, or it comes before a single event that is not overdue. |
| `EventQueue.LateExample` | src/kernel/time/EventManager.cpp:63-97 | A concrete event that is queued too early. |
| `EventQueue.SilentExample` | src/kernel/time/EventManager.cpp:63-97 | A concrete event after which the timer stays stopped. |
| `EventQueue.ChooseIsGood` | src/kernel/time/EventManager.cpp:166-184 | A timer that can wait that long is used, else one whose longest wait is too short. |
| `EventQueue.SplitKeepsDues` | src/kernel/time/EventManager.cpp:188-198 | Splitting the front event keeps all events and due times behind the inserted waits; each inserted wait is the timer's longest. |
| `EventQueue.SplitBehind` | src/kernel/time/EventManager.cpp:188-198 | As many waits as whole longest waits fit into the front delta, without a callback and on its core, and behind them every event as it was. |
| `EventQueue.Arrived` | src/kernel/time/EventManager.cpp:63-97 | Behind any waits stand all events that were queued and the new one, after exactly those due earlier; deltas have the elapsed time taken off only when it comes first. |
| `EventQueue.FiredTogether` | src/kernel/time/EventManager.cpp:114-139 | Events with delta zero are due together, and the rest keeps its due times counted from then. |
| `EventQueue.EventManager.UpdateQueue` | src/kernel/time/EventManager.cpp:99-105 | The loop subtracts from every delta, in 64-bit arithmetic. |
| `EventQueue.EventManager.ScheduleNextEvent` | src/kernel/time/EventManager.cpp:155-200 | No event is lost, changed or moved in time: all stand behind the waits put in front, each the started timer's longest; the first timer of the core that can wait for the front event is started, a shorter one with such waits only if none can, and the assertion fails exactly when the front event is due now or no timer of its core can wait at all. |
| `EventQueue.EventManager.ScheduleOn` | src/kernel/time/EventManager.cpp:63-97 | Behind the waits put in front stand all events queued before and the new one, tags and cores included, the new one after exactly the events due earlier, and due times are those of the queue, with the elapsed time taken off every delta in 64 bits if the event comes first; and when it leaves no timer running. |
| `EventQueue.EventManager.FireDue` | src/kernel/time/EventManager.cpp:114-139 | The loop fires the front event and those with delta zero right behind it, and takes them off. |
| `EventQueue.EventManager.HandleEvent` | src/kernel/time/EventManager.cpp:107-141 | Exactly the events due with the front one fire, in order; all others stay queued behind the waits put in front, with tag and core, due as before counted from then. |
| `ProcessTree.ExactlyOnePlace` | src/kernel/processes/Process.cpp:102-204 | Every process but init is in exactly one children list, its parent's, or was returned by exactly one waitpid. |
| `ProcessTree.ChainEndsAtInit` | src/kernel/processes/Process.cpp:133-137 | Parent chains never repeat a process and end at init. |
| `ProcessTree.ForkKeepsInv` | src/kernel/processes/Process.cpp:270-309 | Fork keeps that. |
| `ProcessTree.ExitKeepsInv` | src/kernel/processes/Process.cpp:133-144 | Exit keeps that while children move to init. |
| `ProcessTree.WaitKeepsInv` | src/kernel/processes/Process.cpp:178-203 | Reaping keeps that. |
| `ProcessTree.ForkMeans` | src/kernel/processes/Process.cpp:270-309 | A fork adds one process, with the next pid, no children and the caller as parent, at the end of the caller's list; nothing else changes. |
| `ProcessTree.ExitMeans` | src/kernel/processes/Process.cpp:133-144 | An exit makes the process a zombie without children; these name init and follow init's own in its list; nothing else changes. |
| `ProcessTree.ReapMeans` | src/kernel/processes/Process.cpp:178-203 | Reaping takes one child off the caller's list and notes its pid; nothing else changes. |
| `ProcessTree.EveryHistory` | src/kernel/processes/Process.cpp:102-321 | It holds in every state of every run of fork, exit and waitpid. |
| `ProcessTree.ProcessTable.Fork` | src/kernel/processes/Process.cpp:270-309 | A new pid, the next one, at the end of the caller's list; every other process is as before. |
| `ProcessTree.ProcessTable.Reaper` | src/kernel/processes/Process.cpp:133-137 | Climbing the parents ends at init. |
| `ProcessTree.ProcessTable.Adopt` | src/kernel/processes/Process.cpp:260-268 | The child names the new parent, whose list ends with it; every other process, the pid counter and the reaped pids are as before. |
| `ProcessTree.HandOne` | src/kernel/processes/Process.cpp:139-142 | Adopting one more child keeps: the children handed over so far name init and follow its own in its list, and nothing else changed. |
| `ProcessTree.ProcessTable.Exit` | src/kernel/processes/Process.cpp:102-149 | The loop hands over all children to init, in order, and leaves a zombie; every other process is as before. Init alone never comes back, and changes nothing. |
| `ProcessTree.ProcessTable.WaitPid` | src/kernel/processes/Process.cpp:151-204 | No child, a zombie child that was never returned before and is off the list afterwards, or sleep when there is no matching zombie; nothing else changes. |
| `VfsPath.CollapseIsSingle` | src/kernel/filesystem/VirtualFileSystem.cpp:190-214 | A normalised path has no two adjacent slashes. |
| `VfsPath.CollapseKeepsComponents` | src/kernel/filesystem/VirtualFileSystem.cpp:190-214 | Normalising keeps the list of components. |
| `VfsPath.ComponentsProper` | src/kernel/filesystem/VirtualFileSystem.cpp:190-214 | No component is empty or has a slash in it. |
| `VfsPath.JoinedComponents` | src/kernel/filesystem/VirtualFileSystem.cpp:190-214 | A normalised absolute path is its components, each behind one slash, and a last slash if the path ended with one. |
| `VfsPath.NormalizePath` | src/kernel/filesystem/VirtualFileSystem.cpp:190-214 | The erasing loop computes the normalised path. |
| `Vfs.StartsWithMeans` | src/kernel/filesystem/VirtualFileSystem.cpp:80 | Comparing a prefix and the next character picks out the first component. |
| `Vfs.WalkIsResolve` | src/kernel/filesystem/VirtualFileSystem.cpp:38-105 | The character walk is the walk component by component, and never looks for an entry in a file. |
| `Vfs.ResolveIffLeads` | src/kernel/filesystem/VirtualFileSystem.cpp:38-105 | The walk finds a node if and only if the components lead there step by step: `.` stays, `..` goes to the parent or stays at the root, a name goes to a child of that name, always from a directory; and to a directory if the path ends with a slash. |
| `Vfs.NamesLeadTo` | src/kernel/filesystem/VirtualFileSystem.cpp:38-105 | The names from the root down to a node lead to that node. |
| `Vfs.FullNameJoined` | src/kernel/filesystem/VirtualFileSystem.cpp:108-138 | A full path is the names from the root down to the node, each behind a slash. |
| `Vfs.FullPathLeadsBack` | src/kernel/filesystem/VirtualFileSystem.cpp:31-138 | Looking up the full path of any node finds that node. |
| `Vfs.VirtualFileSystem.FindChild` | src/kernel/filesystem/VirtualFileSystem.cpp:74-99 | The first child whose name is the next component. |
| `Vfs.VirtualFileSystem.FindByPath` | src/kernel/filesystem/VirtualFileSystem.cpp:31-106 | A node is found if and only if the names between the slashes of the path, put behind the working directory if relative, lead to it step by step from the root; its directory assertion never fails. |
| `Vfs.VirtualFileSystem.GetFullPath` | src/kernel/filesystem/VirtualFileSystem.cpp:108-138 | The stack loop gives the names from the root down to the node, each behind a slash, or one slash for the root. |

## Left out

- Device drivers, assembly, context switching, locks and message passing between cores: every locked operation is one atomic step.
- Kernel-half page tables and the synchronisation of their versions; the model has one address space and user addresses.
- The loop over the boot memory map in `PhysicalMemoryManager::init`, and `reserve`; both only call the marking functions.
- PhysicalMemory.PhysicalMemoryManager.Alloc: requests of size 0 are not modelled, nor 32-bit overflow of size plus page size.
- PhysicalMemory.PhysicalMemoryManager.Free: requires that the pages given back exist at every level, as the source assumes.
- Paging.PagingSpace.Map: user addresses only.
- Paging.PagingSpace.Unmap: user addresses only.
- Paging.PagingSpace.MapThenUnmap: user addresses only.
- Paging.PagingSpace.AsPhysical: user addresses only.
- Paging.PagingSpace.AllocFrame: the physical allocator is any supplier of unused frames, without an upper bound on frame numbers.
- AvlTree.Avl.Insert: a key already in the tree is excluded, since the source asserts it; node identities are passed in instead of allocated.
- AvlTree.Avl.Remove: for a root with two children the model stops with the result that a null parent pointer is followed, and says nothing of what the machine does then.
- AVL nodes live in an explicit store with identities as pointers instead of heap objects; `copy_subtree` and destruction are not modelled.
- Ext2 `set()`, reading and writing file data, directories and inode tables. Indirect blocks are read and written through the cache as if directly on the device.
- Ext2Iterator.BlockIterator.AppendBlocks: the indirect blocks come in as a supply that must be fresh and distinct; `Ext2Append.AppendBlocks` takes them from the volume instead.
- Ext2Append.AppendBlocks: the data blocks are given, since `write` allocates them before; a file without any block is the subject of `ExtendFile`.
- Ext2Allocation.ScanGroup: the table blocks of one group are one array, addressed by the first bit of the current table block.
- Ext2Allocation.BlockAllocator.AllocateBlocks: locking and the writing back of blocks are not modelled.
- Heap.BitmapHeap.Alloc: sizes and alignments are positive; the bounds test of the counting loops comes before the read.
- Heap.BitmapHeap.Free: pointers into the blocks that hold a bitmap, or into the bytes past the last whole block, are excluded; 32-bit overflow of the statistics is not modelled.
- Heap.BitmapHeap.Size: the same pointers are excluded; for a pointer into a free block the result is said only by `Chunk.Size`.
- Heap memory contents: the id bitmap is an array of its own instead of lying in the memory it describes.
- DynamicLinker.Linker.ResolveSymbol: the queue grows as needed; the source gives it as many slots as there were objects at the first call, and what it overwrites when they are too few is not modelled.
- DynamicLinker.Linker.CallInitFunctions: requires that no dependency depends on itself; the other case is `InitEndsIff`.
- Reading ELF files, mapping them and applying relocations.
- Regions.RegionMap.AllocateRegion: the physical pages and page tables behind a region are not part of it; each tree node holds an address, with its region in a table beside the tree.
- Regions.RegionMap.Unmap: what the machine does when a null parent is followed is not modelled.
- `allocate_region_at_for` and the kernel half of the region map.
- EventQueue.EventManager.ScheduleOn: the elapsed time is what the front event's timer reports, any number.
- EventQueue.EventManager.HandleEvent: fired callbacks do not schedule events themselves.
- Processes are kept in a store by pid; threads, open files, signals, the controlling terminal and exit codes are not modelled.
- ProcessTree.ProcessTable.Exit: that the threads of an exiting process are terminated is not modelled.
- ProcessTree.ProcessTable.WaitPid: one pass over the children; sleeping is a result after which the caller asks again, and pid 0 stands for any child.
- Vfs.VirtualFileSystem.FindByPath: no soft links, all directories already read, and a working directory that starts with a slash.
- Terminal, shell, editor and C library formatting, and the LibK containers, which are Dafny sequences and maps here.
