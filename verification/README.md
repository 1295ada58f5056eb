# Aurora OS: memory, trees, futexes and scheduling

A Dafny model of the parts of Aurora OS that keep state in step with other state, with proofs of
what they keep. `dafny verify dfyconfig.toml` checks all of it.

| part | files |
|---|---|
| Virtual memory: zones, layouts, frames and four-level page tables (4-level paging, section 4.5 of the Intel SDM, volume 3A) | `AddrRange`, `PageTables`, `PackedCount`, `VirtLayout`, `PageMapping`, `MappedLeaves`, `FaithfulRuns`, `ZoneKeys`, `ZoneMap`, `VirtMapper` |
| The intrusive AVL tree | `AvlCells`, `AvlSwap`, `AvlTree` |
| The futex: kernel object and fast path | `KFutex`, `RawFutex` |
| The heap | `FreeList`, `Heap` |
| The buddy allocator | `BuddyTiles`, `Buddy` |
| The intrusive list | `LinkedList` |
| The thread lists of the scheduler | `Scheduler` |
| Shared | `Wrappers`, `Arith` |

How the parts are modelled:

- What the source changes in place is a class with the same fields, and its methods make the same
  assignments. Page tables live in an arena that maps a frame to its 512 entries. A `BTreeMap` is
  the sequence of its keys in order. An address space is bounded by a parameter of at most 2^47;
  the source's bound is the start of the kernel in the higher half, but the addresses between are
  not canonical, so no processor translates them.
- A page table's count of entries in use is a field of its own, and tables are freed by it. The
  source packs the count into bits 52 to 62 of entry 0, where `set(0, ..)` overwrites it. Beside
  each count the model keeps what the packed one would be, and in `faithful` whether every test for
  an empty table has so far come out the same by it. `After` computes from the frames mapped and
  unmapped so far, and from nothing else, by how much packed counts are behind and whether
  `faithful` holds; what is proved of the page tables holds of those of the source for exactly the
  runs for which it does.
- The links of AVL nodes are read off into a map from nodes to cells. The tree they should form is
  a ghost value; every rotation, swap and removal is shown to do to the links what it does to that
  value.
- The futex is a state machine. A step is one atomic operation, or the taking or dropping of one
  lock, by one thread; theorems are about all states that any run of such steps leads to.
- Memory, the clock, and what a caller of `remap` does to a layout are parameters.

Where the code does not do what its comments or names promise, the code is kept as it is, and the
exact condition is proved:

- `PageTable::set` overwrites the count when it sets entry 0 of a table in use. Through a run of one
  table the count stays right exactly if no step does that (`PackedCount.CountStaysRight`); mapping
  a frame keeps all counts right exactly if the first absent slot on its walk is not entry 0 of its
  table (`PageTables.AddressSpace.MapFrame`). A table is then freed with an entry in use as soon as
  it has no more entries than its count is behind. Mapping never does that; unmapping is harmless
  exactly if, without the leaves to be unmapped, every table that is behind still has more entries
  in use than it is behind (`PageTables.AddressSpace.UnmapFrame` for a frame,
  `FaithfulRuns.UnmapsThenMaps` for a run, `VirtMapper.Unmap`, `Remap` and `RemapAt` for a zone).
  In every address space that is emptied after a page below 512 GiB was mapped, the root, or a
  table before it, goes that way (`PageTables.EmptiedSpaceIsLost`,
  `VirtMappers.FirstZoneComesAndGoes`).
- `VirtLayout::revert` does not restore `dirty_index`: after a refused remap addresses still
  translate as the restored elements say (`VirtMappers.RefusedTranslates`), but the layout knows how
  much of it is mapped exactly when the elements popped meanwhile had no size
  (`VirtLayouts.VirtLayout.Revert`, `VirtMappers.VirtMapper.RevertZone`, `PopThenRefused`).
- `free_space` tests the wrong neighbour for the excluded key: a zone that shrinks or keeps its
  size is always moved (`ZoneKeys.FreeSpaceExact`, `ZoneKeys.ShrinkInPlaceNeverFree`).
- `remap_at` of a zone left empty unmaps at the target instead of at the zone: harmless exactly
  when the two are the same or no popped element has pages (`ZoneMap.PoppedFramesMove`). Else a
  popped page stays mapped, whatever pages the walk takes away (`ZoneMap.PoppedPageStays`;
  `VirtMappers.PopThenAstray` is such a call).
- The heap gives back more than it cut off, for alignments wider than a chunk and sizes that are no
  multiple of them, unless the node ended close enough above a multiple (`FreeLists.GivenBackFits`).
  A zone stays right exactly if what comes back beyond a block had leaked before
  (`Heaps.HeapZone.Dealloc`); otherwise bytes can be free and live at once
  (`Heaps.UnsafeGivesTooMuch`).
- The buddy allocator never joins free blocks (`Buddies.NeverJoined`). Shrinking a block counts the
  wrong number of free bytes unless order 2 is shrunk to order 1 (`Buddies.ShrinkCount`); all other
  properties go on to hold, with a count that is off by as much.
- `unblock` loses a wake-up, so that a thread waits beside a credit that nobody has taken, exactly if
  it issues more credits than there are threads in the list while a thread spins for the block lock
  (`KFutexes.LostStep`, `LostOnlyByOvershoot`, `UnblockReleases`; `WakeUpLost` is such a run). That is
  the only way in which a `RawFutex` can come to a standstill (`RawFutexes.StuckIsLost`;
  `RawFutexes.Standstill` is a run of two threads in which it does).

## Model

| member | source | states |
|---|---|---|
| Arith.AlignOfDivides | libutil/src/misc.rs:20-35 | the natural alignment of an address is the largest power of two that divides it |
| Arith.AlignDownIs | libutil/src/misc.rs:14-18 | the largest multiple not above the address |
| Arith.AlignUpIs | libutil/src/misc.rs:8-12 | the smallest multiple not below the address |
| AddrRange.GetTakeSizeIsLargest | kernel/src/mem/mod.rs:289-295 | a page size fits a range, aligned and within its size, exactly if it is at most the take size |
| AddrRange.TakeFits | kernel/src/mem/mod.rs:297-309 | a page can be taken exactly if it fits, and what is taken and what is left make up the range |
| AddrRange.AlignedIsSmallestCover | kernel/src/mem/mod.rs:162-190 | `aligned` gives the smallest page-aligned range around a range |
| PageTables.AddressSpace.constructor | kernel/src/mem/virt_alloc.rs:853-869 | the kernel's half linked into a root whose count starts at 1, no page mapped, all packed counts right |
| PageTables.AddressSpace.Set | kernel/src/mem/virt_alloc.rs:254-259 | in a slot that was absent, one entry changes, the count goes up by one, and the packed count with it, unless it is stored over |
| PageTables.AddressSpace.GetOrAlloc | kernel/src/mem/virt_alloc.rs:266-280 | the table of a position is found, or made and linked, and no other entry changes; what that does to every count, true and packed |
| PageTables.AddressSpace.MapFrame | kernel/src/mem/virt_alloc.rs:1305-1317 | on a range no leaf overlaps, exactly the leaf of the frame is added and the tree stays right: true counts exact, links mutual, no table empty; all packed counts stay right exactly if the first absent slot on the walk is not entry 0 of its table |
| PageTables.AddressSpace.Remove | kernel/src/mem/virt_alloc.rs:283-293 | clears an entry in use, and does nothing to an absent one; the table is dropped if that leaves it empty, and `faithful` says whether the source does the same |
| PageTables.AddressSpace.FreeIfEmpty | kernel/src/mem/virt_alloc.rs:211-225 | frees a table exactly if its true count is zero; `faithful` is lost exactly if the packed count says otherwise |
| PageTables.AddressSpace.UnmapFrame | kernel/src/mem/virt_alloc.rs:1318-1334 | exactly the leaf of the frame goes, and the tree stays right; the source frees the same tables exactly if the lowest table on the walk with another entry in use keeps more than its packed count is behind; or, said of the leaves before, if all tables do without this one |
| PageTables.AddressSpace.RemoveUpwards | kernel/src/mem/virt_alloc.rs:1325-1333 | tables that become empty are freed bottom-up, up to the first that does not; no packed count falls behind by it |
| PageTables.SlotFree | kernel/src/mem/virt_alloc.rs:254-259 | a range that overlaps no leaf has an absent slot, so the assertion in `set` holds |
| PageTables.LeavesApart | kernel/src/mem/virt_alloc.rs:1283-1340 | no two leaves of a tree overlap, whatever their levels |
| PageTables.TablesAreNeeded | kernel/src/mem/virt_alloc.rs:211-219 | a table exists exactly at the root and above leaves (in the source, as long as `faithful` holds) |
| PageTables.LeavesDetermineTables | kernel/src/mem/virt_alloc.rs:1283-1340 | two trees with the same leaves have the same tables: none leaked, none freed early (in the source, as long as `faithful` holds) |
| PageTables.WalkFindsLeaf | kernel/src/mem/virt_alloc.rs:1290-1302 | the four-level walk finds exactly the leaf that covers an address |
| PageTables.TranslateIsFlat | kernel/src/mem/virt_alloc.rs:1283-1340 | translation through the tree is the flat meaning of the set of leaves |
| PageTables.MapChangesOnlyFrame | kernel/src/mem/virt_alloc.rs:1305-1317 | mapping translates the frame to its page and changes no other translation |
| PageTables.UnmapChangesOnlyFrame | kernel/src/mem/virt_alloc.rs:1318-1334 | unmapping leaves the frame untranslated and changes no other translation |
| PageTables.MapKeepsCounts | kernel/src/mem/virt_alloc.rs:1305-1317 | a walk that maps a frame keeps right packed counts right exactly if its first absent slot is not entry 0 |
| PageTables.MapKeepsNoneEarly | kernel/src/mem/virt_alloc.rs:1305-1317 | it never makes a table look empty |
| PageTables.ClearCounts | kernel/src/mem/virt_alloc.rs:283-293 | clearing an entry frees its table exactly if it was the only one in use; by the packed count too exactly if the table is not left with just as many as that is behind |
| PageTables.UnmapTests | kernel/src/mem/virt_alloc.rs:1325-1333 | over a whole walk, the tests agree exactly if the lowest table that stays keeps more entries than it is behind; no table that goes was behind |
| PageTables.InUseIs | kernel/src/mem/virt_alloc.rs:188-203 | the count of every table follows from the leaves alone |
| PageTables.MapLags | kernel/src/mem/virt_alloc.rs:1305-1317 | after mapping a frame, tables are behind by just what the run of frames says |
| PageTables.AheadIs | kernel/src/mem/virt_alloc.rs:211-219 | no table looks empty exactly if each keeps more entries than the run says it is behind |
| PageTables.AfterClears | kernel/src/mem/virt_alloc.rs:1318-1334 | a run of unmappings goes well at every step exactly if it does at its end |
| PageTables.NothingBehind | kernel/src/mem/virt_alloc.rs:254-259 | in a run that never meets entry 0 as its first absent slot, no packed count is ever behind and the source frees the same tables |
| FaithfulRuns.LeavesAfter | kernel/src/mem/virt_alloc.rs:1283-1340 | the frames mapped and unmapped by a run of actions leave the leaves the run stands for |
| FaithfulRuns.UnmapsThenMaps | kernel/src/mem/virt_alloc.rs:1283-1340 | an operation that unmaps and then maps keeps the source's tables those of the model exactly if they were and every table that is behind keeps more entries than that without the unmapped pages |
| PageTables.MapMarksRoot | kernel/src/mem/virt_alloc.rs:254-259 | the first page below 512 GiB puts the packed count of the root behind by two at least |
| PageTables.EmptiedSpaceIsLost | kernel/src/mem/virt_alloc.rs:211-219 | once it is behind, emptying the address space frees the root, or a table before it, in use |
| PackedCount.RawTable.Set | kernel/src/mem/virt_alloc.rs:254-259 | `set` on the packed word: the count goes up by one, but becomes 1 for entry 0 |
| PackedCount.RawTable.Remove | kernel/src/mem/virt_alloc.rs:283-293 | `remove` on the packed word counts one entry less and says whether the count is zero; nothing happens to an absent entry |
| PackedCount.SetKeepsCount | kernel/src/mem/virt_alloc.rs:254-259 | `set` keeps a right count right exactly if it does not store over it |
| PackedCount.CountStaysRight | kernel/src/mem/virt_alloc.rs:188-293 | the count is right in every state of a run of `set` and `remove` exactly if none sets entry 0 at a count that is not zero |
| PackedCount.FreedInUse | kernel/src/mem/virt_alloc.rs:254-293 | three calls after which a table with an entry in use is taken for empty |
| PackedCount.RootDropped | kernel/src/mem/virt_alloc.rs:174-182 | the root too: link the kernel, set entry 0, remove it |
| VirtLayouts.VirtLayout.Push | kernel/src/mem/virt_alloc.rs:547-550 | an element is added; what is mapped does not change |
| VirtLayouts.VirtLayout.PopDelete | kernel/src/mem/virt_alloc.rs:552-560 | the last element goes, to the queue exactly if it is mapped; what is mapped does not change |
| VirtLayouts.VirtLayout.SyncMem | kernel/src/mem/virt_alloc.rs:605-617 | exactly the elements of the list are mapped, and the clean size is theirs |
| VirtLayouts.VirtLayout.MarkUnmapped | kernel/src/mem/virt_alloc.rs:620-629 | nothing is mapped any more |
| VirtLayouts.VirtLayout.Revert | kernel/src/mem/virt_alloc.rs:632-642 | the list is that of the last sync; the clean size is right exactly if what was popped had no size |
| VirtLayouts.VirtLayout.Size | kernel/src/mem/virt_alloc.rs:562-565 | the sum of the sizes of the elements |
| PageMapping.TakeSizeIsLargest | kernel/src/mem/virt_alloc.rs:702-708 | the largest page that fits on both sides; none exactly if the piece is used up |
| PageMapping.CutTiles | kernel/src/mem/virt_alloc.rs:802-837 | the frames of a piece tile its virtual range in order, at a constant physical offset, each aligned to its size on both sides and maximal |
| PageMapping.CutQueueFrames | kernel/src/mem/virt_alloc.rs:741-748 | popped elements are unmapped at the frames where they lie, last popped lowest |
| PageMapping.PageMappingIterator.New | kernel/src/mem/virt_alloc.rs:734-763 | what is popped is unmapped, then what is pushed is mapped, each at its own address |
| PageMapping.PageMappingIterator.NewUnmapper | kernel/src/mem/virt_alloc.rs:765-794 | everything that is mapped is unmapped |
| PageMapping.PageMappingIterator.Next | kernel/src/mem/virt_alloc.rs:802-837 | gives the actions one by one, in that order, and then none |
| MappedLeaves.UnmapReplays | kernel/src/mem/virt_alloc.rs:765-794 | unmapping elements goes through the very frames that mapping them went through |
| MappedLeaves.ElementsAscend | kernel/src/mem/virt_alloc.rs:750-757 | the frames of a list of elements ascend through exactly their range |
| MappedLeaves.RunMaps | kernel/src/mem/virt_alloc.rs:1287-1317 | a run of map actions into a clear range can be carried out and adds exactly its leaves |
| MappedLeaves.RunUnmaps | kernel/src/mem/virt_alloc.rs:1318-1334 | a run of unmap actions for leaves that are there removes exactly these |
| ZoneKeys.FindRange | kernel/src/mem/virt_alloc.rs:969-992 | the lowest gap of the size; none means that no gap of that size exists |
| ZoneKeys.FreeSpaceExact | kernel/src/mem/virt_alloc.rs:998-1049 | an answer exactly if the range is free but for the excluded zone, and that zone comes before it or does not overlap it |
| ZoneKeys.ShrinkInPlaceNeverFree | kernel/src/mem/virt_alloc.rs:1017-1021 | a zone that does not grow is never found free where it is |
| ZoneKeys.GrowInPlaceFree | kernel/src/mem/virt_alloc.rs:1010-1022 | a zone that grows can stay exactly if the room behind it is free |
| ZoneKeys.InsertedKeys | kernel/src/mem/virt_alloc.rs:1104-1116 | inserting a free range keeps the keys aligned, in bounds, sorted and disjoint |
| ZoneMap.MapZone | kernel/src/mem/virt_alloc.rs:1066-1070 | mapping a layout into a free range keeps page tables and zones in agreement |
| ZoneMap.UnmapZone | kernel/src/mem/virt_alloc.rs:1273-1277 | unmapping a zone keeps them in agreement |
| ZoneMap.ResyncZone | kernel/src/mem/virt_alloc.rs:1158-1164 | carrying out the pushes and pops of a zone where it is keeps them in agreement |
| ZoneMap.RevertHarmless | kernel/src/mem/virt_alloc.rs:632-642 | a revert of elements without size keeps them in agreement |
| ZoneMap.PoppedFramesMove | kernel/src/mem/virt_alloc.rs:1221-1228 | the popped frames, computed at another address, are the mapped ones exactly if the addresses are equal or there are none |
| ZoneMap.ConsistentTranslates | kernel/src/mem/virt_alloc.rs:1051-1340 | leaves that agree with the zones translate every address as the zones do |
| ZoneMap.ElementAddress | kernel/src/mem/virt_alloc.rs:452-466 | the element over an address is the one whose cumulative offset says so, and what it gives is the memory it is backed by at that offset |
| VirtMappers.VirtMapper.MapInternal | kernel/src/mem/virt_alloc.rs:1283-1340 | carries out a run of actions on the page tables, to the leaves the run stands for; just its frames are added to the history, from which `faithful` follows |
| VirtMappers.VirtMapper.Map | kernel/src/mem/virt_alloc.rs:1051-1073 | maps a layout into the lowest gap, where every element's pages then translate to its own memory with its own permissions, and to nothing if it has none or is not present; an error exactly if it is empty or no gap is large enough; agreement is kept, and that of the source's tables too |
| VirtMappers.VirtMapper.MapAt | kernel/src/mem/virt_alloc.rs:1075-1117 | succeeds exactly if the aligned zone is free and has the size of the layout, and says which of these fails; the elements then translate to their own memory; agreement is kept, and that of the source's tables too |
| VirtMappers.VirtMapper.Remap | kernel/src/mem/virt_alloc.rs:1119-1189 | the answer and the new zones for every outcome: grown in place, moved to the lowest gap, emptied, refused; the edited elements translate to their own memory; agreement is kept, after a refusal with the restored elements, of which the layout knows exactly if nothing with a size was popped; what is unmapped and mapped, and for which states before the call the source's tables stay those of the model |
| VirtMappers.VirtMapper.RemapAt | kernel/src/mem/virt_alloc.rs:1191-1255 | the same for a target address, the translation of the edited elements too; for a zone left empty whose popped pages are looked for elsewhere, that no page tables it may leave agree with the zones |
| VirtMappers.VirtMapper.Unmap | kernel/src/mem/virt_alloc.rs:1257-1280 | takes out exactly the zone of that range and type, and hands back its layout with nothing mapped; the source's tables stay those of the model exactly if, without the pages of the zone, every table that is behind keeps more entries than that |
| VirtMappers.VirtMapper.RevertZone | kernel/src/mem/virt_alloc.rs:1247-1254 | a refused remap restores the elements, and the page tables hold just these; the layout's own account of them is right exactly if those popped had no size |
| VirtMappers.RefusedTranslates | kernel/src/mem/virt_alloc.rs:1168-1173 | after a refused remap every address translates as the restored elements say |
| ZoneMap.PoppedPageStays | kernel/src/mem/virt_alloc.rs:1221-1228 | if the frames of popped pages are computed at another address, then whatever leaves within them go, a popped page stays mapped and the tables do not agree with the zones that are left |
| VirtMappers.PopThenAstray | kernel/src/mem/virt_alloc.rs:1221-1228 | one page, popped, remapped to another address: such a call |
| VirtMappers.PopThenRefused | kernel/src/mem/virt_alloc.rs:632-642 | a page popped, three pushed where two fit: the layout's account is wrong |
| VirtMappers.PageTablesFollowZones | kernel/src/mem/virt_alloc.rs:1051-1340 | in every valid state the processor translates each address as the zones' elements say, at their cumulative offsets; in the source too, for exactly the runs of which `After` says so |
| VirtMappers.EveryZoneLaid | kernel/src/mem/virt_alloc.rs:452-466 | in every valid state every address in an element of a zone translates to the physical address of the element's memory plus the offset in the element, with its flags, and to nothing if the element is reserved or not present |
| VirtMappers.NothingElseMapped | kernel/src/mem/virt_alloc.rs:998-1049 | and an address in no zone translates to nothing |
| VirtMappers.LowPageMarksRoot | kernel/src/mem/virt_alloc.rs:969-992 | while an address below 512 GiB translates, the packed count of the root is behind |
| VirtMappers.EmptiedMapperIsLost | kernel/src/mem/virt_alloc.rs:1257-1280 | without zones such an address space has lost a table in use |
| VirtMappers.FirstZoneComesAndGoes | kernel/src/mem/virt_alloc.rs:853-869 | so it ends for every zone with a page below 512 GiB that is mapped into a new address space and unmapped |
| VirtMappers.ZonesDisjoint | kernel/src/mem/virt_alloc.rs:998-1049 | in every valid state the zones are page aligned, not empty, in bounds and pairwise disjoint |
| AvlCells.Node.RotateRight | libutil/src/collections/tree.rs:174-201 | makes just the assignments to the cells that `CellsRotatedRight` stands for |
| AvlCells.Node.RotateLeft | libutil/src/collections/tree.rs:205-232 | the mirror image |
| AvlCells.Node.Rebalance | libutil/src/collections/tree.rs:235-256 | afterwards the cells form the rebalanced subtree, links and balances exact, and nothing outside of it has changed |
| AvlCells.RotateRightCorrect | libutil/src/collections/tree.rs:174-201 | a rotation keeps mutual links, exact balances for whatever heights, the order, and all keys |
| AvlCells.RotateLeftCorrect | libutil/src/collections/tree.rs:205-232 | the mirror image |
| AvlCells.BalanceRightExact | libutil/src/collections/tree.rs:185-198 | the adjustments make both balances right height minus left height again |
| AvlCells.RebalancedHeight | libutil/src/collections/tree.rs:235-256 | a subtree off by two becomes balanced; by how much it shrinks depends on the heavy side alone |
| AvlSwaps.Swap | libutil/src/collections/tree.rs:87-124 | makes just the assignments of the source, and tells the new root |
| AvlSwaps.SwapRenames | libutil/src/collections/tree.rs:87-124 | the assignments rename: wherever one node was linked the other is, also if the lower one is a child of the upper one; keys stay |
| AvlSwaps.SwapTree | libutil/src/collections/tree.rs:450-457 | after the swap the links form the tree with the two nodes exchanged, links, balances and heights right |
| AvlTrees.AvlTree.Search | libutil/src/collections/tree.rs:517-539 | finds the node with the key, or the one place for it; visits v nodes only if Fib(v + 2) is at most the number of nodes plus one |
| AvlTrees.HeightBound | libutil/src/collections/tree.rs:241-256 | a balanced tree of height h has at least Fib(h + 2) - 1 nodes |
| AvlTrees.HeightChangeRight | libutil/src/collections/tree.rs:554-560 | the test for a change of height is exact, after insertions and after removals |
| AvlTrees.Round | libutil/src/collections/tree.rs:543-590 | after one round the whole tree is right, or the node above is the next to be changed |
| AvlTrees.AvlTree.RebalanceNode | libutil/src/collections/tree.rs:544-589 | one round: the subtree is right in itself and linked from above, or is the root |
| AvlTrees.AvlTree.Rebalance | libutil/src/collections/tree.rs:541-591 | afterwards links, balances and heights of the whole tree are right, with the same nodes in the same order |
| AvlTrees.LeafLinked | libutil/src/collections/tree.rs:371-388 | once a leaf is linked, only the balance above it is still to be changed |
| AvlTrees.AvlTree.Insert | libutil/src/collections/tree.rs:361-401 | a new key goes to its place in the order, all else unchanged; a taken key leaves the tree as it is |
| AvlTrees.EdgeUnlinked | libutil/src/collections/tree.rs:477-487 | once a node has been replaced by its only child, only the balance above is still to be changed |
| AvlTrees.AvlTree.RemoveEdgeNode | libutil/src/collections/tree.rs:466-499 | takes out a node with at most one child, and no other |
| AvlTrees.PredecessorOrder | libutil/src/collections/tree.rs:450-459 | exchanging a node with its predecessor and taking it out there leaves the order without just that node |
| AvlTrees.AvlTree.Remove | libutil/src/collections/tree.rs:440-464 | returns the very node that held the key; every node keeps its key; the order is the old one without it |
| KFutexes.StepInv | kernel/src/sched/sync.rs:55-100 | every step of every thread keeps the invariant, and says what it does to credits and callers |
| KFutexes.MoveStep | kernel/src/sched/mod.rs:380-388 | moving one thread from the head of the list uses one credit that has been issued |
| KFutexes.NeverMoreThanIssued | kernel/src/sched/sync.rs:70-100 | in every state of every run: returned calls of `block` <= issued credits <= credits called for; blocked and about to block == wait count + credits not taken; each lock has one holder |
| KFutexes.LostStep | kernel/src/sched/sync.rs:70-100 | wake-ups are lost by an issue of credits with a thread spinning and too few in the list, and by no other step; they are made good only by an issue that lets go all who wait |
| KFutexes.LostOnlyByOvershoot | kernel/src/sched/sync.rs:70-100 | a run that ends with a lost wake-up has such a step |
| KFutexes.UnblockReleases | kernel/src/sched/sync.rs:89-100 | whatever others do meanwhile, a call lets go the first threads of the list, as many as there are up to `n`, and leaves a thread waiting beside an untaken credit exactly under that condition |
| KFutexes.FirstInFirstOut | kernel/src/sched/thread.rs:535-538 | over every run the threads let go, in order, followed by the list are the threads that were filed, in order |
| KFutexes.NeverStuck | kernel/src/sched/sync.rs:55-100 | as long as a thread is in a call and not in the list, some thread can make a step in a call: the two locks never deadlock |
| KFutexes.StepsBounded | kernel/src/sched/sync.rs:70-100 | from any state on, no more steps are made in calls than six for every `block` and `n` + 7 for every `unblock(n)`, those under way included |
| KFutexes.WakeUpLost | kernel/src/sched/sync.rs:72-84 | a run after which a thread stays listed although a credit was issued for it |
| RawFutexes.StepInv | libutil/src/futex.rs:22-65 | every step keeps the invariant, and the id, once chosen, stays |
| RawFutexes.ExchangeStep | libutil/src/futex.rs:28-38 | the first exchange chooses the id, and nobody has got hold of another one |
| RawFutexes.MutualExclusion | libutil/src/futex.rs:41-65 | in every state of every run at most one thread owns the futex |
| RawFutexes.AlwaysRight | kernel/src/util/mod.rs:39-57 | count == owners + waiters; owners + pending unlocks + unused credits is 1 while the count is positive, else 0; no lookup of a kernel futex fails; all use the same id |
| RawFutexes.TryLockTakes | libutil/src/futex.rs:48-58 | in every state of every run: `try_lock` takes a futex that nobody owns, waits for or is about to block on, and changes nothing otherwise |
| RawFutexes.LockTakes | libutil/src/futex.rs:41-45 | `lock` takes such a futex at once; otherwise the caller counts itself and is on the way to `block` |
| RawFutexes.UnlockGives | libutil/src/futex.rs:60-64 | `unlock` is over at once exactly if nobody else wants the futex, which is then free; otherwise the caller is on the way to `unblock` |
| RawFutexes.WaitsForTurn | libutil/src/futex.rs:41-45 | a thread on the way to `block` or in it stays so, until the kernel has let it go; with the return of `block` it owns the futex |
| RawFutexes.NothingLeaks | libutil/src/futex.rs:22-39 | every kernel futex is the one in use, or of a thread that will still offer or destroy it |
| RawFutexes.SettledForGood | libutil/src/futex.rs:22-39 | once there is an id and nobody on the way to another one, there is one kernel futex and none is ever made |
| RawFutexes.StepsBounded | libutil/src/futex.rs:22-65 | in every run a `lock` accounts for twelve further steps at most, an `unlock` for fourteen |
| RawFutexes.StuckIsLost | kernel/src/sched/sync.rs:70-100 | the only deadlock: if nobody owns the futex and no call can go on, all threads in calls are in the kernel's list beside the one credit, untaken |
| RawFutexes.Standstill | kernel/src/sched/sync.rs:70-100 | a run of one `lock` and `unlock` and another `lock` that ends so: the waiter is listed for good, although nobody owns the futex |
| FreeLists.CanonicalUnique | libutil/src/mem/heap.rs:206-236 | for every set of free bytes there is one sorted, coalesced list |
| FreeLists.CutFacts | libutil/src/mem/heap.rs:53-74 | the block lies at the end of the node, aligned; the node is left with whole chunks or nothing |
| FreeLists.FitsExactly | libutil/src/mem/heap.rs:53-74 | a node is large enough exactly if the block can lie at a multiple of its unit somewhere in it, and it is cut off at the highest such place |
| FreeLists.CutListRight | libutil/src/mem/heap.rs:173-200 | cutting a block off keeps the list canonical and frees no byte but takes just the block's |
| FreeLists.GivenBackFits | libutil/src/mem/heap.rs:209-209 | no more is given back than was cut off if and only if the size is a multiple of the unit or the node's end exceeds a multiple by less than the size does |
| FreeLists.GiveListRight | libutil/src/mem/heap.rs:211-233 | a block that comes back is joined with the nodes it touches: the list stays canonical and gains just its bytes |
| Heaps.HeapZone.constructor | libutil/src/mem/heap.rs:112-136 | one free node behind the header |
| Heaps.HeapZone.Alloc | libutil/src/mem/heap.rs:159-202 | the block comes off the first node in which it fits; none exactly if there is no such node; free, live and lost bytes still partition the zone |
| Heaps.HeapZone.GetPrevNextNode | libutil/src/mem/heap.rs:239-253 | the neighbours of an address |
| Heaps.HeapZone.Dealloc | libutil/src/mem/heap.rs:206-236 | for every live block: its bytes are free again, and the zone stays right exactly if what comes back beyond it had leaked before; with an alignment of at most a chunk nothing is lost |
| Heaps.ListDetermined | libutil/src/mem/heap.rs:159-236 | the free list is the one canonical list of all bytes that are not live or lost |
| Heaps.AllFreed | libutil/src/mem/heap.rs:206-236 | after any run with alignments of at most a chunk, freeing everything restores the single initial node |
| Heaps.SizesCount | libutil/src/mem/heap.rs:138-141 | `free_space` is the number of free bytes |
| Heaps.UnsafeGivesTooMuch | libutil/src/mem/heap.rs:209-209 | in a new zone, a block of 16 bytes aligned to 64 in front of a live chunk: freeing it frees the chunk |
| Heaps.NewZoneFits | libutil/src/mem/heap.rs:294-307 | the size of a new zone is at least the usual one and suffices for the block it is made for, whatever the alignment |
| Heaps.RightZone | libutil/src/mem/heap.rs:148-152 | `contains` holds of the zone a block is in and of no other, although it reaches beyond the end |
| Heaps.ContainsIs | libutil/src/mem/heap.rs:148-152 | `contains` leaves out the first chunk of the zone and takes in the one behind its end |
| Heaps.LinkedListAllocator.constructor | libutil/src/mem/heap.rs:265-276 | one initial zone, all of it free |
| Heaps.LinkedListAllocator.Alloc | libutil/src/mem/heap.rs:278-308 | the block comes from the first zone with room, or from a new one; none exactly if no zone has room and no memory is given; for alignments of at most a chunk no zone becomes wide, so that `AllFreed` applies after any run of them |
| Heaps.LinkedListAllocator.Dealloc | libutil/src/mem/heap.rs:310-324 | for every live block: it goes back to the zone it came from, and to no other; the heap stays right exactly if that zone does; no zone becomes wide |
| BuddyTiles.Log2UpIs | libutil/src/misc.rs:108-115 | the least power of two not below a number |
| BuddyTiles.GetOrderIs | kernel/src/mem/phys_alloc.rs:130-144 | the order of a size is the smallest with blocks that are large enough; above the minimum they are less than twice as large |
| BuddyTiles.BuddiesPair | kernel/src/mem/phys_alloc.rs:232-232 | two buddies are each other's, and make up an aligned block of twice the size |
| BuddyTiles.Tiled | kernel/src/mem/phys_alloc.rs:104-128 | every address belongs to just one block |
| BuddyTiles.TileHalved | kernel/src/mem/phys_alloc.rs:183-191 | halving a block keeps the tiling by aligned blocks |
| BuddyTiles.SplitIs | kernel/src/mem/phys_alloc.rs:176-197 | splitting succeeds exactly if there is a free block of the order or above; the first block of the smallest such order is halved over and over, its upper halves go to the lists above |
| BuddyTiles.SplitInv | kernel/src/mem/phys_alloc.rs:176-197 | splitting keeps the tiling, and every free block in the list of its order |
| BuddyTiles.SplitBytes | kernel/src/mem/phys_alloc.rs:176-197 | splitting neither adds nor loses free bytes |
| Buddies.BuddyAllocator.constructor | kernel/src/mem/phys_alloc.rs:71-102 | wherever the memory lies, free blocks tile it up to the bitmap, none of which could be larger where it starts; all of it is counted as free |
| Buddies.MetaFits | kernel/src/mem/phys_alloc.rs:82-87 | the bitmap has a bit for every smallest block and fits behind the blocks |
| Buddies.BuddyAllocator.InitOrders | kernel/src/mem/phys_alloc.rs:104-128 | the blocks tile the memory, each in the list of its order, and each as large as the alignment of its start and the room behind it allow |
| Buddies.NextBlock | kernel/src/mem/phys_alloc.rs:109-111 | the next block is aligned to its size, fits, and has an order within bounds |
| Buddies.NextIsLargest | kernel/src/mem/phys_alloc.rs:109-111 | no block of a higher order would be aligned there and fit |
| Buddies.NewZoneServes | kernel/src/mem/phys_alloc.rs:104-128 | a new zone has a block for an order, and so `oalloc` and `alloc` succeed, exactly if some address in it is aligned for that order and has room for it |
| Buddies.BuddyAllocator.SetIsAlloced | kernel/src/mem/phys_alloc.rs:157-174 | changes the bit of that address, and no other |
| Buddies.BuddyAllocator.SplitOrder | kernel/src/mem/phys_alloc.rs:176-197 | does to the lists what `Split` says, and keeps the blocks that are handed out |
| Buddies.BuddyAllocator.Oalloc | kernel/src/mem/phys_alloc.rs:311-329 | a block of the order, cut from the first block of the smallest order from there on that has one; none exactly if there is none; one block more is handed out, in the states that shrinking leaves too |
| Buddies.BuddyAllocator.Alloc | kernel/src/mem/phys_alloc.rs:301-309 | the block is large enough, less than twice as large above the minimum, aligned to its length, and inside the zone |
| Buddies.NoneMeansNone | kernel/src/mem/phys_alloc.rs:313-319 | there is no block for an order exactly if no free one is of that order or above |
| Buddies.BuddyAllocator.InsertNode | kernel/src/mem/phys_alloc.rs:227-265 | the block goes to the head of the list of its order, joined with nothing |
| Buddies.NeverJoined | kernel/src/mem/phys_alloc.rs:232-239 | one of the first two tests of the loop always ends it |
| Buddies.BuddyAllocator.Dealloc | kernel/src/mem/phys_alloc.rs:444-462 | the block is free again; tiling, lists and bitmap are kept, and by how much the count of free bytes is off, in the states that shrinking leaves too |
| Buddies.BuddyAllocator.Shrink | kernel/src/mem/phys_alloc.rs:383-419 | the block keeps its address with the smaller size, its upper halves are free; tiling, lists and bitmap are kept, and how far the count is off exactly if the order stays or goes from 2 to 1 |
| Buddies.ShrinkCount | kernel/src/mem/phys_alloc.rs:418-418 | the free bytes that shrinking counts are those it frees exactly for order 2 to order 1 |
| Buddies.ZoneManager.Alloc | kernel/src/mem/phys_alloc.rs:512-535 | zones are asked in turn from a rotating start, each at most once; none exactly if all were asked in vain; only the zone that answers changes |
| LinkedLists.LinkedList.Push | libutil/src/collections/linked_list.rs:126-143 | a node more at the end |
| LinkedLists.LinkedList.Pop | libutil/src/collections/linked_list.rs:145-163 | the last node goes, also the only one |
| LinkedLists.LinkedList.PushFront | libutil/src/collections/linked_list.rs:165-182 | a node more at the front |
| LinkedLists.LinkedList.PopFront | libutil/src/collections/linked_list.rs:184-202 | the first node goes, also the only one |
| LinkedLists.LinkedList.Insert | libutil/src/collections/linked_list.rs:204-221 | a node more at an index that is in range |
| LinkedLists.LinkedList.Remove | libutil/src/collections/linked_list.rs:223-240 | the node at an index goes |
| LinkedLists.LinkedList.InsertBefore | libutil/src/collections/linked_list.rs:242-262 | a node more just before a given one |
| LinkedLists.LinkedList.InsertAfter | libutil/src/collections/linked_list.rs:264-283 | a node more just after a given one |
| LinkedLists.LinkedList.RemoveNode | libutil/src/collections/linked_list.rs:286-310 | just the given node goes |
| LinkedLists.LinkedList.GetNode | libutil/src/collections/linked_list.rs:408-430 | the node at an index, from whichever end is nearer |
| LinkedLists.Iter.Next | libutil/src/collections/linked_list.rs:505-515 | gives out a node after having read the way to the next |
| LinkedLists.WakeExpired | kernel/src/sched/mod.rs:70-79 | moving nodes to another list while iterating looks at each once and moves just those whose time has come, in order |
| LinkedLists.WokenExactly | kernel/src/sched/mod.rs:76-78 | moved and kept nodes together are the old ones, split by their time |
| Schedulers.TakeRight | kernel/src/sched/thread.rs:526-531 | taking a thread out of its list keeps every other in just one list |
| Schedulers.PutRight | kernel/src/sched/thread.rs:535-538 | putting a thread into a list that fits its state keeps each in just one list |
| Schedulers.EveryThreadOnce | kernel/src/sched/mod.rs:314-329 | every thread is at one place in one list, off the processors in that of its state |
| Schedulers.SwitchCpus | kernel/src/sched/mod.rs:152-174 | a switch keeps one thread per processor, and every idle thread on its own |
| Schedulers.SwitchSays | kernel/src/sched/mod.rs:152-174 | what a switch makes of the thread that leaves a processor, by whether it was running, idle or about to block |
| Schedulers.Scheduler.NewThread | kernel/src/sched/process.rs:461-477 | a new thread becomes the last ready one, exactly if its number is not taken |
| Schedulers.Scheduler.NextThread | kernel/src/sched/mod.rs:135-150 | the first live ready thread, else the idle one, else none; dead ones before it go to their list |
| Schedulers.Scheduler.Schedule | kernel/src/sched/mod.rs:131-199 | the whole new lists and states; the thread that ran becomes the last ready one, or the idle one of its processor, or, if it asked to block, the last in the list of the state it asked for; the first ready thread that is alive takes over, or the idle one; no switch exactly if the idle thread runs and no live thread is ready |
| Schedulers.Scheduler.MoveTo | kernel/src/sched/thread.rs:543-554 | the thread goes to the end of the list of its new state |
| Schedulers.Scheduler.InnerStateMove | kernel/src/sched/mod.rs:361-391 | the first threads of one list, up to the count, go to the end of another, or to the end of the same, which is turned; their number is returned |
| Schedulers.Scheduler.Ensure | kernel/src/sched/mod.rs:437-488 | the list for a state is there; others do not change |
| Schedulers.Scheduler.Block | kernel/src/sched/mod.rs:676-687 | the running thread takes the state, whose list is there; no list changes |
| Schedulers.Scheduler.WakeSleepers | kernel/src/sched/mod.rs:65-80 | exactly the sleepers whose time has come are made ready, in order |
| Schedulers.WokenExactly | kernel/src/sched/mod.rs:71-78 | a sleeper is woken exactly if its time is not after the present one |
| Schedulers.Scheduler.TimeHandler | kernel/src/sched/mod.rs:59-91 | processor 0 wakes the sleepers; a switch follows exactly if the time slice is over, and says as much of the two threads as `Schedule` |
| Schedulers.Scheduler.Elapsed | kernel/src/sched/mod.rs:85-85 | the time that, added to that of the last switch on a clock of 64 bits, gives the present one |
| Schedulers.Scheduler.IntHandler | kernel/src/sched/mod.rs:96-117 | all threads that wait for the running one are made ready, then the processor switches, which says as much of the two threads as `Schedule` |

## Left out

- Translation lookaside buffer, CR3, interrupts, devices, ACPI, boot and ELF code: hardware, without state logic.
- What becomes of page tables once `faithful` is lost: the source then goes on in memory that it has freed.
- VirtMappers.VirtMapper.RemapAt: for a zone left empty at another target, with popped pages, the model stops with the outcome `Astray`, because the walk of the source then goes through tables that need not exist; what is left then is only said not to agree with the zones.
- VirtMappers.VirtMapper.Remap: what the caller's function does to a layout is a list of pushes and pops, and whether it fails is a parameter.
- `dealloc_all`, `Drop`, `range_map`, `address_map`, and the freeing of the memory behind elements.
- Overflow of addresses and sizes near 2^64, and running out of frames for page tables (the source panics).
- `AvlTree::pop`, which does not rebalance; `get` and `get_mut`, which are `search`; keys are integers.
- `KFutex::destroy`, `RWFutex`, reference counts and capability ids; fairness of the spinning for the block lock; weaker memory orders than sequential consistency. A `RawFutex` is used by threads of one process.
- The nodes of the free lists are values in the lists of their zones: that they are written into the free memory itself is not modelled. Sizes of zero, which `GlobalAlloc` forbids.
- `oalloc_at`, `split_order_at`, the growing branch of `orealloc`, and the body of the joining loop of `insert_node`, which is never reached. The bitmap is one boolean for each bit. The smallest block is a power of two, as all callers pass it.
- Buddies.BuddyAllocator.Shrink: the count of free bytes is stated as the source computes it, which is not that of the free blocks; see `Buddies.ShrinkCount`. Where the count falls below zero for this reason, it wraps around in the source and is a negative number here.
- `LinkedList::append`, which does not add the lengths, and `update_node`.
- Threads are numbers in the scheduler; of their creation and end only what it does to the lists is modelled, and not address-space switches and registers. Idle threads are taken never to block, and a list that a thread blocks on to exist until it is filed.
- `NLVec`, `AtomicU128`, `MemCell`, `CpuMarker` and the range iterators marked FIXME.
