# A verified model of the SplinterDB storage engine

This project models the storage core of SplinterDB in Dafny and proves what the code and its
comments promise. `dafny verify dfyconfig.toml` checks everything.

| files | what they model |
|---|---|
| `data_config`, `merge_spec`, `merge_iterator`, `compaction` | the message algebra and the k-way merge iterator: a sorted array of iterators with "next key equal" bits, against the sorted, folded and finalized contents of its inputs |
| `spans`, `page_layout`, `leaf_page`, `leaf_search`, `leaf_split`, `leaf_update`, `leaf_insert` | B-tree leaves as bytes: packed header, offset table, entries, in-place replacement, dead space, the byte-balanced split, and the choice between defragmenting and splitting |
| `index_page` | B-tree index pages by table slot: the reclaim case, fullness, the cut, and what lowering pivot 0 leaves room for |
| `btree_shape`, `btree_updates`, `btree`, `leaf_refinement` | the tree of decoded nodes: root growth, smallest-pivot updates, splits, lookup, against one map of messages |
| `paged_nodes`, `btree_insert`, `btree_runs` | `btree_insert` and `btree_lookup` on pages, with the tree of nodes the pages hold, and what any run of inserts leaves behind |
| `btree_scan` | the forward range scan while other threads insert and split |
| `async_lookup` | the asynchronous point lookup, resumed after every obstacle |
| `pack_spec`, `pack_fill`, `pack`, `rank` | bulk packing with subtree statistics and the height it takes, rank, and range counts |
| `clock_cache`, `clock_cache_steps`, `clock_cache_safety`, `clock_cache_progress`, `clock_cache_stale` | the cache's read, claim, write, pin, eviction, load and write-back protocol in atomic steps |
| `packed_array`, `packed_run` | bit packing, one item at a time and in runs |
| `wrappers`, `modulo`, `pcq`, `memtable`, `allocator` | the ticket queue, the memtable ring, the extent allocator |

Conventions and assumptions:

- A user key is an integer rank in the order of `key_compare`; where the bytes matter (leaves) the rank is a
  parameter that maps a byte key to its place, so keys the comparator calls equal have one rank. The two merge
  callbacks are functions of their inputs; what they must satisfy is stated where it is needed.
- Pages are laid out as `btree_private.h` and `data_internal.h` say for packed, little-endian structures: header 37
  bytes, leaf entry 6, index entry 23, table entry 2. Page sizes run from 4096 (splinterdb/src/rc_allocator.c:431) up to
  65535, because `next_entry` is a 16-bit offset that is set to the page size.
- `btree_insert` checks only the incoming message against the inline bound. That merged messages stay within it is a
  premise of the leaf results (`MergeStaysInline`).
- Pivot 0 of an index is rewritten after the fullness test, when nothing tests again. The code takes it that the page
  then has room for one more pivot. That can be false for keys of more than a sixteenth of the page:
  `IndexPage.PivotRefused` runs into it on a page that eight ordinary insertions make. `IndexPage.Page.MakeReady` says
  exactly when it holds: unless the page was `Cramped`, which can be told before the step. Two keys that together take
  no more than an eighth of the page never meet a cramped page.
- `btree_insert` is modelled for all keys it admits. A descent that meets a parent without room ends with `NoRoom`: below
  a leaf split the code stops at an assertion there (btree.c:1408), below an index split it goes on without the pivot
  (btree.c:1547-1552). With keys of up to a sixteenth of the page no descent ends so.
- `BTreeInsert.PagedTree` keeps the pages as they are stored (leaves byte by byte, index pages by table slot) and beside
  them the tree of nodes they hold. Every decision follows from the pages and from the answers to the claims, which are
  an input: `claims(n)` is the answer to the n-th claim that is tried.
- In the same way the answers of the cache to an asynchronous lookup, and whether a page being packed takes one more
  entry or two pages share an extent, are inputs.
- Concurrent code is a state machine whose steps are the atomic operations of the source; theorems range over all runs.
- The range count is specified by the comment at splinterdb/src/btree.c:3327-3330. `btree_count_in_range_by_iterator`
  passes TRUE as its start comparison, which is `less_than_or_equal`, and is not what is modelled.
- The comment of `btree_defragment_or_split_child_leaf`'s total suggests one slot per entry; the code's conditional
  groups as `(nentries + state == 1 ? 0 : 1)`, and that is what `LeafUpdate.TotalSpaceRequired` computes.

## Model

| member | source | states |
|---|---|---|
| DataConfig.AssociativeIffCallbackLaws | splinterdb/src/data_internal.h:560-607 | merging three messages of a key in either grouping gives the same result for all messages, if and only if the callbacks obey three stated laws |
| MergeSpec.ItemsAreSorted | splinterdb/src/merge.c:51-86 | the merged stream is ordered by key, newest input first within a key |
| MergeSpec.ItemsAtKey | splinterdb/src/merge.h:27-51 | per key the stream holds exactly the messages of the inputs, newest first |
| MergeSpec.RawMeaning | splinterdb/src/merge.h:27-51 | RAW output is ordered by key, holds as many pairs as the inputs together, and per key exactly their messages, newest first |
| MergeSpec.IntermediateMeaning | splinterdb/src/merge.h:27-51 | INTERMEDIATE output is strictly sorted and maps each key to the newest-to-oldest fold of its messages |
| MergeSpec.FullMeaning | splinterdb/src/merge.h:27-51 | FULL output is strictly sorted, holds only INSERTs if the callback leaves no UPDATE, and has for each key what its fold comes to: an INSERT as it is, nothing for a DELETE, and for an UPDATE what the final-merge callback makes of it, unless that is a DELETE |
| Compaction.CompactionPreservesMerge | splinterdb/src/merge.h:27-51 | replacing any contiguous run of inputs by its INTERMEDIATE merge changes no later merge in the merging modes, given associativity |
| Compaction.CompactionSoundIffLaws | splinterdb/src/data_internal.h:560-607 | compaction is sound for all inputs and all runs exactly when the callbacks obey the laws |
| MergeIterator.BsearchInsert | splinterdb/src/merge.c:89-123 | the index splits the sorted iterators around the key, and the two flags say whether the neighbours there have an equal key |
| MergeIterator.Iterator.AdvanceAndResortMinRitor | splinterdb/src/merge.c:167-243 | consumes the head of the smallest iterator and restores order, bits and the live count |
| MergeIterator.Iterator.MergeResolveEqualKeys | splinterdb/src/merge.c:249-312 | folds the whole group of equal keys, leaving its last iterator in front |
| MergeIterator.Iterator.MergeFinalizeUpdatesAndDiscardDeletes | splinterdb/src/merge.c:325-357 | in FULL mode an UPDATE becomes what the final-merge callback makes of it and nothing else changes; exactly the deletes are reported as to be dropped |
| MergeIterator.Iterator.AdvanceOneLoop | splinterdb/src/merge.c:359-405 | the current pair is the next of the mode's output, or a dropped delete to retry after |
| MergeIterator.Iterator.MergeNext | splinterdb/src/merge.c:696-738 | one call moves on to the next pair of the output |
| MergeIterator.Iterator.SetupOrderedIterators | splinterdb/src/merge.c:416-478 | exhausted inputs go last, live ones are sorted, the bits tell equal neighbours |
| MergeIterator.Iterator.constructor | splinterdb/src/merge.c:520-590 | a new iterator has the whole output of its inputs before it |
| MergeIterator.MergeAll | splinterdb/src/merge.c:520-590 | for any sorted inputs in any mode the iterator terminates and emits exactly the specified output; in FULL mode that has for each key what the fold of its messages comes to by class, with the callback applied to an UPDATE; 1024 inputs or more are refused |
| Spans.DisjointSpansFit | splinterdb/src/btree.c:7-45 | stretches of a page that do not overlap take no more than the room that holds them |
| PageLayout.EntriesFit | splinterdb/src/btree.c:7-45 | in every well-formed leaf, table, free middle and live entries fit the page together |
| LeafPage.Page.FillLeafEntry | splinterdb/src/btree.c:302-315 | the tuple can be read back from where it was written, and nothing else changed |
| LeafPage.Page.SetLeafEntry | splinterdb/src/btree.c:348-393 | succeeds exactly when btree_can_set_leaf_entry says so, and then updates or appends that tuple only, keeping the slotted-page invariant |
| LeafPage.Page.InsertLeafEntry | splinterdb/src/btree.c:395-415 | the tuple is inserted at its place in table order, all others stay |
| LeafPage.Page.ShiftTable | splinterdb/src/btree.c:403-413 | the last table slot moves to place k and the slots from k on move up |
| LeafPage.Page.BumpGeneration | splinterdb/src/btree.c:672-674 | the 64-bit generation goes up by one, wrapping, and no other byte changes |
| LeafPage.Page.TryPerform | splinterdb/src/btree.c:642-676 | succeeds exactly when the update can be performed; the leaf then holds the old tuples with the update applied and a new generation, otherwise it is untouched |
| LeafPage.Page.TruncateLeaf | splinterdb/src/btree.c:720-733 | keeps exactly the first entries, with next_entry before all of them |
| LeafPage.Page.DefragmentLeaf | splinterdb/src/btree.c:693-718 | drops the entry to be replaced and all dead space; every other tuple stays in order |
| LeafSearch.FindTuple | splinterdb/src/btree.c:492-534 | the index separates the keys up to the target from those above it, and found is exact |
| LeafSearch.CreateLeafIncorporateSpec | splinterdb/src/btree.c:575-610 | the planned leaf is sorted and maps the key to the merged message, all other keys as before; the old-entry state says whether the key was present |
| LeafSplit.CutIsInside | splinterdb/src/btree.c:757-771 | a balanced cut leaves tuples on both sides exactly when there are two or more |
| LeafSplit.HalvesFit | splinterdb/src/btree.c:790-800 | when every entry takes less than half the free page, both sides of a balanced cut fit an empty page |
| LeafSplit.CountLiveBytes | splinterdb/src/btree.c:814-819 | the sum of the entries that remain when the replaced one is left out |
| LeafSplit.PlanMoveMoreEntriesToLeft | splinterdb/src/btree.c:773-793 | all entries it passes belong left, the one it stops at does not |
| LeafSplit.BuildLeafSplittingPlan | splinterdb/src/btree.c:801-862 | the plan is the balanced cut of the leaf with the update already applied |
| LeafUpdate.InlineCost | splinterdb/src/btree.c:3884-3898 | inline entries stay below half the free page, for every page size |
| LeafUpdate.BuildRightNode | splinterdb/src/btree.c:880-916 | the new page holds exactly the tuples behind the cut, the update included when it falls there, and is linked to its neighbours |
| LeafUpdate.FinishLeftNode | splinterdb/src/btree.c:918-934 | the old page holds exactly the tuples before the cut, the incorporation cannot fail, and its generation has moved |
| LeafUpdate.SplittingPivot | splinterdb/src/btree.c:864-878 | the pivot is the key of the first tuple behind the cut, or of the entry that tuple replaces |
| LeafUpdate.SplitChildLeaf | splinterdb/src/btree.c:1330-1431 | the two pages together are the updated leaf, neither is empty, the pivot ranks as the first right key, the two leaves are relinked, and neither assertion on an incorporation (btree.c:914, 1430) fires; the parent page and the right neighbour are in BTreeInsert |
| LeafUpdate.DefragmentedHasRoom | splinterdb/src/btree.c:1469-1483 | below half a page the update fits a defragmented leaf |
| LeafUpdate.SplitsAtLeastTwo | splinterdb/src/btree.c:1469-1473 | from half a page on the updated leaf has at least two tuples, with the total grouped as C groups it |
| LeafUpdate.DefragmentOrSplitChildLeaf | splinterdb/src/btree.c:1447-1500 | whichever way it goes the updated tuples are all there and every incorporation succeeds |
| LeafInsert.InsertIntoLeaf | splinterdb/src/btree.c:1969-2052 | the leaf, or the two leaves, map the key to the merged message and everything else as before; was_unique is exact |
| LeafRefinement.UpdateRefines | splinterdb/src/btree.c:575-610 | what an insert does to the bytes of a leaf is the tree layer's update of the decoded leaf |
| LeafRefinement.SplitRefines | splinterdb/src/btree.c:1401-1431 | a split of the bytes is the tree layer's cut, with the pivot at the cut |
| PagedNodes.LeafTook | splinterdb/src/btree.c:1984-2004 | a leaf page that took a tuple holds the node that took the message, with keys no longer than before or than the new one |
| PagedNodes.LeafHalvesTook | splinterdb/src/btree.c:1330-1431 | two leaf pages after a split hold the two halves of the node, and the pivot is the right half's first key |
| IndexPage.PivotsFit | splinterdb/src/btree.c:7-45 | table, free middle and live pivots fit the page together |
| IndexPage.Page.SetIndexEntry | splinterdb/src/btree.c:222-275 | succeeds exactly when the entry fits in place, in the reclaimed front, or in the middle; updates or appends that entry only, keeps the page arranged, and leaves next_entry exactly where the case at hand says |
| IndexPage.Page.InsertIndexEntry | splinterdb/src/btree.c:277-295 | succeeds exactly when there is room, and inserts the pivot at its place |
| IndexPage.NotFullAccepts | splinterdb/src/btree.c:945-951 | a page that is not full takes any inline pivot in any slot |
| IndexPage.CutStrictlyInside | splinterdb/src/btree.c:954-977 | the chosen cut leaves pivots on both sides |
| IndexPage.RightHalfNotFull | splinterdb/src/btree.c:980-1003 | the right half is not full |
| IndexPage.LeftHalfNotFull | splinterdb/src/btree.c:1033-1053 | the left half is not full once a quarter of the page is free before its entries |
| IndexPage.DefragmentedNotFull | splinterdb/src/btree.c:1618-1626 | below half a page a defragmented index is not full |
| IndexPage.Page.DefragmentIndex | splinterdb/src/btree.c:1013-1031 | the same pivots, without gaps |
| IndexPage.Page.TruncateIndex | splinterdb/src/btree.c:1033-1053 | keeps the first pivots: as they lie when a quarter of the page is free before them, without gaps otherwise |
| IndexPage.Page.ChooseIndexSplit | splinterdb/src/btree.c:954-977 | the first point with half of the bytes before it |
| IndexPage.Page.SplitIndex | splinterdb/src/btree.c:1514-1589 | the halves are a prefix and the rest of the pivots, neither empty, neither full; the parent page is in BTreeInsert |
| IndexPage.Page.DefragmentOrSplitIndex | splinterdb/src/btree.c:1603-1639 | splits exactly from half a page on, and never leaves a full page |
| IndexPage.Page.MakeReady | splinterdb/src/btree.c:1887-1949 | lowering pivot 0, defragmenting or splitting, and lowering pivot 0 late keeps all pivots with the new smallest one; the late step never fails; the page accepts a further inline pivot of any length exactly when it was not cramped for it |
| IndexPage.ShortKeysFit | splinterdb/src/btree.c:1937-1949 | a smallest key and a further pivot that together take no more than an eighth of the page never find it cramped |
| IndexPage.HalfwayUnique | splinterdb/src/btree.c:954-977 | a page has one halfway point, so the cut is known before the split |
| IndexPage.BuildCrampedPage | splinterdb/src/btree.c:277-295 | eight insertions, each into a page that is not full, lay out a certain page of 4096 bytes |
| IndexPage.CrampedPageIs | splinterdb/src/btree.c:1937-1949 | that page is full and cramped for a smallest key and a pivot of 512 bytes each |
| IndexPage.PivotRefused | splinterdb/src/btree.c:1887-1949 | on that page the descent of a 512-byte key splits at 5, lowers pivot 0 late, and the next 512-byte pivot is refused |
| BTreeShape.UniqueParent | splinterdb/src/btree.c:3703-3833 | a node of a valid tree has one parent and one place in it |
| BTreeUpdates.SetMinPivotOk | splinterdb/src/btree.c:1887-1898 | lowering the smallest pivot of a leftmost index keeps the tree and its map |
| BTreeUpdates.GrowRootOk | splinterdb/src/btree.c:1699-1734 | growing the root keeps the tree and its map |
| BTreeUpdates.SplitIndexOk | splinterdb/src/btree.c:1514-1589 | cutting an index child anywhere strictly inside keeps the tree and its map |
| BTreeUpdates.UpdateLeafOk | splinterdb/src/btree.c:1984-2004 | updating a leaf updates the map at that key and keeps the tree |
| BTreeUpdates.SplitLeafOk | splinterdb/src/btree.c:1330-1431 | cutting a leaf anywhere strictly inside keeps the tree, the leaf chain both ways, and the map |
| BTree.FindPivot | splinterdb/src/btree.c:417-490 | the index separates the pivots up to the target from those above it, and found is exact |
| BTree.FindTuple | splinterdb/src/btree.c:492-534 | the same for tuples, and the tuple found is the one a lookup in the leaf yields |
| BTree.Tree.constructor | splinterdb/src/btree.c:1188-1235 | a new tree is valid and empty |
| BTree.Tree.LookupNode | splinterdb/src/btree.c:2055-2116 | reaches the node of the wanted height that is responsible for the target: a key, or the first or last node for an infinity |
| BTree.Tree.LookupMessage | splinterdb/src/btree.c:2119-2160 | finds a key exactly when it is in the map, with its message |
| BTree.Tree.GrowRoot | splinterdb/src/btree.c:1699-1734 | one level more over the old root, same map |
| BTree.Tree.SplitAndChoose | splinterdb/src/btree.c:1514-1589 | after an index split the search goes on in the half responsible for the key, at the right place |
| BTreeInsert.PagedTree.TrySetMinKey | splinterdb/src/btree.c:1887-1898 | lowers pivot 0 on page and node exactly when the page can take the key |
| BTreeInsert.PagedTree.GrowRoot | splinterdb/src/btree.c:1699-1734 | the old page moves to the new child, the root page holds its smallest key, and the insertion into it cannot fail |
| BTreeInsert.PagedTree.PrepareRoot | splinterdb/src/btree.c:1810-1846 | the root ends with the right smallest pivot and not full; lowering pivot 0 after growing cannot fail; its claim is tried exactly when the key is below pivot 0 or the page is full, and only its refusal ends the descent |
| BTreeInsert.PagedTree.StepDown | splinterdb/src/btree.c:1866-1949 | the page decides between keeping, defragmenting and splitting the child; the search goes on in the half responsible for the key, which is ready for one more pivot; both claims are tried exactly when there is work to do, and only a refused one gives up; only a parent without room for the longest key refuses, which short keys never meet |
| BTreeInsert.PagedTree.StoreHalves | splinterdb/src/btree.c:1514-1589 | the parent page takes the pivot of the right half before the node is split, or the descent ends there; pages and nodes agree |
| BTreeInsert.PagedTree.StoreLeafHalves | splinterdb/src/btree.c:1330-1431 | the same for a leaf split: with short keys the assertion on the parent (btree.c:1408) never fires, and the right neighbour points back |
| BTreeInsert.PagedTree.ClaimNext | splinterdb/src/btree.c:1372-1397 | the claim on the right neighbour of a leaf to be split is tried until it is granted, and given up after exactly 101 refusals |
| BTreeInsert.PagedTree.UpdateLeafPage | splinterdb/src/btree.c:1969-2052 | the leaf page takes the update in place, defragmented, or split with a new page; the pages hold the node, or its two halves, with the message merged in |
| BTreeInsert.PagedTree.FinishAtLeaf | splinterdb/src/btree.c:1951-2052 | stores the merged message with exact uniqueness, pages and nodes in step, or leaves the map unchanged: it starts over exactly when the last claim it tried was refused, and ends without room only at a parent that has none for the longest key |
| BTreeInsert.PagedTree.InsertIntoRoot | splinterdb/src/btree.c:1783-1808 | a root leaf takes the update as it is or is left as it was, and then it is not empty, so that it can grow; one claim is tried and only its refusal gives up |
| BTreeInsert.PagedTree.LookupMessage | splinterdb/src/btree.c:2119-2160 | finds in the bytes of the responsible leaf exactly what the map has for the key |
| BTreeInsert.PagedTree.InsertAttempt | splinterdb/src/btree.c:1762-2053 | a descent over pages stores the message and reports uniqueness exactly, or ends early with the map unchanged; it starts over exactly when the last claim it tried was refused, all before it having been granted but for the repeated one on the next leaf; what is not inline or of no valid type is refused; only a parent on the key's path without room ends it otherwise, which short keys never meet; pages and nodes stay valid and agree |
| BTreeInsert.PagedTree.InsertMessage | splinterdb/src/btree.c:1743-2053 | the same over any number of descents: given up only with a refusal in each of them; with all claims granted and short keys a message that is not refused is stored |
| BTreeRuns.AppliedIsFold | splinterdb/src/btree.c:1743-2053 | merging messages as they arrive yields the newest-to-oldest fold per key |
| BTreeRuns.RunInserts | splinterdb/src/btree.c:1743-2053 | after any run of inserts, for any answers to the claims, the tree is valid and maps every key to the fold of its stored messages; was_unique was exact each time; with short keys the run never stops, and with all claims granted the tree maps every key to the fold of all accepted messages |
| BTreeRuns.TreeShape | splinterdb/src/btree.c:3703-3833 | equal heights, increasing pivots, and every pivot but a leftmost one is its child's first key |
| BTreeRuns.LeafChainSorted | splinterdb/src/btree.c:3703-3833 | each leaf is sorted and ends before its right neighbour begins, which points back |
| BTreeScan.UpdateLeafInterferes | splinterdb/src/btree.c:1984-2004 | a leaf update by another thread is the interference the scan allows for |
| BTreeScan.SplitLeafInterferes | splinterdb/src/btree.c:1330-1431 | so is a leaf split, when the held leaf is neither the split one nor its neighbour |
| BTreeScan.GrowRootInterferes | splinterdb/src/btree.c:1699-1734 | so is growing the root |
| BTreeScan.SplitIndexInterferes | splinterdb/src/btree.c:1514-1589 | so is an index split |
| BTreeScan.MinPivotInterferes | splinterdb/src/btree.c:1887-1898 | so is lowering a smallest pivot |
| BTreeScan.FindEndWhileClaimed | splinterdb/src/btree.c:2788-2863 | with the start leaf claimed, the end leaf found does not lie before it |
| BTreeScan.FindEndAgain | splinterdb/src/btree.c:2630-2661 | finding the end again without a lock loses nothing, because a leaf's first key is fixed |
| BTreeScan.AcquireOk | splinterdb/src/btree.c:2617-2661 | arriving at the end leaf with a stale generation is noticed before anything is emitted |
| BTreeScan.AdvanceOk | splinterdb/src/btree.c:2740-2763 | can_next implies there is an entry; emitting its pair skips no key |
| BTreeScan.EmittedWasHeld | splinterdb/src/btree.c:2740-2763 | in any run each pair emitted was emitted by a Next step, in a tree that mapped the key to that message at the time |
| BTreeScan.ScanMissesNothing | splinterdb/src/btree.c:2450-2490 | over every run with inserts and splits in between, the pairs emitted have strictly increasing keys in bounds, each was in the tree when it was emitted, and when the scan stops no key present at the start was missed |
| BTreeScan.LeftAloneEnds | splinterdb/src/btree.c:2617-2763 | from wherever inserts and splits have brought it, a scan that is then left alone comes to its end |
| BTreeScan.StillTreeScanned | splinterdb/src/btree.c:2450-2490 | on a tree that stands still a scan ends with exactly the pairs of the map within its bounds |
| AsyncLookup.Request.Resume | splinterdb/src/btree.c:2266-2374 | for any answers of the cache: it stops early exactly at the first answer that is not a success, and returns that answer; a success is the answer of the synchronous lookup, with the leaf held exactly when something was found |
| AsyncLookup.Request.IndexComplete | splinterdb/src/btree.c:2323-2349 | the parent is released only once the child's reference is held |
| AsyncLookup.Run | splinterdb/src/btree.c:2404-2425 | a lookup is done exactly when fewer answers stood in its way than it was resumed times; it then holds one reference on a hit and none on a miss |
| PackSpec.RangeIsDifference | splinterdb/src/btree.c:3327-3352 | the counts below the upper target are those below the lower plus those in between |
| PackSpec.FirstKeyIsFirst | splinterdb/src/btree.c:3069-3082 | the pivot a node hands to its parent is the key of the first tuple below it |
| PackFill.FilledHolds | splinterdb/src/btree.c:3069-3150 | a closed node of height h has at least l * f^h tuples below it, where every leaf takes l tuples and every index page f pivots |
| PackFill.SevenPivotsFit | splinterdb/src/btree.c:222-275 | an index page filled without gaps takes seven inline pivots at every page size |
| Pack.PackReq.LinkNode | splinterdb/src/btree.c:3069-3106 | the finished node becomes the last child of its parent level with exact statistics; the leaves and their order stay; it fails only with all eight levels in use and more tuples than a full node of the highest one holds |
| Pack.PackReq.LinkExtent | splinterdb/src/btree.c:3108-3117 | all nodes of a level move under the next one, the leaves stay the same; only closed nodes are linked, but for the very last one |
| Pack.PackReq.CreateIndexNode | splinterdb/src/btree.c:3119-3150 | a new index node is begun only when its predecessor has no room, with one child and exact statistics; it fails only beyond the eighth level |
| Pack.PackReq.CreateLeaf | splinterdb/src/btree.c:3119-3150 | a new leaf is begun only when the last one has no room, and is chained behind it, which may send the whole extent upwards |
| Pack.PackReq.PackLoop | splinterdb/src/btree.c:3152-3192 | the packed tuples are the old ones and the new one; it fails only with all eight levels in use and more tuples than a full node of the highest one holds |
| Pack.PackReq.PostLoop | splinterdb/src/btree.c:3195-3230 | one root remains over the same leaves, no higher than the number of tuples calls for |
| Pack.PackTree | splinterdb/src/btree.c:3265-3301 | the leaf chain is the input, all leaves are at one depth, and every pivot and its statistics are exact for its subtree; with pages that take l tuples or f pivots, a tree of height h > 0 has more than l * f^(h-1) tuples, and an input is too high only with all eight levels in use and more than l * f^7 tuples |
| Rank.OnlyChildMatters | splinterdb/src/btree.c:2096-2126 | everything before the chosen child is below the target, nothing behind it is |
| Rank.PivotsIncrease | splinterdb/src/btree.c:3703-3833 | the pivots of a packed index over increasing tuples increase |
| Rank.GetRank | splinterdb/src/btree.c:3303-3324 | exactly the number and the sizes of the tuples below the target |
| Rank.CountInRange | splinterdb/src/btree.c:3326-3352 | exactly the tuples from min (inclusive) to max (exclusive), for user keys and infinities in any order |
| ClockCacheSteps.StepKeeps | splinterdb/src/clockcache.c:930-1297 | every atomic step of every session keeps the protocol's invariant |
| ClockCacheSteps.RefsKept | splinterdb/src/clockcache.c:790-843 | each stripe counts exactly the sessions of its threads that hold a reference |
| ClockCacheSafety.WriteExclusion | splinterdb/src/clockcache.c:1042-1184 | in every run, once a write lock is granted nobody else holds a lock that passed its tests, and no write-back is under way |
| ClockCacheSafety.StepRefines | splinterdb/src/clockcache.c:2096-2255 | seen as a flat store, a step is the write it makes or nothing |
| ClockCacheSafety.RunRefines | splinterdb/src/clockcache.c:2096-2255 | over every run the store is the pages on disk with the writes applied in order |
| ClockCacheSafety.ReadersSeeLastWrite | splinterdb/src/clockcache.c:2096-2195 | a granted read lock finds the last value written to its address |
| ClockCacheSafety.UnmappedIsOnDisk | splinterdb/src/clockcache.c:1426-1521 | an address not in the cache has its current value on disk |
| ClockCacheSafety.OneEntryPerAddress | splinterdb/src/clockcache.c:2196-2240 | no two entries hold one address, but for one on its way out |
| ClockCacheSafety.EvictsSafely | splinterdb/src/clockcache.c:1426-1521 | an entry that is freed is clean, unpinned and held by nobody else |
| ClockCacheSafety.PinsAccounted | splinterdb/src/clockcache.c:846-880 | over every run an entry's pin count is its start plus the Pin steps on it minus the Unpin steps |
| ClockCacheSafety.PinnedNotFreed | splinterdb/src/clockcache.c:1442-1494 | in every run an entry is freed only when it has been unpinned as often as pinned |
| ClockCacheProgress.GetAlone | splinterdb/src/clockcache.c:2096-2195 | with no writer and no load under way a get finds the page and takes one reference, and nothing else changes |
| ClockCacheProgress.LockAlone | splinterdb/src/clockcache.c:1078-1130 | with no other reference, claim or write-back the upgrade to the write lock is granted |
| ClockCacheProgress.WriteAlone | splinterdb/src/clockcache.c:2593-2640 | get, claim, lock, mark dirty, write and release leave the page dirty with the new value and no lock or reference on it |
| ClockCacheProgress.EvictAlone | splinterdb/src/clockcache.c:1426-1521 | an unpinned clean page that nobody uses is freed and unmapped, in one pass, or in two if it was marked as accessed |
| ClockCacheProgress.LoadAlone | splinterdb/src/clockcache.c:2196-2255 | a page that is not in the cache is read into a free entry with its value on disk |
| ClockCacheProgress.CleanAlone | splinterdb/src/clockcache.c:1223-1297 | write-back puts the page's value on disk and leaves the entry clean |
| ClockCacheStale.PassedOnFreeEntry | splinterdb/src/clockcache.c:960-996 | a run in which a reader passes both tests on an entry that has been freed, so that only the address check protects it |
| PackedArray.Set | splinterdb/src/PackedArray.c:469-502 | exactly the item's bits change, and they become the item |
| PackedArray.Get | splinterdb/src/PackedArray.c:504-537 | the stored item, with all higher bits zero |
| PackedArray.StoredUnique | splinterdb/src/PackedArray.c:469-502 | the bits of a run determine the buffer |
| PackedRun.Pack | splinterdb/src/PackedArray.c:204-257 | at every width, offset and count the run's bits become the items and no other bit changes |
| PackedRun.SetRun | splinterdb/src/PackedArray.c:469-502 | a run of single sets has the same effect |
| PackedRun.Unpack | splinterdb/src/PackedArray.c:259-298 | every item is what a single get finds, and nothing beyond the count is written |
| PackedRun.StoredItem | splinterdb/src/PackedArray.c:504-537 | what a run stored at an offset is what is found there |
| PackedRun.StoredFrame | splinterdb/src/PackedArray.c:204-257 | no bit outside the range changes |
| PackedRun.RoundTrip | splinterdb/src/PackedArray.c:204-298 | unpack after pack returns the items |
| Pcq.SlotsDistinctIff | splinterdb/src/pcq.h:73-95 | tickets of one queue length keep distinct slots across the 32-bit wrap exactly when num_elems divides 2^32 |
| Pcq.StoresToEmpty | splinterdb/src/pcq.h:86-94 | the slot an enqueue stores to is empty |
| Pcq.ExactlyOnceInOrder | splinterdb/src/pcq.h:73-122 | over every interleaving what is dequeued is a prefix of the tickets in order; a look finds the queue not empty exactly when a ticket is outstanding, and a stored head is not missed |
| Pcq.DequeueTakesNext | splinterdb/src/pcq.h:102-122 | once the next ticket is stored, one dequeue takes its element |
| MemtableRing.StepKeeps | splinterdb/src/memtable.c:118-185 | every step of rotation, finalization, background work and recycling keeps the ring's invariant |
| MemtableRing.RingInOrder | splinterdb/src/memtable.c:303-335 | slot i holds a generation congruent to i within max_memtables of the current one, READY slots none behind it |
| MemtableRing.AdmittedStaysReady | splinterdb/src/memtable.c:118-185 | an admitted insert finds its memtable READY and current until it ends |
| MemtableRing.RotationFindsReady | splinterdb/src/memtable.c:141-160 | at the moment of a rotation that is not forced the current memtable is READY and so is the next |
| MemtableRing.RecycledAfterLife | splinterdb/src/memtable.h:39-100 | in every run a memtable is recycled only after it went from READY through FINALIZED, COMPACTING, COMPACTED, INCORPORATION_ASSIGNED and INCORPORATING to INCORPORATED, in this order |
| MemtableRing.LifeCompletes | splinterdb/src/memtable.h:39-100 | with nothing but background steps and its recycling a finalized memtable becomes READY again, exactly one turn of the ring further on |
| MemtableRing.RotateAlone | splinterdb/src/memtable.c:118-185 | with nobody else inside and the next memtable READY, a full memtable is finalized and the generation moved on by one, and nothing else changes |
| Allocator.Extents.Alloc | splinterdb/src/rc_allocator.c:694-738 | succeeds exactly when some extent is free, takes the first one from the hand on, and keeps the counters exact |
| Allocator.Extents.IncRef | splinterdb/src/rc_allocator.c:500-515 | one reference more, counters unchanged |
| Allocator.Extents.DecRef | splinterdb/src/rc_allocator.c:517-551 | one reference less, and the extent is free exactly at 0 |
| Allocator.StepBalances | splinterdb/src/rc_allocator.c:500-551 | reference counts and counters stay in balance with what calls under way still owe |
| Allocator.QuiescentCounters | splinterdb/src/rc_allocator.c:500-551 | whenever no call is under way, curr_allocated and allocs minus deallocs are the extents in use |
| Allocator.RefsAccounted | splinterdb/src/rc_allocator.c:500-551 | over every run a count is its start plus two per hand-out plus references taken minus references dropped |
| Allocator.HandedOutAtZero | splinterdb/src/rc_allocator.c:694-738 | an extent is handed out only when all references it ever had are dropped |
| Allocator.NotHandedOutTwice | splinterdb/src/rc_allocator.c:694-738 | between any two times an extent is handed out, in any run, as many references were dropped as the first hand-out and all later calls had taken |

## Left out

- Error codes of the merge callbacks and of memory allocation: the callbacks are total functions here.
- MergeIterator.Iterator.SortLive: stands for platform_sort_slow, which is not part of this model; it is an exchange sort with the same contract.
- Backward iteration, seek and direction changes of the merge iterator and of the B-tree iterator, where a "next key equal" bit can be stale.
- The check of merge.c that message data is not already in the merge buffer: inputs never point into it.
- The bytes of index entries: index pages are modelled by table slot (offset, pivot, child, statistics); leaves are modelled byte by byte.
- `hdr->height`, `next_extent_addr` and prefetching; the height belongs to the tree layer, generations there to the scan.
- Claims that wait, back off or restart for ever: an insert is followed over finitely many descents, and the claim on a leaf to be split, which is tried until it is granted (btree.c:2017-2023), is taken to be granted with the one on its parent.
- What an insert finds changed when it starts over: other threads' inserts come between the inserts of a run, not between the descents of one.
- The page leaked by a leaf split that cannot claim the next leaf (btree.c:1379-1390): the descent is given up before anything is linked.
- Neighbour addresses in the bytes of leaves: LeafUpdate relates them for one split, BTreeInsert keeps neighbours by node.
- The tree after an index split whose pivot found no room: the descent is taken to end there, the code goes on with the new node missing from its parent.
- BTreeScan.ScanMissesNothing: generation counters do not wrap, and the lookup of an end leaf is one step, because it locks hand over hand.
- Prev links, the copy of the root page and `mini_allocator` calls of packing; a pack that would exceed the maximum height is reported instead of overrunning its arrays.
- Rank.GetRank: the tree is not written to while it is counted, and counters stay below the unknown sentinel.
- ClockCacheSafety.PinsAccounted: pin counts are unbounded, and a pin count is not tied to the session that pinned.
- The order in which the clock's hand visits entries, and whom it spares: any session may pick any entry.
- Clock cache prefetch, asynchronous get, extent sync, allocation and discard of pages, and the stores of a lost load race (clockcache.c:2217-2228): a miss takes a free entry and wins the lookup in one step, and write-back goes one page at a time.
- Pack.PackTree: fingerprints, the abort path's page releases and iterator errors.
- PackedRun.Pack: offset plus count stays below 2^32, as does every 32-bit index of the C code.
- `generation_retired` and `generation_to_incorporate` of the memtable context, which depend on the trunk.
- Allocator.NotHandedOutTwice: counts of many callers are unbounded; the 8-bit count of the code asserts before it wraps.
- MemtableRing.RotationFindsReady: a forced finalization does not test the next memtable, nor wait for the current one to be READY; it asserts.
- Allocator.Extents.IncRef: the overflow of the 8-bit count, on which the code asserts, is a premise.
- Super-block addresses of the allocator, statistics by page type and `max_allocated`.
- The trunk, routing filters, transactions, the task system, I/O and everything under benchmark/.
