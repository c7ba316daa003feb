# Index structures: a Dafny model

The project models the slotted-page B-tree with its alternative page layouts, the radix tree, the partial sort, the
reader/writer lock, the quiescent-state reclamation and the slab allocator of the repository, and proves what each is
for.

**The B-tree.** A page (`Pages.BTreeNode`) is an object whose fields the methods reassign: the slot array, the bytes of
the heap, the hints and the header. `Valid()` is the page layout (slots before the data, live ranges disjoint and in
bounds, `spaceUsed` exact, heads and hints as they should be) and `View()` the abstract page: fences and entries with
full keys. A tree (`BTrees.BTree`) is a pool of page objects by address. Its ghost value ties parents to children by
local invariants, and its contents are a finite map. Every operation works on page objects through page methods and
follows the value by lemmas. The tree is in the repository's *hints* configuration: all leaves and inner pages are plain
pages. Page, header and slot sizes are symbolic, with pages below 65536 bytes. Addresses are arbitrary; running out of
them is a modelled outcome.

The assertions, `ASSUME`s and `abort()`s that an insert can run into are modelled as a result, `false`, and
`Passes.Doomed` says exactly when, before the call: it replays the passes on the pages of the key's path alone, without
their child pointers, and on the number of free addresses. `Splits.Refuses` is its case of a call that stops at once:
the leaf has no room, and neither it nor, where its parent is full, the parent and so on up can be split. A failed call
leaves a tree that refuses the entry at once. `Refusals` shows that this happens within the limits the source checks:
with keys of the largest accepted length, the third or the fifth insert stops (slots of at least three bytes, leaves no
larger than inner pages; the source's slots have ten bytes). `SmallEntries` gives a condition on the entry size under
which only lack of memory remains.

**Page layouts.** `HashNodes`, `DenseNodes` and `HeadNodes` are classes over their own page images, each proved against
the same abstract page, with the conversions between them. The hash function is an uninterpreted constant. `std::sort`
and `std::inplace_merge` are replaced by a verified insertion into the sorted part.

**Radix tree.** `RadixNodes.Node` has the four layouts, each standing for a map from bytes to child pointers. `RadixTree`
holds the tree as a value and what each operation does to it. `RadixStores` says when nodes at addresses stand for such
a value, and `ArtTrees.ArtTree` runs lookup, insert and erase over node objects.

**Concurrency.** The lock and the reclamation are state machines over single atomic instructions of any number of
threads, sequentially consistent. `RwLock.Machine` runs the same instructions on a shared word.

Sources of answers from outside are parameters: the callback of a scan is a function of what it has been shown, the
pages the system hands out are a list, `loadKey` is a function from tuple ids to keys.

## Where the code and its promise part

- `BTrees.BTree.InsertImpl`: inserts of entries within `maxKVSize` can hit an assertion. `Passes.Doomed` is the exact
  condition, `Refusals.DuplicateSeparator`, `Refusals.LeftHalfTooLong` and `Refusals.RefusedLater` are inputs.
- `HashNode::splitNode` does not check that the left half fits (`libbtree/src/hash.cpp:435-462`; the assertion at 485
  comes after the copy). `HashNodes.HashNode.SplitNode` gives the exact condition under which it does not, which needs a
  separator that could not be truncated; `Refusals.HashLeftTooLong` is a page.
- `qsbr_wait` reads through an empty pointer when a slot's first registrant has claimed it but not stored its pointer.
  `Qsbr.EmptyCellIff` gives the exact condition in every run, `Qsbr.SnapshotDecides` the one a caller can check: no
  register call of a never-used slot is in progress when the snapshot is taken. `Qsbr.EmptyCellHappens` is a run.
- `DenseNode::insert` checks the room for a conversion with the new payload's length (`libbtree/src/dense.cpp:118`). The
  conversion overflows exactly when a plain page would hold the keys with payloads as long as the new one but not with
  the stored ones, which needs a shorter new payload. `DenseNodes.OverflowExists` is a page.
- `DenseNode::range_lookup1` loads the first word of the bitmap without a bound (`libbtree/src/dense.cpp:656-657`) and
  tests `entryIndex > slotCount` (`libbtree/src/dense.cpp:673`), so index `slotCount` passes. Every first index behind
  the bitmap makes it load a word behind it. That word may be outside the page; inside the page it does harm in one case,
  which reports a value that is not there. `DenseNodes.DenseNode.RangeLookup1` gives the exact condition of each,
  `DenseFaults.OffPageHappens` and `DenseFaults.BehindHappens` are pages with start keys.
- `DenseNode::leastGreaterKey` adds in 32 bits, with an assertion against the wrap (`libbtree/src/dense.cpp:564-570`).
  Where that does not stop it, a scan from a key above all keys of an array that starts at 0 reports every entry:
  `DenseKeys.WrapsToStart` is the exact condition, `DenseFaults.WrapHappens` an input. `Densify` is safe from it.
- The hops of a scan pass no start key and the length of the fence (`libbtree/src/btree2020.cpp:1022-1030`); a dense page
  whose numeric prefix is longer than its prefix then reads through the null pointer.
- `DenseNode::splitNode1` cuts at the last slot's key whatever the upper fence is, and does not choose a right page for a
  key that has an index (`libbtree/src/dense.cpp:185-209`). `DenseNodes.ProperBoundary` is the exact condition under
  which the boundary is a separator, `DenseFaults.MisplacedHappens` a page.
- The check of the descending scan (`libbtree/src/btree2020.cpp:1121-1126`) starts its own iterator at the end of the map
  when the start key is above all keys, and at the first key when it is below all keys; the scan itself reports all
  keys in the first case and none in the second, as its name says.
- `HeadNode::requestSpaceFor` reports room after narrowing a full wide page without looking whether the narrow page holds
  more (`libbtree/include/head.hpp:353-354`); `HeadNodes.NarrowingGains` says that it does from a capacity of three on.
- `HeadNode::lowerBound` never sets its found flag (`libbtree/include/head.hpp:315-341`), and `copyKeyValueRange` copies
  eight bytes a key in the four-byte form (`libbtree/include/head.hpp:69`); the model copies the keys.

## Model

| member | source | states |
|---|---|---|
| Runs.Run | libbtree/src/btree2020.cpp:752-766 | over any list of inserts of absent keys, removes and lookups, every answer is the one a finite map gives, until an insert is refused; with small entries only lack of memory can refuse one |
| BTrees.BTree.Lookup | libbtree/src/btree2020.cpp:706-740 | for every key of a valid tree the result is exactly what the represented map holds |
| BTrees.BTree.InsertImpl | libbtree/src/btree2020.cpp:800-842 | the map gains the entry, or the call reports false; which of the two is decided exactly by the pages on the key's path and the number of free addresses before the call (Doomed), however many splits come first; a refused call leaves a tree that refuses the entry at once; terminates because each retry lowers a measure |
| Passes.DoomedAfter | libbtree/src/btree2020.cpp:792-842 | a pass that splits something does not change whether the insert will be refused |
| Passes.DoomedNow | libbtree/src/btree2020.cpp:792-842 | a leaf without room that is blocked means the insert is refused |
| Passes.NotDoomed | libbtree/src/btree2020.cpp:811-821 | a leaf with room means it is not |
| Passes.BlockedAlong | libbtree/src/anynode.cpp:296-326 | whether a page can be split is decided by the pages above it on the path, their child pointers apart, and the number of free addresses |
| Passes.PickedSplit | libbtree/src/btree2020.cpp:446-492 | the tree after a split, and its path for any key the page covered: the half the key goes to in the page's place, the separator in the page above |
| BTrees.BTree.SplitNode | libbtree/src/btree2020.cpp:768-779 | fails exactly when the page is blocked (no memory, too few entries, a bad separator, or a full parent that is blocked itself); otherwise the measure of every covered key drops |
| BTrees.BTree.EnsureSpace | libbtree/src/btree2020.cpp:781-790 | descending again from the root finds the parent of the page to split; the split then succeeds unless that page is blocked |
| BTrees.BTree.SplitWithParent | libbtree/src/anynode.cpp:296-326 | which of split, full parent and failure comes out is decided by the values of the page and its parent; the tree changes only in the first case |
| Splits.VerdictIs | libbtree/src/anynode.cpp:296-326 | below the root: it splits exactly when both halves and the parent with the separator fit their pages, the left half gets an entry to cut at, the separator is new to the parent and an address is free; the parent counts as full exactly when it does not fit with the separator |
| Splits.RootVerdictIs | libbtree/src/btree2020.cpp:768-779 | for the root, below a new empty page, exactly when both halves fit and two addresses are free |
| BTrees.BTree.MakeRoot | libbtree/src/anynode.cpp:159-171 | the tree gains an empty inner root above the old one, with the same answers and the same measure |
| BTrees.BTree.RemoveImpl | libbtree/src/btree2020.cpp:864-894 | the map loses the key and the result says whether it was there; then the leaf goes into its right neighbour or stays (Tidied) |
| Splits.TidiedIs | libbtree/src/btree2020.cpp:878-884 | the leaf is gone exactly when its parent has an entry for the right neighbour, a quarter of both pages is free, and the two fit one page with the fence between them counted twice |
| BTrees.BTree.RangeLookupImpl | libbtree/src/btree2020.cpp:993-1016 | reports exactly the entries with keys from the start key on, ascending, each once; if the callback stops it, exactly those up to the last one reported |
| BTrees.BTree.RangeLookupDescImpl | libbtree/src/btree2020.cpp:1157-1205 | reports exactly the entries with keys up to the start key, descending, each once; if the callback stops it, exactly those down to the last one reported |
| Scans.AscendsUnique | libbtree/src/btree2020.cpp:966-985 | a list that reports a map ascending from a start key is the only one |
| TreeScans.HopEnds | libbtree/src/btree2020.cpp:1014-1021 | one hop of an ascending scan: what has been reported stays exactly the entries up to the leaf's upper fence, in order |
| TreeScans.HopPasses | libbtree/src/btree2020.cpp:1014-1021 | searching for the upper fence followed by a zero byte leads past the leaf, so the hops end |
| TreeScans.HopEndsDown | libbtree/src/btree2020.cpp:1172-1179 | one hop of a descending scan: what has been reported stays exactly the entries above the leaf's lower fence |
| TreeScans.HopPassesDown | libbtree/src/btree2020.cpp:1172-1179 | searching for the lower fence leads below the leaf, so the hops end |
| Trees.Located | libbtree/src/btree2020.cpp:494-519 | the descent for a key reaches every page whose fences cover it: pages of one level never overlap |
| TreeSteps.SplitOk | libbtree/src/btree2020.cpp:446-492 | splitting a page keeps every invariant that ties parents to children: child fences are the neighbouring separators, levels, page space |
| TreeSteps.SplitAnswers | libbtree/src/btree2020.cpp:446-492 | splitting a page changes the answer for no key |
| TreeSteps.MergeOk | libbtree/src/btree2020.cpp:259-280 | merging two neighbouring leaves and dropping the parent's slot keeps the invariants |
| TreeSteps.MergeAnswers | libbtree/src/btree2020.cpp:259-280 | merging changes the answer for no key |
| Potentials.LeafSplitLowers | libbtree/src/btree2020.cpp:800-842 | a leaf split lowers the measure of every key the leaf covered, whichever half it goes to |
| Potentials.InnerSplitLowers | libbtree/src/btree2020.cpp:781-790 | so does a split of an inner page on the key's path |
| Splits.BlockedIsStuck | libbtree/src/btree2020.cpp:446-458 | a blocked page has a page on the key's path that is full and cannot be split itself |
| SmallEntries.SmallNeverRefuses | libbtree/src/btree2020.cpp:592-619 | with entries small against the page an insert is refused only when at most one address is free |
| Refusals.DuplicateSeparator | libbtree/src/btree2020.cpp:446-467 | a tree of two longest entries, as inserting them and a third builds it, that refuses the third: its leaf's separator is in the parent already |
| Refusals.LeftHalfTooLong | libbtree/src/btree2020.cpp:446-458 | a tree of four longest entries inserted in ascending order that refuses the next: the left half with the separator as its fence would not fit |
| Refusals.RefusedLater | libbtree/src/btree2020.cpp:800-842 | a tree that does not refuse an entry at once but will after one split |
| Pages.BTreeNode.LowerBound | libbtree/src/btree2020.cpp:142-186 | position and found flag are those of the plain lower bound on full keys, whatever heads and hints decide on the way |
| Pages.BTreeNode.SearchHint | libbtree/src/btree2020.cpp:122-140 | the window the hints leave contains the answer |
| Pages.BTreeNode.UpdateHint | libbtree/src/btree2020.cpp:112-120 | from the hints of the page without one slot, the partial update makes the hints makeHint would make |
| Heads.HeadDecides | libbtree/include/btree2020.hpp:70-84 | different heads order two keys as the keys themselves are ordered |
| Heads.HeadMonotone | libbtree/include/btree2020.hpp:70-84 | a smaller key never has a larger head |
| Heads.HeadIs | libbtree/include/btree2020.hpp:70-84 | heads are equal exactly when the first four bytes are, shorter keys filled up with zeros |
| Bytes.Memcmp | libbtree/src/btree2020.cpp:147-185 | the sign of memcmp over the shorter length, with the lengths, decides the order of byte strings |
| Pages.BTreeNode.Insert | libbtree/src/btree2020.cpp:199-223 | stores the entry in its place, or reports that there is no room or the key is there; which of these is exact in the page's free space |
| Pages.BTreeNode.RequestSpaceFor | libbtree/src/btree2020.cpp:58-67 | true exactly when the space is there after compaction, and then it is there now |
| Pages.BTreeNode.Compactify | libbtree/src/btree2020.cpp:244-257 | same entries in the same order, and exactly the predicted space is free in one piece |
| Pages.BTreeNode.SpaceIsExact | libbtree/src/btree2020.cpp:49-56 | spaceUsed is the length of fences, stored keys and payloads; both free-space functions are what they claim |
| Pages.BTreeNode.SetFences | libbtree/src/btree2020.cpp:367-374 | the layout of an empty page with the two fences |
| Pages.BTreeNode.StoreBytes | libbtree/src/btree2020.cpp:301-320 | writes one slot and its bytes below everything stored before |
| Pages.BTreeNode.CopyKeyValueRange | libbtree/src/btree2020.cpp:322-355 | appends the range of entries to the other page, stored without that page's prefix |
| Pages.BTreeNode.Remove | libbtree/src/btree2020.cpp:234-242 | removes the key's entry, if there is one, and nothing else |
| Pages.BTreeNode.RemoveSlot | libbtree/src/btree2020.cpp:225-232 | removes exactly that entry |
| Pages.BTreeNode.MergeNodes | libbtree/src/btree2020.cpp:259-280 | merges exactly when the bound it computes fits the page, and then the right page holds both pages' entries |
| Pages.BTreeNode.FindSeparator | libbtree/src/btree2020.cpp:556-619 | the separator Picked, which the page determines: Separators.PickedMeans says which, Separators.NoneShorter that none is shorter |
| Pages.BTreeNode.SplitNode | libbtree/src/btree2020.cpp:446-492 | left half, right half and the parent with the separator hold what a split says; false if the parent has the separator already |
| Pages.BTreeNode.RangeLookup | libbtree/src/btree2020.cpp:940-956 | the callback sees the entries from the start slot on, with full keys in the buffer although only the stored bytes are copied |
| Pages.BTreeNode.RangeLookupDesc | libbtree/src/btree2020.cpp:1092-1110 | the callback sees the entries from the top slot down, with full keys in the buffer |
| Images.StoredIntoOk | libbtree/src/btree2020.cpp:301-320 | storing keeps the layout: slots before the data, live ranges in bounds and pairwise disjoint, spaceUsed exact |
| Images.RemovedOk | libbtree/src/btree2020.cpp:225-232 | so does removing |
| Separators.RightHalfFits | libbtree/src/btree2020.cpp:446-492 | the right half of any split with a separator no longer than the slot's key fits its page |
| Separators.InnerLeftHalfFits | libbtree/src/btree2020.cpp:446-492 | the left half of an inner split fits |
| Separators.LeafLeftHalfFits | libbtree/src/btree2020.cpp:446-492 | the left half of a leaf split fits when what leaves to the right takes as many bytes as the separator has beyond the prefix |
| Separators.TruncatedLeftHalfFits | libbtree/src/btree2020.cpp:592-619 | in particular when the separator is cut from the first key on the right |
| Separators.ChosenSplits | libbtree/src/btree2020.cpp:592-619 | key[slot] <= separator < key[slot + 1], and the separator is no longer than the key at the slot |
| Separators.ShortestIs | libbtree/src/btree2020.cpp:592-619 | no byte string between the window's ends is shorter than one that goes at most one byte past what they share |
| Separators.PickedUnique | libbtree/src/btree2020.cpp:592-619 | the page determines the separator |
| Separators.PickedMeans | libbtree/src/btree2020.cpp:572-616 | an inner page is cut in the middle by a whole key; in a leaf the separator is from the window of a sixteenth, parts the two sides, is part of the first key there that differs that early from the window's first, and is truncated exactly when that key is longer |
| Separators.NoneShorter | libbtree/src/btree2020.cpp:592-619 | no byte string between the window's ends is shorter than the separator found |
| HashProbes.FindIndexSimd | libbtree/src/hash.cpp:96-133 | for every hash offset and count the block-wise probe returns the first slot whose hash and key match, or -1 |
| HashProbes.FindIndexNoSimd | libbtree/src/hash.cpp:71-84 | the linear scan returns the same |
| HashProbes.FirstMatchUnique | libbtree/src/hash.cpp:62-69 | there is one such answer, so both scans agree |
| HashNodes.HashNode.Lookup | libbtree/src/hash.cpp:32-41 | the payload of the key's entry, or none |
| HashNodes.HashNode.Insert | libbtree/src/hash.cpp:250-271 | stores the entry exactly when there is a free hash cell and room as the page is, or room for a larger hash array besides, or the entries with the new one fit a page with the estimated hash array and that gains more than three cells for every 128 entries; otherwise nothing changes |
| HashNodes.HashNode.RequestSlotAndSpace | libbtree/src/hash.cpp:209-235 | true exactly under that condition, by sizes; then a hash cell and the bytes are there |
| HashNodes.HashNode.EstimateCapacity | libbtree/src/hash.cpp:22-30 | the capacity the source computes from the page's own space and count |
| HashNodes.CapacityIs | libbtree/src/btree2020.cpp:422-435 | the guard of the conversion implies that the computed capacity is at least the count and that slots, hash array, entries and fences fit |
| HashNodes.CapacityLargest | libbtree/src/hash.cpp:22-30 | the estimate is the largest count of cells in proportion to the space, an empty page has one for every 64 bytes |
| HashImages.CapacityBounds | libbtree/src/hash.cpp:22-30 | the nonlinear bound behind it |
| HashNodes.HashNode.Compactify | libbtree/src/hash.cpp:237-248 | same entries, the new hash capacity, and the free space in one piece |
| HashNodes.HashNode.MoveHashes | libbtree/src/hash.cpp:216-228 | moving the hash array keeps entries and hashes |
| HashNodes.HashNode.Remove | libbtree/src/hash.cpp:534-554 | removes the key's entry and its hash, if there is one |
| HashNodes.HashNode.Sort | libbtree/src/hash.cpp:286-332 | all slots strictly sorted, the same entries, each with its hash |
| HashNodes.HashNode.LowerBound | libbtree/src/hash.cpp:618-644 | position and found flag of the plain lower bound on a sorted page |
| HashNodes.HashNode.MergeNodes | libbtree/src/hash.cpp:557-616 | merges exactly when both pages' entries fit one page with a hash array of the smaller estimate, a cell for each entry at least, and the fence between them counted twice; all entries stay |
| HashNodes.HashNode.FindSeparator | libbtree/src/hash.cpp:351-378 | a separator that parts the two sides: one byte more than the keys next to the cut share if both are longer, otherwise the whole lower key; up to sixteen entries are cut in the middle, more as CutAfterOther says |
| HashNodes.CutAfterOtherIs | libbtree/src/hash.cpp:355-370 | the cut is at the first slot of the sixteenth before the middle that shares another number of bytes with the first key, if the last of that sixteenth does, otherwise where it begins |
| HashNodes.HashNode.SplitNode | libbtree/src/hash.cpp:435-487 | both halves hold their parts, with the separator as common fence; copying to the left half runs into its slots exactly when the left half with the separator as its upper fence does not fit a page with the estimated hash array |
| HashNodes.TruncatedLeftFits | libbtree/src/hash.cpp:372-377 | a truncated separator always leaves the left half room |
| HashNodes.LongEnoughRightFits | libbtree/src/hash.cpp:435-487 | so does any separator that is no longer, behind the prefix, than what the entries to its right take |
| Refusals.HashLeftTooLong | libbtree/src/hash.cpp:372-377 | a page within all limits whose separator is a whole key and whose left half does not fit |
| HashNodes.HashNode.TryConvertToBasic | libbtree/src/hash.cpp:404-419 | converts when the plain page has room, into a plain page with exactly the same entries, sorted |
| HashNodes.HashNode.TryConvertToHash | libbtree/src/btree2020.cpp:422-444 | converts when the guard holds, into a hash page with exactly the plain page's entries |
| PackedKeys.NeedleOrder | libbtree/include/head.hpp:26-38 | for a separator shorter than the width and a key of any length, the needle is at most the packed separator exactly when the key is at most the separator |
| PackedKeys.SepOrder | libbtree/include/head.hpp:11-23 | packed separators are ordered as the separators |
| PackedKeys.UnpackPack | libbtree/include/head.hpp:92-118 | a packed separator gives its bytes back |
| PackedKeys.StripIs | libbtree/include/head.hpp:64-83 | shifting and shortening a packed separator packs it without its first bytes |
| PackedKeys.WidthChanges | libbtree/include/head.hpp:140-184 | four to eight to four bytes is the identity |
| HeadNodes.RoutesAlike | libbtree/include/head.hpp:372-387 | searching for the needle among packed separators finds the child the full key belongs to |
| HeadNodes.HeadNode.LowerBound | libbtree/include/head.hpp:315-341 | the first packed separator not below the needle; found is never reported |
| HeadNodes.HeadNode.LookupInner | libbtree/include/head.hpp:372-376 | the child the lower bound on full keys leads to |
| HeadNodes.HeadNode.UpdateHint | libbtree/include/head.hpp:447-456 | the partial update makes the hints makeHint would make |
| HeadNodes.HeadNode.SearchHint | libbtree/include/head.hpp:468-486 | the window the hints leave contains the answer |
| HeadNodes.HeadNode.InsertChild | libbtree/include/head.hpp:121-137 | separator and child go in their place, the others stay |
| HeadNodes.HeadNode.RemoveSlot | libbtree/include/head.hpp:429-436 | exactly that separator and child go |
| HeadNodes.HeadNode.Split | libbtree/include/head.hpp:41-61 | both halves hold their separators, stripped of the longer prefixes, and their children |
| HeadNodes.HalvesInOrder | libbtree/include/head.hpp:64-83 | the prefixes of the halves of a split extend the page's, so the prefix-shrinking branch is not reached |
| HeadNodes.HeadNode.ConvertToHead8 | libbtree/include/head.hpp:140-160 | every separator and child stays, in the wide form, if they fit |
| HeadNodes.HeadNode.ConvertToHead4 | libbtree/include/head.hpp:163-184 | every separator and child stays, in the narrow form, if all are short |
| HeadNodes.HeadNode.ConvertToBasic | libbtree/include/head.hpp:187-207 | every separator and child stays, in a plain page with room for the next separator |
| HeadNodes.HeadNode.FromBasic | libbtree/include/head.hpp:221-234 | every separator and child of the plain page in packed form |
| HeadNodes.HeadNode.RequestFromBasic | libbtree/include/head.hpp:237-259 | packs a plain page exactly when all separators and the next one are shorter than eight bytes beyond the prefix, in four bytes exactly when all are shorter than four; there is room for the next one then |
| HeadNodes.PackingHolds | libbtree/include/head.hpp:221-224 | the capacity the source assumes follows from the plain page's space where a packed page's header and slots are no longer than a plain one's |
| HeadNodes.AtLeastThree | libbtree/include/head.hpp:288-301 | with fences within the limit a wide page has room for three separators |
| HeadNodes.CapacityFits | libbtree/include/head.hpp:288-301 | keys, children and fences of the computed capacity do not overlap, and one key more would |
| HeadNodes.HeadNode.RequestSpaceFor | libbtree/include/head.hpp:344-360 | true exactly when the separator fits as the page is, or widened, or when all separators are short enough to narrow a wide page, or, if it is too long for the width, in a plain page; which form results; the contents stay |
| HeadNodes.NarrowingGains | libbtree/include/head.hpp:163-184 | with a capacity of three a full wide page of short separators gains room by narrowing |
| DenseCells.ComputeSlotCount | libbtree/src/dense.cpp:582-593 | terminates with the largest slot count whose bitmap words and value cells end before the fences |
| DenseCells.MostIs | libbtree/src/dense.cpp:582-593 | that count by bytes: a bitmap word for every 64 slots and the values end before the fences, with one slot more they do not |
| DenseKeys.GetNumericPartIs | libbtree/src/dense.cpp:536-562 | the shifts and loads give the number of the last four bytes of the key, filled up with zeros |
| DenseKeys.LeastGreaterKeyIs | libbtree/src/dense.cpp:564-570 | for every key of the full length with the same numeric prefix: it is above the given key if and only if its number is at least the 32-bit result, exactly when the sum does not wrap |
| DenseKeys.OverflowIs | libbtree/src/dense.cpp:564-570 | the sum wraps, and the assertion fails, exactly when the number of the key's last bytes is the largest of 32 bits; the result is then 0 |
| DenseKeys.FirstIndexIs | libbtree/src/dense.cpp:650 | the 32-bit first index is the difference of the numbers, except for a start key longer than the array's keys with the largest number on an array that starts at 0: then it is 0 |
| DenseKeys.KeyToIndexIs | libbtree/src/dense.cpp:257-275 | which index or which error a key gets |
| DenseKeys.IndexOfRestored | libbtree/src/dense.cpp:47-53 | for every index: the restored key is above the lower fence and keyToIndex leads back to the index exactly when the number fits the key's last bytes; otherwise the key is that of the number modulo what they can hold, at or below the fence or with a lower index |
| DenseKeys.RestoredOfIndex | libbtree/src/dense.cpp:257-275 | restoreKey of keyToIndex of a key in range is that key |
| DenseCells.DenseAnswers | libbtree/src/dense.cpp:18-35 | looking up a cell answers like looking up the sorted entries |
| DenseNodes.DenseNode.Lookup | libbtree/src/dense.cpp:18-35 | the value of the key's cell, or none |
| DenseNodes.DenseNode.Insert | libbtree/src/dense.cpp:113-142 | stores the value and changes no other answer; or, for an entry of another length, refuses exactly when a plain page with these keys, each with a payload as long as the new one, would not fit; or converts, which overflows exactly when the plain page with the values does not fit |
| DenseNodes.OverflowExists | libbtree/src/dense.cpp:117-123 | a page of eight entries that fit a plain page without their payloads, but not with them |
| DenseNodes.DenseNode.Remove | libbtree/src/dense.cpp:595-605 | clears the key's cell and changes no other answer |
| DenseNodes.DenseNode.ConvertToBasic | libbtree/src/dense.cpp:173-183 | a plain page with exactly the entries, in order |
| DenseNodes.DenseNode.Densify | libbtree/src/dense.cpp:303-355 | succeeds exactly when the page is Densifiable to the largest number of slots, in 16 bits; the dense page has exactly the plain page's entries; a wrap of the array start is always refused |
| DenseNodes.DensifiableWhen | libbtree/src/dense.cpp:303-355 | all keys and all payloads have one length, the last key has the lower fence's numeric prefix and a number less than the slots above the first one behind the fence |
| DenseNodes.DenseNode.SplitNode1 | libbtree/src/dense.cpp:185-223 | for a key of any length: the boundary is the last slot's key; exactly when its number fits and it is not above the upper fence the parent gets it, the left page keeps all entries with it as upper fence, and the right page starts empty above it, dense again exactly if the key is just behind the array; for a key with an index the source leaves the right page undefined |
| DenseNodes.FullLengthSplits | libbtree/src/dense.cpp:185-223 | for a key of the full length without an index the boundary is proper exactly when it is in the numeric range or the array ends within 32 bits |
| DenseFaults.MisplacedHappens | libbtree/src/dense.cpp:196-209 | a page and a shorter key for which the boundary is above the upper fence |
| DenseNodes.DenseNode.RangeLookup1 | libbtree/src/dense.cpp:641-686 | the word-wise walk over set bits reports exactly the entries from the start key on, ascending, each once, and a stopped scan a prefix of them, but for four failures each with its exact condition: a missing key is read; the first word is behind the page; the first index is the slot count, a multiple of the word size, and the byte behind the bitmap is odd; the first index wraps to 0 |
| DenseFaults.BehindHappens | libbtree/src/dense.cpp:666-681 | a page of 64 slots and a start key for which the bit behind the bitmap is taken for a slot |
| DenseFaults.OffPageHappens | libbtree/src/dense.cpp:656-657 | a page and a start key for which a word behind the page is loaded |
| DenseFaults.WrapHappens | libbtree/src/dense.cpp:564-570 | a page and a start key above all its keys for which all entries are reported |
| DenseCells.ScanOwes | libbtree/src/dense.cpp:641-686 | the entries from the 32-bit first index on are those a scan from the start key owes, exactly when it does not wrap or there are none |
| RwLock.AlwaysExclusive | original_paper_benchmark/in-memory-structures/wormhole/lib.c:1325-1519 | over every interleaving of the plain, bounded-retry, high-priority-writer and write-to-read paths of any number of threads: the word is the writer bit plus the readers inside plus those in mid-attempt, and a writer inside excludes all others |
| RwLock.InsideAsCalled | original_paper_benchmark/in-memory-structures/wormhole/lib.c:1333-1518 | over every run: a thread is inside as a writer only by a write call, and as a reader only by a read call or, after a write call, by rwlock_write_to_read |
| RwLock.CallEnds | original_paper_benchmark/in-memory-structures/wormhole/lib.c:1333-1518 | how each call ends: a blocking one only inside, a try inside or outside, a read call as a reader, a write call as a writer |
| RwLock.EntersFree | original_paper_benchmark/in-memory-structures/wormhole/lib.c:1333-1449 | whatever the others do: a read call that never meets the writer bit, and a write call that always finds the word 0, is inside after a fixed number of its own steps, not before |
| RwLock.GivesUp | original_paper_benchmark/in-memory-structures/wormhole/lib.c:1346-1488 | a try that meets the writer bit at every step gives up after exactly as many polls as its count says |
| RwLock.FailsAgainstWriter | original_paper_benchmark/in-memory-structures/wormhole/lib.c:1333-1431 | so every try fails against a writer that stays inside |
| RwLock.BitOverReaders | original_paper_benchmark/in-memory-structures/wormhole/lib.c:1452-1477 | a high-priority write call sets the writer bit over readers; it is inside at once exactly if there are none |
| RwLock.DrainStep | original_paper_benchmark/in-memory-structures/wormhole/lib.c:1452-1477 | and goes on to be inside at the first look that finds the bit alone |
| RwLock.LockGetsIn | original_paper_benchmark/in-memory-structures/wormhole/lib.c:1380-1502 | a blocking call whose way is free is inside after at most three of its steps, wherever it was |
| RwLock.DrainEnds | original_paper_benchmark/in-memory-structures/wormhole/lib.c:1451-1476 | a waiting high-priority writer sees exactly the writer bit if and only if nobody else counts on the lock |
| RwLock.FreeIsZero | original_paper_benchmark/in-memory-structures/wormhole/lib.c:1406-1418 | the word is zero if and only if every thread is outside with nothing outstanding |
| RwLock.Machine.Step | original_paper_benchmark/in-memory-structures/wormhole/lib.c:1325-1519 | one instruction of one thread on the shared word is one step of the state machine |
| Qsbr.GracePeriod | original_paper_benchmark/in-memory-structures/wormhole/lib.c:2973-3014 | when qsbr_wait returns, for each slot of its snapshot, and each marked when it was called, there was an instant during the wait at which nobody was registered there unparked who had not last reported the target |
| Qsbr.ActiveReachesTarget | original_paper_benchmark/in-memory-structures/wormhole/lib.c:2973-3014 | so a reader active throughout had last reported the target at some instant of the wait |
| Qsbr.StateIsReport | original_paper_benchmark/in-memory-structures/wormhole/lib.c:2881-2948 | in every run a reader's state is the value it reported last: 0 when it registers, then the argument of each update |
| Qsbr.LookLoads | original_paper_benchmark/in-memory-structures/wormhole/lib.c:2990-3003 | turning to a slot drops it exactly if it was unmarked on entry, and otherwise loads the pointer of the reader registered there |
| Qsbr.LookDecides | original_paper_benchmark/in-memory-structures/wormhole/lib.c:2999-3002 | the slot is dropped exactly when that reader reported the target last, or is parked |
| Qsbr.WaitReturns | original_paper_benchmark/in-memory-structures/wormhole/lib.c:2974-3014 | once every registered reader has reported the target or is parked, and nobody is registering, the waiter returns by steps of its own |
| Qsbr.RegisterAlone | original_paper_benchmark/in-memory-structures/wormhole/lib.c:2887-2915 | a call nobody interferes with takes the lowest clear bit of the reader's shard and stores its ref there; it fails exactly when all are set |
| Qsbr.UnregisterAlone | original_paper_benchmark/in-memory-structures/wormhole/lib.c:2918-2939 | clears the mark and leaves the target's address in the cell |
| Qsbr.NoUseAfterUnregister | original_paper_benchmark/in-memory-structures/wormhole/lib.c:2917-2939 | the ref the waiter is about to read is registered or still inside unregister |
| Qsbr.EmptyCellIff | original_paper_benchmark/in-memory-structures/wormhole/lib.c:2886-2915 | over every run, step n makes the waiter hold an empty pointer if and only if it is the load of a slot whose first registrant is between its compare-exchange and its store |
| Qsbr.SnapshotDecides | original_paper_benchmark/in-memory-structures/wormhole/lib.c:2980-2996 | some continuation of a wait has the waiter read through an empty pointer if and only if, when the snapshot is complete, it contains a slot whose first register call is in progress |
| Qsbr.EmptyCellHappens | original_paper_benchmark/in-memory-structures/wormhole/lib.c:2886-2915 | a run in which that happens |
| Slabs.CheckSizes | original_paper_benchmark/in-memory-structures/wormhole/lib.c:2429-2442 | accepts exactly the sizes for which at least one object fits behind the block's own word |
| Slabs.GeometryOk | original_paper_benchmark/in-memory-structures/wormhole/lib.c:2445-2454 | as many objects as fit a block, and no more |
| Slabs.Separate | original_paper_benchmark/in-memory-structures/wormhole/lib.c:2384-2405 | different objects never overlap, in whichever blocks, and none touches a block's own word |
| Slabs.OneOrOther | original_paper_benchmark/in-memory-structures/wormhole/lib.c:2482-2493 | an address is an object of an active block exactly if it is free or allocated, never both, and free once at most |
| Slabs.Slab.Alloc | original_paper_benchmark/in-memory-structures/wormhole/lib.c:2482-2493 | returns an object that was not allocated, the first free one if any is; null exactly when nothing is free and no block is left |
| Slabs.Slab.Free | original_paper_benchmark/in-memory-structures/wormhole/lib.c:2515-2520 | an allocated object becomes free, on top of the stack |
| Slabs.Slab.Expand | original_paper_benchmark/in-memory-structures/wormhole/lib.c:2409-2425 | takes the first waiting block, and one of the system's only when none waits; all its objects become free |
| Slabs.Slab.Reserve | original_paper_benchmark/in-memory-structures/wormhole/lib.c:2473-2479 | true exactly when that many objects are ready |
| Slabs.Slab.FreeAll | original_paper_benchmark/in-memory-structures/wormhole/lib.c:2530-2544 | nothing is allocated, and all active blocks wait in front of the waiting ones |
| Slabs.Slab.GetNalloc | original_paper_benchmark/in-memory-structures/wormhole/lib.c:2548-2564 | counting blocks and free objects gives exactly the number of allocated objects |
| Slabs.Slab.ClientWrites | original_paper_benchmark/in-memory-structures/wormhole/lib.c:2256-2256 | a client may write anywhere in its objects: no chain of the allocator changes |
| RadixRuns.Run | original_paper_benchmark/in-memory-structures/ART/ART.cpp:333-354 | over any run of inserts of absent keys, erases and lookups of keys none of which is a prefix of another, every lookup finds exactly what the operations before it have left |
| ArtTrees.ArtTree.LookupPessimistic | original_paper_benchmark/in-memory-structures/ART/ART.cpp:333-354 | the leaf of the key's tuple exactly if the key is stored, null otherwise |
| ArtTrees.ArtTree.PrefixMismatch | original_paper_benchmark/in-memory-structures/ART/ART.cpp:273-292 | the number of bytes of the whole compressed path the key matches, although a node stores nine |
| ArtTrees.ArtTree.Insert | original_paper_benchmark/in-memory-structures/ART/ART.cpp:375-444 | the contents gain the key with its tuple, through leaf splits, broken paths and growing nodes |
| ArtTrees.ArtTree.Erase | original_paper_benchmark/in-memory-structures/ART/ART.cpp:548-588 | the contents lose the key, if it was there, through shrinking nodes and joined paths |
| RadixTree.BrokenOk | original_paper_benchmark/in-memory-structures/ART/ART.cpp:402-426 | breaking a compressed path keeps the tree in order and adds just the new key |
| RadixTree.EraseChildOk | original_paper_benchmark/in-memory-structures/ART/ART.cpp:592-622 | dropping a leaf, with the shrinking or the joined path it causes, removes just its key |
| RadixTree.JoinedIs | original_paper_benchmark/in-memory-structures/ART/ART.cpp:603-617 | the first nine bytes of two joined paths come out of the nine bytes each node stores |
| RadixStores.RepFrame | original_paper_benchmark/in-memory-structures/ART/ART.cpp:375-444 | changes elsewhere in the store leave what a subtree stands for untouched |
| RadixNodes.Node.FindChild | original_paper_benchmark/in-memory-structures/ART/ART.cpp:153-186 | in each of the four layouts, the byte's child or null |
| RadixNodes.Node.FirstChild | original_paper_benchmark/in-memory-structures/ART/ART.cpp:188-222 | in each layout, the child with the least byte |
| RadixNodes.Node.Insert | original_paper_benchmark/in-memory-structures/ART/ART.cpp:454-540 | in each layout, the map of children gains the byte; a full node becomes the next kind with the same children and path |
| RadixNodes.Node.Erase | original_paper_benchmark/in-memory-structures/ART/ART.cpp:592-688 | in each layout, the map of children loses the byte; at three, twelve and thirty-seven children the node becomes the kind before |
| RadixNodes.Node.ConcatenatePrefix | original_paper_benchmark/in-memory-structures/ART/ART.cpp:603-617 | the stored bytes and the length of the joined path |
| PartialSort.Sort | original_paper_benchmark/in-memory-structures/wormhole/kv.c:456-461 | the pointers are permuted, positions in the target range are in order with everything, and hold the keys any full sort puts there |
| PartialSort.Partition | original_paper_benchmark/in-memory-structures/wormhole/kv.c:421-439 | a permutation with everything before the pivot at most it, everything behind at least |
| PartialSort.SortRange | original_paper_benchmark/in-memory-structures/wormhole/kv.c:442-453 | recursing only towards the target range settles it |
| PartialSort.SettledIsSorted | original_paper_benchmark/in-memory-structures/wormhole/kv.c:456-461 | an arrangement settled at a position has there the key of every full sort |
| PartialSort.Compare | original_paper_benchmark/in-memory-structures/wormhole/kv.c:343-347 | the comparison decides the order of the keys |

## Left out

- The tree over hash, dense and head pages: each layout is proved against the abstract page, the dispatch of the tree over them is not modelled; random adaptation counters and conversions chosen by them are not either.
- HeadNodes.HeadNode.FromBasic: `count <= keyCapacity` is the source's own assumption (`libbtree/include/head.hpp:224`); HeadNodes.PackingHolds derives it where header and slots allow.
- HeadNodes.HeadNode.RequestFromBasic: `count < keyCapacity` is the source's own assumption (`libbtree/include/head.hpp:253-256`); HeadNodes.PackingHolds derives it where header and slots save one separator's bytes.
- DenseNodes.DenseNode.RangeLookup1: what happens after one of its failures; the callback's report of the bytes behind the last cell is not modelled.
- DenseNodes.DenseNode.SplitNode1: pages with slots and fences within the limit; what a boundary that is no separator does to the parent is not modelled.
- BTrees.BTree.RangeLookupImpl: the buffer is longer than any key the tree accepts, as the source's comment asks.
- Slabs.Slab.Alloc: the thread-safe variants and the 16-bit sequence number of the lock-free stack are not modelled.
- Qsbr.GracePeriod: one waiter at a time, sequential consistency.
- RwLock.AlwaysExclusive: fewer threads than the reader part of the word can count, sequential consistency.
- RadixRuns.Run: keys none of which is a prefix of another, as the source needs them; otherwise it reads past a key's end.
- ArtTrees.ArtTree.Insert: allocation of nodes does not fail.
- PartialSort.Sort: the target range lies within the array, as the source's assertions say.
- Replacing the value of an existing key: insert asks for an absent key and callers remove first.
- The inner branch of mergeNodes, which removal never takes, and the aborting branch of HeadNode::copyKeyValueRange.
- Hash page range scans and splitting a hash page with adaptation.
- Dense variant 2, the dense descending scan and densifySplit.
- The radix tree's optimistic lookup, scan and maximum.
- Prefixes switched off, page memory as one byte block (slots, heap and hints are separate fields), weak memory orders.
- Redis server and client, benchmark drivers, workload generators, performance counters, printing.
