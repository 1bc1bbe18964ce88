# Artifactory repository size view, modelled in Dafny

The program scans an Artifactory repository folder by folder. It sums file sizes and
latest-update instants into a tree of aggregate nodes (`SizeAndLatestDate`), and shows
sizes in human units (`DataVolume`). This project models three parts of it as immutable
values and pure functions.

- **The aggregate node** (`aggregate.dfy`, `paths.dfy`, `sorting.dfy`):
  - A node holds a path segment, a byte total, an optional latest instant and its children.
  - The parent pointer and the repository are a separate `Chain`. Full path, repository id
    and identity are computed over that chain.
  - The module covers `merge` (both overloads), the filtered deep `copy`, the bottom-up
    `fixSizes`, and the recursive case-insensitive `sortChildren`.
  - The two constructors are the `Node` datatype with its `Place`. `Fresh` is the node the
    scanner creates with nothing merged yet. `isLeaf` is `IsLeaf`.
- **The repository scan** (`scanner.dfy`, `scanner_proofs.dfy`):
  - The scan is modelled sequentially. The remote repository is an input tree of listings,
    and the interrupt supplier is a function from poll number to answer.
  - A task submitted to the pool runs at the moment it is submitted. The pending-counter
    wait means the method does not return before every submitted task has finished, so
    for one node the sequential order gives the same result.
  - The scan counts interrupt polls, progress ticks, `getChildren` calls and submitted
    tasks.
  - Outcomes are completion, `InterruptedException`, or another exception, which is a
    failed listing or a `NullPointerException` from merging.
  - The proofs compare the scan against independent reference totals.
- **Data volumes** (`datavolume.dfy`):
  - Non-negative exact reals in B, KB, MB, GB or TB, with factors that are powers of 1024.
  - Also modelled: conversion, byte size, the display-unit choice and the ordering.
  - Dividing by a power of two always terminates in `BigDecimal`, so real division is
    exact here.

Instants are integers, and `isAfter` is `>`. Sizes are unbounded integers.

## Model

| member | source | states |
|---|---|---|
| Paths.GetRepoId | src/main/java/SizeAndLatestDate.java:94-96 | a node's repository id is the one stored at the root end of its parent chain |
| Paths.GetPath | src/main/java/SizeAndLatestDate.java:98-104 | a node's full path is the concatenation of the path segments from the root down |
| Paths.Equals | src/main/java/SizeAndLatestDate.java:77-86 | two nodes are equal exactly when their roots' repository ids and their concatenated segment lists agree |
| Paths.CompareIgnoreCase | src/main/java/SizeAndLatestDate.java:129 | the comparison of full paths is zero exactly when the case-folded strings are equal |
| Paths.CompareIgnoreCaseAntisymmetric | src/main/java/SizeAndLatestDate.java:129 | swapping the two paths negates the comparison |
| Paths.CompareIgnoreCaseTransitive | src/main/java/SizeAndLatestDate.java:129 | "at most" under the case-insensitive comparison is transitive, so the sort order is a total preorder |
| Aggregate.Merge | src/main/java/SizeAndLatestDate.java:106-113 | the size grows by exactly the merged size; the date becomes the later of the two, an unset date counting as earliest; a dated node merging an absent date throws, after the size was added and with the date unchanged |
| Aggregate.MergeNode | src/main/java/SizeAndLatestDate.java:115-118 | merging a node adds its size and takes the later date; it throws exactly when the receiver is dated and the other node is not |
| Aggregate.MergesCommute | src/main/java/SizeAndLatestDate.java:106-113 | two merges with present dates never throw, commute, and equal one merge of the summed size and the later date |
| Aggregate.MergeUndatedIntoDatedThrows | src/main/java/SizeAndLatestDate.java:108-118 | merging an undated node into a dated one throws and leaves the receiver with the added size |
| Aggregate.MergeNullSafe | src/main/java/SizeAndLatestDate.java:106-113 | the corrected merge agrees with the original wherever that one does not throw, and otherwise keeps the receiver's date |
| Aggregate.MergeNullSafeCommutes | src/main/java/SizeAndLatestDate.java:106-113 | the corrected merge commutes for every pair of optional dates, and merging an empty folder's node (no bytes, no date) changes nothing |
| Aggregate.AcceptedIsFilter | src/main/java/SizeAndLatestDate.java:58 | the children kept by the stream filter are exactly the children the filter accepts |
| Aggregate.CopyChildrenStep | src/main/java/SizeAndLatestDate.java:58 | an accepted child adds its copy to the copy's child list twice, and a rejected child adds nothing, with none of its subtree |
| Aggregate.CopyBody | src/main/java/SizeAndLatestDate.java:44-50 | a copy keeps the segment, the size and the latest date |
| Aggregate.CopyChildren | src/main/java/SizeAndLatestDate.java:52-60 | a copy's child list has twice as many entries as there are accepted children |
| Aggregate.CopyChildrenTwice | src/main/java/SizeAndLatestDate.java:52-60 | the j-th accepted child's copy sits at positions 2j and 2j+1 of the copy's children: once from the child constructor's add, once from the explicit forEach add |
| Aggregate.Copy | src/main/java/SizeAndLatestDate.java:44-60 | null exactly when the filter rejects the node; a copy has the original's size, date and copied children; a root copy takes the full path as its own path; a child copy's chain names the new parent, and the copy is equal to the original when the parents are equal; a non-root copied without a parent throws |
| Aggregate.CopyAllIsDoubled | src/main/java/SizeAndLatestDate.java:52-60 | copying with a filter that accepts everything does not reproduce the tree: every child list comes back with each entry doubled |
| Aggregate.CopyAllChildrenDoubled | src/main/java/SizeAndLatestDate.java:52-60 | the same, for a list of children |
| Aggregate.CopyOnceBody | src/main/java/SizeAndLatestDate.java:44-60 | the corrected copy keeps the segment, size and date |
| Aggregate.CopyOnceChildren | src/main/java/SizeAndLatestDate.java:52-60 | the corrected copy has one entry per accepted child |
| Aggregate.CopyOnceAllIsIdentity | src/main/java/SizeAndLatestDate.java:52-60 | the corrected copy with a filter that accepts everything reproduces the tree exactly |
| Aggregate.CopyOnceAllChildrenIdentity | src/main/java/SizeAndLatestDate.java:52-60 | the same, for a list of children |
| Aggregate.FixSizes | src/main/java/SizeAndLatestDate.java:62-75 | every leaf at every depth keeps its size (the pre-order list of leaf sizes is unchanged); segments, dates and shape are unchanged; afterwards every interior size is the sum of its children's, and the root holds the sum of the leaf sizes |
| Aggregate.FixEach | src/main/java/SizeAndLatestDate.java:66 | repairing each child keeps the list's shape, dates and leaf sizes; each child's size becomes its own leaf total, and the children's sizes then sum to the list's leaf total |
| Aggregate.FixSizesKeepsConsistent | src/main/java/SizeAndLatestDate.java:62-75 | a tree whose sizes are already consistent is left unchanged |
| Aggregate.FixEachKeepsConsistent | src/main/java/SizeAndLatestDate.java:62-75 | the same, for a list of children |
| Aggregate.FixSizesIdempotent | src/main/java/SizeAndLatestDate.java:62-75 | repairing twice equals repairing once |
| Aggregate.LeafIffSizeKept | src/main/java/SizeAndLatestDate.java:36-38 | a node is a leaf exactly when fixSizes keeps whatever size it holds; an interior node's repaired size does not depend on its own |
| Aggregate.CopyThenFixDoublesSizes | src/main/java/SizeAndLatestDate.java:52-75 | a root whose one child is a 10-byte leaf node (a folder with no sub-folder), copied with an accept-all filter and repaired, reports 20 bytes; the original and the corrected copy report 10 |
| Aggregate.PrunedCopyKeepsStaleSize | src/main/java/SizeAndLatestDate.java:44-75 | a 10-byte root whose only child, a 10-byte leaf node (a folder with no sub-folder), is rejected by the filter is copied with its 10 bytes and no children, so fixSizes takes it for a leaf and keeps 10; the corrected copy repairs to 0 |
| Aggregate.CopyPrunedBody | src/main/java/SizeAndLatestDate.java:44-60 | the corrected copy keeps the segment and date; a leaf node (a folder with no sub-folder) is copied unchanged, and a copied node with children starts at size 0 |
| Aggregate.CopyPrunedChildren | src/main/java/SizeAndLatestDate.java:52-60 | the corrected copy has one entry per accepted child |
| Aggregate.PrunedCopyFixesToRetainedLeaves | src/main/java/SizeAndLatestDate.java:44-75 | after the corrected copy, fixSizes gives the copy the total size of exactly the leaf nodes (folders with no sub-folder) the filter retains (a leaf node is retained when it and every node above it are accepted) |
| Aggregate.PrunedCopyLeafSum | src/main/java/SizeAndLatestDate.java:44-75 | the leaf total of the corrected copy is the total size of the retained leaf nodes |
| Aggregate.PrunedChildrenLeafSum | src/main/java/SizeAndLatestDate.java:52-75 | the same, for a list of children |
| Aggregate.RetainAllIsLeafSum | src/main/java/SizeAndLatestDate.java:52-75 | with a filter that accepts everything, the retained total is the original tree's leaf total, so the corrected copy repairs to that leaf total (which is the original's size only when the original's size equals its leaf total, see RetainAllKeepsLeafTotalSize) |
| Aggregate.RetainAllKeepsLeafTotalSize | src/main/java/SizeAndLatestDate.java:44-75 | for a tree whose size equals its leaf total, the corrected accept-all copy repairs to the original's size |
| Aggregate.RetainAllEachIsLeafSum | src/main/java/SizeAndLatestDate.java:52-75 | the same, for a list of children |
| Aggregate.RejectAllLeavesFixesToZero | src/main/java/SizeAndLatestDate.java:44-75 | a node with children, copied with a filter that rejects every leaf node (a folder with no sub-folder), repairs to size 0 under the corrected copy |
| Aggregate.NoLeafRetained | src/main/java/SizeAndLatestDate.java:52-60 | a filter that rejects every leaf retains no bytes below a folder |
| Aggregate.NoLeafRetainedEach | src/main/java/SizeAndLatestDate.java:52-60 | the same, for a list of children |
| Sorting.Insert | src/main/java/SizeAndLatestDate.java:129 | insertion adds exactly the one element to the list's multiset |
| Sorting.InsertPosition | src/main/java/SizeAndLatestDate.java:129 | the inserted element sits at one position of the result, and removing it gives back the list |
| Sorting.InsertSorted | src/main/java/SizeAndLatestDate.java:129 | inserting into a list in case-insensitive full-path order keeps it in order |
| Sorting.InsertStable | src/main/java/SizeAndLatestDate.java:129 | an inserted element goes before every element whose path folds to the same string, and those keep their order, so inserting from the back keeps the input order |
| Sorting.SortByPath | src/main/java/SizeAndLatestDate.java:129 | sorting a child list permutes it into non-decreasing case-insensitive full-path order |
| Sorting.SortByPathStable | src/main/java/SizeAndLatestDate.java:129 | the sort is stable: children whose paths fold to the same string keep their relative order |
| Sorting.SortByPathPermutes | src/main/java/SizeAndLatestDate.java:128-129 | sorting children that are each a reordered copy of an original child gives a reordering of the original list, matched element by element |
| Sorting.ReorderedKeepDeepSorted | src/main/java/SizeAndLatestDate.java:128-129 | reordering a child list whose subtrees are all sorted leaves only sorted subtrees |
| Sorting.SortEach | src/main/java/SizeAndLatestDate.java:128 | each child keeps its place, segment, size and date; its whole subtree is the original one with child lists reordered, and every child list in it, at every depth, is in case-insensitive full-path order |
| Sorting.SortChildren | src/main/java/SizeAndLatestDate.java:126-130 | the result is the original tree with only the order of child lists changed (every node at every depth keeps its segment, size and date, and its children are a reordering of the original ones); every child list at every depth is in case-insensitive full-path order; the top list is a permutation of the recursively sorted children |
| Sorting.SortChildrenStable | src/main/java/SizeAndLatestDate.java:126-130 | the sort of each child list is stable |
| Scanner.ScanFolder | src/main/java/ArtifactoryScanner.java:50-132 | a folder scan only adds to the counters, keeps the node's segment, and keeps the children it already had as a prefix |
| Scanner.ScanEntries | src/main/java/ArtifactoryScanner.java:62-131 | the loop over a listing only adds to the counters, keeps the segment, and never removes a child |
| Scanner.Dispatch | src/main/java/ArtifactoryScanner.java:75-103 | a submitted task with the flag already set does nothing; otherwise, unless it raises the flag, it attaches exactly one new child node |
| Scanner.ScanRepo | src/main/java/ArtifactoryScanner.java:45-48 | the public scan returns a tree for the given repository whose root has path "" |
| ScannerProofs.ScanFolderComplete | src/main/java/ArtifactoryScanner.java:50-131 | without interrupt, the scan of a folder completes when its listing is answered and no folder it scans inline throws, i.e. every folder it scans inline (a child of a folder at depth 5 or more) is answered, and is undated (holds no file) only while its parent is still undated (sufficient; exact where folders are scanned inline, see DeepScanFailsIff, while below a submitted folder an inline exception is absorbed); submitted sub-folders may fail or be empty; the node gains exactly the files' total and latest date and one child per sub-folder carrying its totals; there is one tick per answered folder and per file, one listing per folder reached, and one task per folder child of a folder shallower than depth 5 (a count ScanFolderDispatchCount gives for every input) |
| ScannerProofs.ScanEntriesComplete | src/main/java/ArtifactoryScanner.java:62-116 | without interrupt, the loop over a listing completes when no folder it scans inline throws, i.e. every folder it scans inline (a child of a folder at depth 5 or more) is answered, and is undated (holds no file) only while its parent is still undated; the node gains exactly the entries' file total and latest date and one expected child per sub-folder, with the same tick, poll, listing and task counts |
| ScannerProofs.FileEntryComplete | src/main/java/ArtifactoryScanner.java:110-115 | in such a loop, a file child ticks once and is merged into its enclosing folder's node exactly once, after which the node is dated |
| ScannerProofs.FolderEntryComplete | src/main/java/ArtifactoryScanner.java:65-108 | in such a loop, a folder child, whether submitted or scanned inline, is merged into its parent exactly once, and the parent is dated afterwards exactly when it was before or the child holds a file |
| ScannerProofs.FolderStepComplete | src/main/java/ArtifactoryScanner.java:72-108 | one folder child below a node shallower than depth 5 costs two polls and one task, and one scanned inline costs one poll; when an inline child is answered and, below a dated parent, holds a file, its totals are merged into the parent and its node is attached |
| ScannerProofs.FreshScanComplete | src/main/java/ArtifactoryScanner.java:50-131 | the scan of a freshly created (undated) node for an answered folder that meets no inline exception builds exactly the expected node for the folder |
| ScannerProofs.SubmittedStepComplete | src/main/java/ArtifactoryScanner.java:75-102 | without interrupt, a submitted task leaves the parent with the sub-folder's totals merged and its expected node attached, even when the sub-folder is empty or its listing fails, because submit swallows the exception |
| ScannerProofs.SubmittedUnreachable | src/main/java/ArtifactoryScanner.java:75-102 | a submitted sub-folder whose listing fails leaves only its fresh node attached and one more listing counted |
| ScannerProofs.SubmittedListed | src/main/java/ArtifactoryScanner.java:75-102 | a submitted sub-folder that is answered and whose own scan meets no inline exception is merged into the parent, an undated one changing only the child list |
| ScannerProofs.ScanRepoComplete | src/main/java/ArtifactoryScanner.java:45-132 | without interrupt, the public scan of an answered repository, when every folder it scans inline (a child of a folder at depth 5 or more) is answered, and is undated (holds no file) only while its parent is still undated, returns the root at path "" holding the whole repository's file total and latest date, with ticks = answered folders + files (the task count is exact for every input, see ScanRepoDispatchCount) |
| ScannerProofs.SubmittedFailuresContributeNothing | src/main/java/ArtifactoryScanner.java:75-102 | a root with a 10-byte file, an empty folder and an unreachable folder, both submitted, returns 10 bytes with both bare child nodes, after four polls, three ticks, three listings and two tasks |
| ScannerProofs.DeepScanFailsIff | src/main/java/ArtifactoryScanner.java:50-116 | without interrupt, a folder scan at depth 5 or more never ends interrupted, and it throws exactly when the listing fails or the inline-safety condition of the complete-scan lemmas fails |
| ScannerProofs.DeepEntriesFailIff | src/main/java/ArtifactoryScanner.java:62-116 | the same, for the loop over a listing at depth 5 or more |
| ScannerProofs.DeepFolderFailIff | src/main/java/ArtifactoryScanner.java:105-116 | the same, for a listing that starts with a folder child scanned inline: the loop throws when the child's scan throws, when the child is undated below a dated node, or when a later entry throws |
| ScannerProofs.InlineUnreachableFails | src/main/java/ArtifactoryScanner.java:105-108 | a folder scanned inline whose listing fails makes the loop throw at once, with the child's fresh node attached and no later entry merged or ticked |
| ScannerProofs.InlineUndatedFolderFails | src/main/java/ArtifactoryScanner.java:105-108 | a folder without files scanned inline below a dated node makes the loop throw the merge's NullPointerException, with the child's complete node attached, the node's size and date unchanged, and no later entry merged or ticked |
| ScannerProofs.ScanFolderInterruptIff | src/main/java/ArtifactoryScanner.java:62-130 | a folder scan throws InterruptedException exactly when one of its interrupt polls answered true |
| ScannerProofs.ScanEntriesInterruptIff | src/main/java/ArtifactoryScanner.java:62-130 | a node's loop ends interrupted exactly when the node's flag was already set or one of the polls made during the loop answered true |
| ScannerProofs.FolderDispatchedInterruptIff | src/main/java/ArtifactoryScanner.java:72-103 | the same, for a listing that starts with a submitted folder child |
| ScannerProofs.FolderInlineInterruptIff | src/main/java/ArtifactoryScanner.java:105-108 | the same, for a listing that starts with a folder child scanned inline: an inline interruption propagates |
| ScannerProofs.DispatchInterruptIff | src/main/java/ArtifactoryScanner.java:75-102 | a task sets the parent's flag exactly when its own poll or one inside its sub-scan answered true |
| ScannerProofs.ScanEntriesAfterInterrupt | src/main/java/ArtifactoryScanner.java:62-71 | once the interrupt is raised, the loop stops at the next folder child: no listing, task or child node follows, and the node throws exactly when a folder child was reached |
| ScannerProofs.ScanRepoInterruptedAtOnce | src/main/java/ArtifactoryScanner.java:45-71 | an interrupt raised from the first poll throws InterruptedException after the root listing alone, with no task submitted |
| ScannerProofs.FlagSkipsLaterTasks | src/main/java/ArtifactoryScanner.java:79-87 | with the node's flag set, every later task skips its scan, and the node throws InterruptedException |
| ScannerProofs.DeepScanSubmitsNothing | src/main/java/ArtifactoryScanner.java:72-108 | folders at depth 5 or deeper scan everything beneath them inline and submit no task |
| ScannerProofs.NoParallelFoldersDeep | src/main/java/ArtifactoryScanner.java:72-107 | below a listing at depth 5 or more no folder passes the depth test, so the reference task count is 0 |
| ScannerProofs.NoParallelFoldersDeepEach | src/main/java/ArtifactoryScanner.java:72-107 | the same, for a list of entries |
| ScannerProofs.ScanFolderDispatchCount | src/main/java/ArtifactoryScanner.java:50-131 | without interrupt, the scan of any folder, whatever listings fail or merges throw, never ends interrupted and submits exactly one task per folder child of a folder shallower than depth 5 beneath it |
| ScannerProofs.ScanEntriesDispatchCount | src/main/java/ArtifactoryScanner.java:62-116 | the same, for the loop over a listing |
| ScannerProofs.DispatchDispatchCount | src/main/java/ArtifactoryScanner.java:73-102 | a submitted task run without interrupt never sets its parent's flag, and its sub-scan submits the tasks of the child's listing one level down |
| ScannerProofs.ScanRepoDispatchCount | src/main/java/ArtifactoryScanner.java:45-132 | without interrupt, the public scan of any repository never throws InterruptedException and submits exactly one task per folder child of a folder shallower than depth 5 |
| ScannerProofs.DeepEntriesSubmitNothing | src/main/java/ArtifactoryScanner.java:72-108 | the same, for the loop over a listing |
| ScannerProofs.ParallelEntriesNeverFail | src/main/java/ArtifactoryScanner.java:75-103 | the loop of a node shallower than depth 5 never throws anything but InterruptedException, because the pool absorbs its tasks' other exceptions |
| ScannerProofs.ScanRepoFailsOnlyAtRoot | src/main/java/ArtifactoryScanner.java:45-56 | the public scan throws something other than InterruptedException exactly when the root listing fails, and then after one listing and no tick |
| ScannerProofs.ScanFolderSizeBounds | src/main/java/ArtifactoryScanner.java:62-116 | whatever the outcome, a folder scan adds to its node at least nothing and at most the total of the files beneath the folder |
| ScannerProofs.ScanEntriesSizeBounds | src/main/java/ArtifactoryScanner.java:62-116 | the same, for the loop over a listing |
| ScannerProofs.InlineFolderSizeBounds | src/main/java/ArtifactoryScanner.java:105-116 | the same, for a listing that starts with a folder child scanned inline |
| ScannerProofs.DispatchSizeBounds | src/main/java/ArtifactoryScanner.java:75-102 | the same, for one submitted task |
| ScannerProofs.SmallRepositoryExample | src/main/java/ArtifactoryScanner.java:45-132 | a root with two files and a sub-folder with one file ends with 175 bytes, the latest date, one child with 25 bytes, two polls, five ticks, two listings and one task |
| ScannerProofs.SmallRepositoryFixDropsDirectFiles | src/main/java/SizeAndLatestDate.java:62-75 | the small repository's root totals 175 bytes after the scan, but fixSizes reports only the 25 bytes of its one leaf node, because the root's own two files sit in no leaf node |
| ScannerProofs.EmptyFolderLosesSiblingFiles | src/main/java/ArtifactoryScanner.java:105-108 | an empty folder scanned inline below a dated node makes that node's scan throw; the enclosing submitted task absorbs it, so a 10-byte file is missing from the depth-4 total |
| Volumes.Factor | src/main/java/DataVolume.java:17-87 | every unit's factor is at least one byte |
| Volumes.FactorsArePowersOf1024 | src/main/java/DataVolume.java:17-87 | B is 1 byte and each further unit is 1024 times the previous one |
| Volumes.CompareUnits | src/main/java/DataVolume.java:92-99 | the unit comparator returns -1, 0 or 1, is zero only for equal units, and is negative exactly for the smaller factor |
| Volumes.UnitsFromSmallestToLargest | src/main/java/DataVolume.java:125-134 | the list holds every unit once, from B to TB, by strictly increasing factor |
| Volumes.NewDataVolume | src/main/java/DataVolume.java:141-153 | the constructor succeeds exactly for a present unit and a present non-negative value; it rejects a null unit, then a null value, then a negative value |
| Volumes.SizeInBytes | src/main/java/DataVolume.java:174-180 | the byte size is at least the value and is zero exactly when the value is |
| Volumes.BytesOf | src/main/java/DataVolume.java:137-139 | n bytes exist exactly for non-negative n and have byte size n |
| Volumes.ZeroIsNoBytes | src/main/java/DataVolume.java:11 | ZERO is 0 bytes |
| Volumes.Convert | src/main/java/DataVolume.java:103-106 | converting into a unit preserves the byte size exactly |
| Volumes.ConvertTo | src/main/java/DataVolume.java:163-172 | a null unit is rejected; the volume's own unit returns the volume itself; any other unit gives that unit with the same byte size |
| Volumes.ConvertedValue | src/main/java/DataVolume.java:163-172 | the value after conversion is the byte size divided by the target factor |
| Volumes.ConvertRoundTrip | src/main/java/DataVolume.java:163-172 | converting to any unit and back gives the original volume |
| Volumes.PickUnit | src/main/java/DataVolume.java:111-122 | the loop over the units yields B for at most one byte, and otherwise the largest unit whose factor is strictly below the byte size |
| Volumes.BestDisplayUnit | src/main/java/DataVolume.java:108-123 | B when no factor lies strictly below the byte size, otherwise the largest unit whose factor does |
| Volumes.DisplayUnitEdges | src/main/java/DataVolume.java:108-123 | exactly 1024 bytes display as B, and anything above 1024^4 bytes displays as TB |
| Volumes.DisplayValueInRange | src/main/java/DataVolume.java:108-123 | for byte sizes in (1, 1024^4], the value in the display unit lies in (1, 1024] |
| Volumes.CompareTo | src/main/java/DataVolume.java:210-216 | the comparison returns -1, 0 or 1, and its sign is the sign of the byte-size difference |
| Volumes.IsGreaterThan | src/main/java/DataVolume.java:218-220 | true exactly when the byte size is larger |
| Volumes.IsLessThan | src/main/java/DataVolume.java:222-224 | true exactly when the byte size is smaller |
| Volumes.CompareToIsByteOrder | src/main/java/DataVolume.java:210-224 | swapping the operands negates the comparison; greater-than mirrors less-than; a volume compares equal to itself in any unit |

## Left out

- Concurrency. The thread pool, its queue and caller-runs policy, the lock and wait loop, and the atomic counter and flag are left out. Submitted tasks run in submission order. Child lists attached concurrently from worker threads, and their order, are not modelled.
- The scan's exception ordering under concurrency is not modelled. With real threads, a task absorbed by the pool and a later sibling's interrupt can interleave differently.
- The inline branch: when an inline sub-scan throws, the model stops the parent's loop straight away. The source also skips the wait for tasks already submitted by that parent. Those tasks belong to a node of depth 5 or more, which submits none, so the two agree sequentially.
- The HTTP client, JSON parsing and instant parsing. A folder listing is an input value, and a failed `getChildren` is the `Unreachable` listing. File instants are always present because the client either parses them or throws.
- Folder URIs are never blank, because the client's items reject blank paths. So the `""` test at ArtifactoryScanner.java:54 only marks the root call.
- The user interface, progress batching and the date filter text of the main window. The progress reporter is a tick counter.
- Time zones: instants are integers.
- `long` overflow of size sums: sizes are unbounded integers.
- Node freshness: `copy` returns new objects in the source, but the model works on values, where identity is not observable.
- `hashCode`, and the `instanceof` test of `equals`: only nodes are compared.
- `toString`, `toPrettyString`, `hashCode` and `equals` of `DataVolume`. `BigDecimal.equals` depends on scale, which exact reals cannot express. The lazily cached byte size is a plain function.
- `Paths.CompareIgnoreCase`: case folding covers ASCII letters only; Java's full Unicode case mapping is not modelled.
- `ScannerProofs.ScanFolderComplete`: it gives the exact result only of scans in which no folder scanned inline throws (`InlineSafe`, which `DeepScanFailsIff` shows is exact where folders are scanned inline; below a submitted folder an inline exception is absorbed and the scan still completes). The task count, though, is exact for every input (`ScanFolderDispatchCount`). For a scan that meets one, the node it builds is only bounded (`ScanFolderSizeBounds`); the inline failure cases are given exactly by `InlineUnreachableFails` and `InlineUndatedFolderFails`. The same holds for `ScanEntriesComplete`, `FileEntryComplete`, `FolderEntryComplete`, `FolderStepComplete`, `FreshScanComplete`, `SubmittedListed` and `SubmittedStepComplete`.
- `ScannerProofs.ScanRepoComplete`: the same hypothesis; a repository scan that meets an inline exception below a submitted folder still returns, with that folder's node only partly merged (`EmptyFolderLosesSiblingFiles`), and that partial result is bounded, not given exactly. Its task count is exact for every input (`ScanRepoDispatchCount`).
- fixSizes and the files held directly by a folder that also has sub-folders: a node records its own files' bytes only inside its size, which fixSizes overwrites with its children's sum, so those bytes are lost both as written and under the corrected copy (`SmallRepositoryFixDropsDirectFiles`). The model states this loss and defines no repair that keeps them, because the program's node has no field that holds them; `RetainAllKeepsLeafTotalSize` limits the corrected copy's promise to trees whose size equals their leaf total.
- `Aggregate.Copy`: when the top-level call is given a non-null new parent, the source also appends the copy to that parent's child list; the model returns the copy and its chain and does not return the updated parent. The only caller in the program copies with a null parent, and the appends made for nested children are modelled in full.

## Findings

| source | as written | input that shows it | evidently intended | confidence | as-written member | corrected member |
|---|---|---|---|---|---|---|
| src/main/java/SizeAndLatestDate.java:52-60 | the child constructor appends the copy to the new parent's children, and the stream's `forEach` appends it again, so every accepted child appears twice | a root whose one child is a 10-byte leaf node (a folder with no sub-folder), copied with an accept-all filter, has two children and repairs to 20 bytes | each accepted child appears once, so an accept-all copy is the original tree | not executed | Aggregate.CopyThenFixDoublesSizes | Aggregate.CopyOnceAllIsIdentity |
| src/main/java/SizeAndLatestDate.java:106-113 | `date.isAfter` is called on an absent date when the receiver already has one, so merging an undated node throws after adding its size; in the scan, an empty folder scanned inline below a dated node makes that node's scan throw, and the enclosing task discards the node's files | a depth-5 folder with a 10-byte file and an empty sub-folder: the depth-4 parent ends with size 0 | an absent date leaves the date alone, and merges commute for all dates | not executed | ScannerProofs.EmptyFolderLosesSiblingFiles | Aggregate.MergeNullSafeCommutes |
| src/main/java/SizeAndLatestDate.java:44-75 | a copied folder keeps its original size; when the filter rejects all its children, the copy has none, so fixSizes treats it as a leaf and keeps the stale size | a root of 10 bytes whose one child is a 10-byte leaf node (a folder with no sub-folder), copied with a filter that rejects leaves and repaired, still reports 10 bytes | a copy reports only the sizes of the leaf nodes it retains, so rejecting every leaf node gives 0 | not executed | Aggregate.PrunedCopyKeepsStaleSize | Aggregate.RejectAllLeavesFixesToZero |

The scan model keeps the merge as written, so that its outcomes are the program's; the
corrected merge is defined and proved beside it. Likewise the copy is modelled as written,
with the corrected copies defined beside it: one copies each accepted child once, and
the other also starts each copied folder at size 0.
