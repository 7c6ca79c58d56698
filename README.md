# Range tree with fractional cascading, in Dafny

This project models the two-dimensional range tree of the `com.satanja`
repository and proves properties of the model. The range tree answers
orthogonal range queries: which points lie in the closed rectangle
`[xMin, xMax] x [yMin, yMax]`.

The tree is a balanced binary tree over the points sorted by x. Every node
owns a *fractional cascading* list: the points of its subtree sorted by y.
Every key of that list carries two *bridges*. A bridge is the first key of
the left or right child's list whose y is at least the key's own y. A query
works in two phases:

- A binary search on the root list, followed by bridges on the way down,
  finds the split node.
- The two branches below the split node then report whole subtrees by a
  forward scan of their lists.

The model also covers the two naive searches, `PointsInRange` and
`SortedPointsInRange`, and `WindowUtils.windowContainsPoint`. These are the
linear-scan oracles that the tree is measured against.

Modules, one per concern of the source:

- `Geometry` (geometry.dfy): points, windows, the containment test, and
  `InWindow`. `InWindow` is the filter one linear scan computes, and it is
  the reference every search is compared with.
- `Ordering` (ordering.dfy): the two JDK services the code relies on.
  - `List.sort` with `Comparator.comparingDouble` becomes a stable insertion
    sort, `SortBy`.
  - `Collections.binarySearch` becomes the JDK's own low/high/mid algorithm,
    `BinarySearchFrom`.
  - It also holds the lower-bound search the code approximates.
- `Cascading` (cascade.dfy): `FractionalCascadingKey` as a value and
  `FractionalCascading` as a class. Its `keys` and child links are fields
  that the constructor and `updatePointers` change in place. A bridge is the
  position of the target key in the child's list, or `None` for `null`.
- `Indexing` (indexed.dfy): `IndexedPoint`, `sortPointsOnY`,
  `constructYSubset` and `convertToPoints` as functions on sequences.
- `Trees` (tree.dfy): the tree as a value, `Tree`. `Build` is exactly what
  `constructRangeTree` builds. The lemmas prove the result is a well-formed
  range tree (`TreeOK`).
- `Query` (query.dfy): `findSplitNode` and `search` as written, with Java's
  `NullPointerException` and `IndexOutOfBoundsException` as `Err` results.
  It also holds the corrected search and its proof against the linear scan.
- `RangeTrees` (rangetree.dfy): `RangeTreeNode` and `RangeTree` as classes.
  The nodes are linked objects, built by the recursive `constructRangeTree`
  and walked by the loops of `findSplitNode` and `search`. Each method is
  proved equal to the function that specifies it in `Trees` or `Query`.
- `Naive` (naive.dfy): `PointsInRange` and `SortedPointsInRange` over an
  array, with their loops.
- `Findings` (findings.dfy): concrete inputs on which the search as written
  goes wrong, each next to the corrected search on the same input.
- `Example` (example.dfy): the run in `RangeTree.main`. It builds the tree
  over five points on the diagonal and searches the window [0, 4] x [0, 3].

The cascades are ordered by y, so the y cursor must be located with `yMin`.
The code passes `xMin`, and the model follows the code. This is one of the
findings below.

## Model

| member | source | states |
|---|---|---|
| Geometry.BoundaryIsContained | src/main/java/com/satanja/util/WindowUtils.java:8-14 | the four bounds are inclusive: a point on an edge or corner of the window is contained |
| Geometry.CrossedWindowIsEmpty | src/main/java/com/satanja/util/WindowUtils.java:8-14 | a window with xMin > xMax or yMin > yMax contains no point |
| Geometry.InWindow | src/main/java/com/satanja/naive/PointsInRange.java:17-27 | the linear scan returns no more points than it is given, each of them given and inside the window |
| Geometry.InWindowCount | src/main/java/com/satanja/naive/PointsInRange.java:17-27 | the scan keeps every point inside the window with its full multiplicity and no point outside it |
| Geometry.InWindowIsSubsequence | src/main/java/com/satanja/naive/PointsInRange.java:19-24 | the scan keeps the stored order of the points |
| Naive.PointsInRange.Search | src/main/java/com/satanja/naive/PointsInRange.java:17-27 | the loop over the array returns the window filter of the array's contents, each point inside the window |
| Naive.SortedPointsInRange.constructor | src/main/java/com/satanja/naive/SortedPointsInRange.java:15-18 | the caller's array is sorted by x in place (a stable sort of its old contents) and kept |
| Naive.SortedPointsInRange.Search | src/main/java/com/satanja/naive/SortedPointsInRange.java:20-35 | the loop from the binary-search start returns the scan that stops past xMax; every point returned is stored and inside the window |
| Naive.ScanStart | src/main/java/com/satanja/naive/SortedPointsInRange.java:22-23 | the start index (the hit, or the decoded insertion point) lies within the list |
| Naive.SortedScan | src/main/java/com/satanja/naive/SortedPointsInRange.java:24-33 | the scan returns only stored points inside the window |
| Naive.SortedScanIsFilter | src/main/java/com/satanja/naive/SortedPointsInRange.java:24-33 | on an x-sorted list, breaking at the first point past xMax loses nothing: the scan from i equals the filter of the suffix from i |
| Naive.SortedSearchOrdered | src/main/java/com/satanja/naive/SortedPointsInRange.java:20-35 | on an x-sorted list the answer is sorted by x |
| Naive.FilterOfSortedIsSorted | src/main/java/com/satanja/naive/SortedPointsInRange.java:24-33 | filtering an x-sorted sequence keeps it sorted by x |
| Naive.SortedSearchWithoutTieIsLinearScan | src/main/java/com/satanja/naive/SortedPointsInRange.java:20-35 | when at most one point has x equal to xMin, the search as written equals the linear scan |
| Naive.SortedSearchSkipsTiedPoints | src/main/java/com/satanja/naive/SortedPointsInRange.java:22-23 | three points on x = xMin, all in the window: the search as written returns only the last two |
| Naive.CorrectedScanStart | src/main/java/com/satanja/naive/SortedPointsInRange.java:22-23 | starting at the lower bound of xMin, the start index lies within the list |
| Naive.CorrectedSortedSearchIsLinearScan | src/main/java/com/satanja/naive/SortedPointsInRange.java:20-35 | starting at the lower bound of xMin, the sorted search equals the linear scan, order included |
| Ordering.InsertBy | src/main/java/com/satanja/rangetree/RangeTree.java:19 | inserting into a key-sorted list keeps it sorted and adds exactly the one element |
| Ordering.SortBy | src/main/java/com/satanja/rangetree/RangeTree.java:19 | the sort returns a permutation of its input, sorted by the key |
| Ordering.InsertByStable | src/main/java/com/satanja/rangetree/RangeTree.java:19 | insertion puts the new element ahead of the elements with an equal key, which keep their order |
| Ordering.SortByStable | src/main/java/com/satanja/rangetree/RangeTree.java:19 | the sort is stable: the elements with any one key come out in the order they went in |
| Ordering.SortBySorted | src/main/java/com/satanja/rangetree/RangeTree.java:19 | sorting a list that is already sorted by the key leaves it unchanged |
| Ordering.BinarySearchFrom | src/main/java/com/satanja/rangetree/FractionalCascading.java:29 | the JDK search returns an index in [low, high] or an encoded insertion point in [low, high + 1] |
| Ordering.BinarySearch | src/main/java/com/satanja/rangetree/FractionalCascading.java:29 | the result is below the length, and an encoded insertion point is at most the length |
| Ordering.BinarySearchFromCorrect | src/main/java/com/satanja/rangetree/FractionalCascading.java:29 | on a sorted list with keys below low smaller and keys above high larger than the target, the search returns a hit or the exact insertion point |
| Ordering.BinarySearchCorrect | src/main/java/com/satanja/rangetree/FractionalCascading.java:29 | on a sorted list the search returns an index holding the target, or -(ip) - 1 with every key before ip smaller and every key from ip on larger |
| Ordering.LowerBound | src/main/java/com/satanja/rangetree/FractionalCascading.java:28-35 | the first position whose key is at least the target; every earlier key is smaller; None exactly when every key is smaller |
| Cascading.FractionalCascadingKey.SetLeft | src/main/java/com/satanja/rangetree/FractionalCascadingKey.java:27-29 | setLeft replaces the left bridge (hasLeftChild then says whether one is set) and keeps the point, the index and the right bridge |
| Cascading.FractionalCascadingKey.SetRight | src/main/java/com/satanja/rangetree/FractionalCascadingKey.java:31-33 | setRight replaces the right bridge and keeps the point, the index and the left bridge |
| Cascading.NewKey | src/main/java/com/satanja/rangetree/FractionalCascadingKey.java:14-17 | a new key holds its point and index and has no bridges |
| Cascading.MakeKeys | src/main/java/com/satanja/rangetree/FractionalCascading.java:16-21 | key i holds point i and index i, with no bridges |
| Cascading.MakeKeysWellOrdered | src/main/java/com/satanja/rangetree/FractionalCascading.java:16-21 | keys made from y-sorted points are indexed by position and sorted by y |
| Cascading.FractionalCascading.constructor | src/main/java/com/satanja/rangetree/FractionalCascading.java:16-21 | the cascade holds one key per point in order, and has no children |
| Cascading.FractionalCascading.WrapKeys | src/main/java/com/satanja/rangetree/FractionalCascading.java:17-20 | the loop builds exactly the keys MakeKeys specifies |
| Cascading.FractionalCascading.WithParent | src/main/java/com/satanja/rangetree/FractionalCascading.java:23-26 | the child cascade holds its keys; the parent's keys are wired to it on the given side and the parent's child link on that side is the new cascade, the other side unchanged |
| Cascading.FractionalCascading.UpdatePointers | src/main/java/com/satanja/rangetree/FractionalCascading.java:60-88 | the two nested loops leave the parent's keys equal to Wire of the old keys: each bridge on the chosen side is set to the lower bound of the key's y among the child's keys, or left alone when there is none |
| Cascading.FinishWire | src/main/java/com/satanja/rangetree/FractionalCascading.java:71-87 | when the loops stop, the keys not yet bridged have no child key at or above their y, so the list equals Wire of the original |
| Cascading.WireSetsLowerBounds | src/main/java/com/satanja/rangetree/FractionalCascading.java:60-88 | wiring sets key i's bridge on the chosen side to the lower bound of its y among the child's keys, and keeps the point, the index and the other bridge |
| Cascading.WireKeepsPoints | src/main/java/com/satanja/rangetree/FractionalCascading.java:60-88 | wiring changes only bridges: the points, and being indexed and y-sorted, are kept |
| Cascading.FractionalCascading.SetLeftChild | src/main/java/com/satanja/rangetree/FractionalCascading.java:94-96 | sets the left child link and nothing else |
| Cascading.FractionalCascading.SetRightChild | src/main/java/com/satanja/rangetree/FractionalCascading.java:98-100 | sets the right child link and nothing else |
| Cascading.Locate | src/main/java/com/satanja/rangetree/FractionalCascading.java:28-35 | rootSearch returns a position within the keys, or the read past the end (None) |
| Cascading.LocateFinds | src/main/java/com/satanja/rangetree/FractionalCascading.java:28-35 | on y-sorted keys, rootSearch(min) returns a key with y equal to min when there is one, else the lower bound; it reads past the end exactly when every y is below min |
| Cascading.FractionalCascading.RootSearch | src/main/java/com/satanja/rangetree/FractionalCascading.java:28-35 | the cascade's rootSearch is the lower bound or a tie, and fails exactly when every y is below min |
| Cascading.FractionalCascading.Report | src/main/java/com/satanja/rangetree/FractionalCascading.java:37-58 | a null start key gives nothing; otherwise the loop from the key's index returns the scan that keeps points in the window and stops after the first y above yMax |
| Cascading.ScanStep | src/main/java/com/satanja/rangetree/FractionalCascading.java:44-56 | one iteration of the report loop: it either stops at a y above yMax or continues at the next key |
| Cascading.StopIndex | src/main/java/com/satanja/rangetree/FractionalCascading.java:44-56 | the position where the report loop stops lies between the start and the end of the list |
| Cascading.ScanIsFilterUpToStop | src/main/java/com/satanja/rangetree/FractionalCascading.java:44-56 | the report from i is the window filter of the keys' points from i up to the stop position |
| Cascading.StopIndexBeyond | src/main/java/com/satanja/rangetree/FractionalCascading.java:53-55 | on y-sorted keys, every key after the stop position lies above yMax |
| Cascading.ReportFromLowerBound | src/main/java/com/satanja/rangetree/FractionalCascading.java:37-58 | reported from the lower bound of yMin, a y-sorted cascade yields exactly the window filter of all its points |
| Cascading.ScanFromLowerBound | src/main/java/com/satanja/rangetree/FractionalCascading.java:37-58 | a scan started at any i with every earlier y below yMin yields the window filter of all the points |
| Cascading.ReportFromWithin | src/main/java/com/satanja/rangetree/FractionalCascading.java:37-58 | from any start key, a report never returns a point outside the window or more often than the cascade holds it |
| Indexing.SortedOnY | src/main/java/com/satanja/rangetree/RangeTree.java:98-108 | the points tagged with their x-rank, as a permutation sorted by y |
| Indexing.YSubset | src/main/java/com/satanja/rangetree/RangeTree.java:110-118 | the subset is no longer than its input, and holds only entries of the input whose rank lies in [start, end) |
| Indexing.YSubsetSorted | src/main/java/com/satanja/rangetree/RangeTree.java:110-118 | the subset of a y-sorted list is y-sorted |
| Indexing.YSubsetIsSubsequence | src/main/java/com/satanja/rangetree/RangeTree.java:110-118 | the subset keeps the entries in their original relative order |
| Indexing.YSubsetCount | src/main/java/com/satanja/rangetree/RangeTree.java:110-118 | an entry occurs in the subset as often as in the input when its rank is in range, else never |
| Indexing.YSubsetPermutation | src/main/java/com/satanja/rangetree/RangeTree.java:110-118 | subsets of permutations of one another are permutations of one another |
| Indexing.ConvertToPoints | src/main/java/com/satanja/rangetree/RangeTree.java:120-122 | conversion keeps the length |
| Indexing.ConvertSorted | src/main/java/com/satanja/rangetree/RangeTree.java:120-122 | converting a y-sorted list of entries gives y-sorted points |
| Indexing.ConvertPermutation | src/main/java/com/satanja/rangetree/RangeTree.java:120-122 | converting permutations of one another gives permutations of one another |
| Indexing.SortedOnYCovers | src/main/java/com/satanja/rangetree/RangeTree.java:98-108 | the y-sorted tagged points hold every x-rank exactly once |
| Indexing.CoversSubrange | src/main/java/com/satanja/rangetree/RangeTree.java:129 | the subset of a node's entries for a sub-range of ranks holds each rank of that sub-range once |
| Indexing.NodePoints | src/main/java/com/satanja/rangetree/RangeTree.java:129-130 | a node's cascade holds exactly its slice of the x-sorted points, as a permutation sorted by y |
| Trees.CompareTo | src/main/java/com/satanja/rangetree/RangeTreeNode.java:42-52 | 0 exactly when the position lies in [min, max], positive exactly when it is below min, negative exactly when it is above max |
| Trees.IsLeafNode | src/main/java/com/satanja/rangetree/RangeTreeNode.java:54-56 | a node is a leaf exactly when it has no subtree |
| Trees.Median | src/main/java/com/satanja/rangetree/RangeTree.java:136-139 | the median rank splits n ranks into a left part of ceil(n / 2) and a non-empty right part |
| Trees.CoversSize | src/main/java/com/satanja/rangetree/RangeTree.java:129-136 | a node over ranks [start, end) has end - start entries |
| Trees.SplitCovers | src/main/java/com/satanja/rangetree/RangeTree.java:136-143 | both children's rank ranges are non-empty and covered by the node's own entries |
| Trees.InnerKeys | src/main/java/com/satanja/rangetree/RangeTree.java:129-143 | an inner node's keys hold its y-sorted points, bridged into both children |
| Trees.InnerKeysWellOrdered | src/main/java/com/satanja/rangetree/RangeTree.java:129-143 | an inner node's keys are indexed by position and sorted by y |
| Trees.Build | src/main/java/com/satanja/rangetree/RangeTree.java:124-147 | the subtree over ranks [start, end) is a node whose keys hold its end - start points sorted by y |
| Trees.BuildLeaf | src/main/java/com/satanja/rangetree/RangeTree.java:133-134 | one rank builds a leaf at the x of its point |
| Trees.BuildInner | src/main/java/com/satanja/rangetree/RangeTree.java:135-146 | two or more ranks build a node at the median x over the two halves |
| Trees.BuildRoot | src/main/java/com/satanja/rangetree/RangeTree.java:17-23 | the root holds every input point, as a multiset |
| Trees.BuildRootIsRangeTree | src/main/java/com/satanja/rangetree/RangeTree.java:17-23 | the tree over x-sorted points is well-formed: sorted, indexed cascades, separated halves, and bridges at lower bounds |
| Trees.BuildBridges | src/main/java/com/satanja/rangetree/RangeTree.java:131 | every key of an inner node bridges to the lower bound of its y in each child |
| Trees.BuildKeys | src/main/java/com/satanja/rangetree/RangeTree.java:129-131 | every cascade is indexed and sorted by y, and holds the node's slice of points |
| Trees.BuildSeparates | src/main/java/com/satanja/rangetree/RangeTree.java:136-143 | the halves split the node's points, with the left at or below the position and the right at or above it |
| Trees.BuildIsRangeTree | src/main/java/com/satanja/rangetree/RangeTree.java:124-147 | every subtree constructRangeTree builds is well-formed and holds its slice of points |
| Query.FindSplit | src/main/java/com/satanja/rangetree/RangeTree.java:85-93 | when the descent succeeds, it stops at a node whose position lies in [xMin, xMax] |
| Query.SplitFromRoot | src/main/java/com/satanja/rangetree/RangeTree.java:81-96 | findSplitNode fails out of bounds when every root y is below xMin, and otherwise can only stop at a node inside [xMin, xMax] |
| Query.FindSplitWithin | src/main/java/com/satanja/rangetree/RangeTree.java:85-93 | the split node is well-formed and its points in the window are among the root's |
| Query.LeftSpineSound | src/main/java/com/satanja/rangetree/RangeTree.java:35-55 | the left-branch loop, when it ends without an exception, adds only points of its subtree that lie in the window |
| Query.RightSpineSound | src/main/java/com/satanja/rangetree/RangeTree.java:57-76 | the right-branch loop, when it ends without an exception, adds only points of its subtree that lie in the window |
| Query.SearchAsWrittenSound | src/main/java/com/satanja/rangetree/RangeTree.java:25-79 | on a well-formed tree, a search that returns is a sub-multiset of the window's points |
| Query.SearchAsWrittenNeverWrong | src/main/java/com/satanja/rangetree/RangeTree.java:25-79 | whatever the search as written returns lies in the window and is among the input points, none more often than given |
| Query.BridgeTarget | src/main/java/com/satanja/rangetree/RangeTree.java:40-41 | following a bridge from the lower bound of yMin (or a tie) lands on the lower bound of yMin in the child |
| Query.BridgeFindsLowerBound | src/main/java/com/satanja/rangetree/RangeTree.java:37-50 | in a well-formed tree, bridges keep the cursor at the lower bound of yMin all the way down |
| Query.SkippedSideIsOutside | src/main/java/com/satanja/rangetree/RangeTree.java:39-41 | the subtree a branch loop skips holds no point of the window |
| Query.InnerInWindow | src/main/java/com/satanja/rangetree/RangeTree.java:36-76 | an inner node's points in the window are those of its two children |
| Query.LeafReport | src/main/java/com/satanja/rangetree/RangeTree.java:46-47 | reporting a leaf from the lower bound of yMin yields its point when it is in the window |
| Query.LeftSpineFixedCorrect | src/main/java/com/satanja/rangetree/RangeTree.java:35-55 | the corrected left-branch loop reports exactly the subtree's points in the window |
| Query.RightSpineFixedCorrect | src/main/java/com/satanja/rangetree/RangeTree.java:57-76 | the corrected right-branch loop reports exactly the subtree's points in the window |
| Query.SearchFromFixedCorrect | src/main/java/com/satanja/rangetree/RangeTree.java:25-96 | from any node and cursor at the lower bound of yMin, the corrected search reports exactly the node's points in the window |
| Query.SearchFixedCorrect | src/main/java/com/satanja/rangetree/RangeTree.java:25-96 | on a well-formed tree the corrected search returns the window's points as a multiset |
| Query.SearchIsLinearScan | src/main/java/com/satanja/rangetree/RangeTree.java:17-96 | the corrected search over the tree built from any non-empty input is a permutation of the linear scan |
| RangeTrees.RangeTreeNode.constructor | src/main/java/com/satanja/rangetree/RangeTreeNode.java:13-16 | a new node has its position and cascade and no subtrees |
| RangeTrees.RangeTreeNode.SetLeftSubtree | src/main/java/com/satanja/rangetree/RangeTreeNode.java:18-20 | sets the left subtree and nothing else |
| RangeTrees.RangeTreeNode.SetRightSubtree | src/main/java/com/satanja/rangetree/RangeTreeNode.java:22-24 | sets the right subtree and nothing else |
| RangeTrees.RangeTreeNode.IsLeafNode | src/main/java/com/satanja/rangetree/RangeTreeNode.java:54-56 | the node is a leaf exactly when the tree it stands for is a leaf |
| RangeTrees.RangeTreeNode.RootSearch | src/main/java/com/satanja/rangetree/RangeTreeNode.java:38-40 | delegates to the cascade: the lower bound or a tie, failing exactly when every y is below min |
| RangeTrees.RangeTreeNode.Report | src/main/java/com/satanja/rangetree/RangeTreeNode.java:58-60 | delegates to the cascade's report |
| RangeTrees.RangeTree.constructor | src/main/java/com/satanja/rangetree/RangeTree.java:17-23 | the tree keeps the x-sorted points, and its root is a well-formed range tree holding exactly the input points |
| RangeTrees.RangeTree.Construct | src/main/java/com/satanja/rangetree/RangeTree.java:18-22 | the sort, the y-tagging and the recursive build yield the tree BuildRoot specifies over the sorted points |
| RangeTrees.RangeTree.SortPointsOnY | src/main/java/com/satanja/rangetree/RangeTree.java:98-108 | the loop tags each point with its rank, and the sort by y yields SortedOnY |
| RangeTrees.RangeTree.ConstructYSubset | src/main/java/com/satanja/rangetree/RangeTree.java:110-118 | the loop keeps exactly the entries with rank in [start, end), in order |
| RangeTrees.RangeTree.ConstructRangeTree | src/main/java/com/satanja/rangetree/RangeTree.java:124-147 | the linked nodes built stand for Build over the same ranks; the parent's keys are wired to the new cascade and its child link is set on the given side |
| RangeTrees.RangeTree.NewCascade | src/main/java/com/satanja/rangetree/RangeTree.java:131 | a new cascade over the y-sorted points, wired into the parent when there is one |
| RangeTrees.RangeTree.ConstructNode | src/main/java/com/satanja/rangetree/RangeTree.java:133-146 | a leaf for one rank, else a node at the median x over two recursively built halves, standing for Build |
| RangeTrees.RangeTree.ConstructInner | src/main/java/com/satanja/rangetree/RangeTree.java:141-145 | the node gets the left subtree, then the right, and its keys end up bridged into both |
| RangeTrees.RangeTree.Join | src/main/java/com/satanja/rangetree/RangeTree.java:141-145 | a new node over two disjoint subtrees is well-formed and stands for the node over their trees |
| RangeTrees.RangeTree.FindSplitNode | src/main/java/com/satanja/rangetree/RangeTree.java:81-96 | the loop over the linked nodes gives the same node and key, or the same exception, as FindSplit from rootSearch(xMin) |
| RangeTrees.RangeTree.LeftBranch | src/main/java/com/satanja/rangetree/RangeTree.java:35-56 | the left-branch loop over linked nodes computes LeftSpine |
| RangeTrees.RangeTree.RightBranch | src/main/java/com/satanja/rangetree/RangeTree.java:57-76 | the right-branch loop over linked nodes computes RightSpine |
| RangeTrees.RangeTree.Search | src/main/java/com/satanja/rangetree/RangeTree.java:25-79 | search on the built tree returns what the search as written returns on its model, exceptions included |
| Example.DiagonalSortedOnX | src/main/java/com/satanja/rangetree/RangeTree.java:164-177 | main's points are already in x order, so the constructor's sort keeps them as they are |
| Example.RisingTreeBuilt | src/main/java/com/satanja/rangetree/RangeTree.java:124-147 | over five x-sorted points rising in y, constructRangeTree builds the node at the third point's x over a three-point and a two-point subtree, with every bridge at its lower bound |
| Example.DiagonalTreeBuilt | src/main/java/com/satanja/rangetree/RangeTree.java:177 | the constructor over main's five points builds that tree |
| Example.DiagonalSplit | src/main/java/com/satanja/rangetree/RangeTree.java:81-96 | in main's search, rootSearch(xMin) lands on a and the root is the split node |
| Example.DiagonalLeftBranch | src/main/java/com/satanja/rangetree/RangeTree.java:35-55 | in main's search, the left branch reports c, then a and b |
| Example.DiagonalRightBranch | src/main/java/com/satanja/rangetree/RangeTree.java:57-76 | in main's search, the right branch adds d and nothing from e |
| Example.DiagonalInWindow | src/main/java/com/satanja/naive/PointsInRange.java:17-27 | the linear scan over main's points and window returns a, b, c and d |
| Example.DiagonalInWindowPermuted | src/main/java/com/satanja/rangetree/RangeTree.java:179-182 | main's answer c, a, b, d is a permutation of the linear scan, so its four-point assertion holds |
| Example.MainSearch | src/main/java/com/satanja/rangetree/RangeTree.java:163-183 | main's search as written, over the tree built from its five points, returns c, a, b, d in that order |
| Findings.SinglePointSearch | src/main/java/com/satanja/rangetree/RangeTree.java:25-96 | over one point, the search fails out of bounds when y < xMin, returns nothing when x is in [xMin, xMax], and fails on null otherwise |
| Findings.LeafSplitIsIgnored | src/main/java/com/satanja/rangetree/RangeTree.java:36-76 | a leaf split node is never reported: the search returns nothing while the window holds the point |
| Findings.SplitSearchFallsOffTheTree | src/main/java/com/satanja/rangetree/RangeTree.java:85-93 | with no position in [xMin, xMax], the descent dereferences a null node |
| Findings.RootSearchReadsPastTheEnd | src/main/java/com/satanja/rangetree/FractionalCascading.java:28-35 | with every y below xMin, rootSearch reads past the end of the keys |
| Findings.XMinSeedSkipsPoints | src/main/java/com/satanja/rangetree/RangeTree.java:83 | seeding with xMin skips a point in the window whose y lies below xMin |
| Findings.NullBridgeIsDereferenced | src/main/java/com/satanja/rangetree/RangeTree.java:49-50 | a key with no left bridge is dereferenced on the left branch |
| Findings.NullBridgeFixed | src/main/java/com/satanja/rangetree/RangeTree.java:36-55 | on the same input the corrected search returns the one point in the window |

## Left out

- Timing and I/O: the performance tests are not modelled.
- `GridRange` and `SemiRangeTree` are other structures and are not part of
  this model.
- Coordinates are `real`. The code only compares doubles and never does
  arithmetic on them, so NaN, infinities and `-0.0` are not modelled.
- `FractionalCascadingKey` is a value. A bridge is the position of its
  target in the child's key list, not a reference to a shared key object.
  `setLeft`/`setRight` return an updated key, which the owning cascade
  stores back.
- `getLeftChild`/`getRightChild` of a cascade and the plain getters are
  field reads and have no members of their own.
- `RangeTrees.RangeTree.constructor`: on an empty list, Java computes the
  median as -1 (RangeTree.java:137) and fails on `xPoints.get(-1)`
  (RangeTree.java:141). The model does not model this failure: it requires
  that callers pass a non-empty list.
- `constructRangeTree` is one recursive method in Java. Its leaf/inner step
  and the attachment of the two subtrees are split into `ConstructNode`,
  `ConstructInner` and `Join`, and `search`'s two loops into `LeftBranch`
  and `RightBranch`. Java allocates the node first (RangeTree.java:141) and
  then attaches the two subtrees (RangeTree.java:142-143). The model builds
  the left subtree, then the right, and `Join` allocates the node after them.
  Only the order of allocation differs, and no other code observes it.
- `RangeTrees.RangeTree.Construct`: the sort and the rank tagging run on
  sequences rather than on `ArrayList`s. The cascades' key lists are
  `seq` fields that the methods reassign.
- `Naive.PointsInRange.constructor`: Java keeps the caller's list by
  reference. The model keeps the array reference, so it does see later
  writes to the array's elements. It does not follow the caller adding
  elements to the list or removing them, because an array has a fixed
  length.
- `Ordering.SortBy` and `Ordering.BinarySearch` model `List.sort` (a stable
  sort) and `Collections.binarySearch` by their documented results and the
  JDK's own algorithm. The JDK's merge sort is not modelled.
- `Query.SearchAsWrittenSound`: no exact result is claimed for the search as
  written, because it can miss points (see Findings). Only soundness is
  proved for it: it never returns a wrong point and never returns a point
  too often.
- Malformed windows (xMin > xMax or yMin > yMax) are allowed and not
  rejected, exactly as in the code. `CrossedWindowIsEmpty` states that
  they contain no point.

## Findings

| source | as written | input that shows it | evidently intended | confidence | as-written member | corrected member |
|---|---|---|---|---|---|---|
| src/main/java/com/satanja/rangetree/RangeTree.java:36-76 | a split node that is a leaf has no subtrees, so neither branch loop runs and its point is never reported | the single point (0, 0), window [0, 0] x [0, 0] | report the split leaf's point when it is in the window | not executed | Findings.LeafSplitIsIgnored | Query.SearchFixedCorrect |
| src/main/java/com/satanja/rangetree/RangeTree.java:85-93 | when no position lies in [xMin, xMax] the descent steps past a leaf and calls compareTo on null | the single point (0, 5), window [1, 2] x [0, 10] | return no points when the descent leaves the tree | not executed | Findings.SplitSearchFallsOffTheTree | Query.SearchFixedCorrect |
| src/main/java/com/satanja/rangetree/FractionalCascading.java:28-35 | when every y is below min, the insertion point is the list's size and keys.get throws | the single point (1, 0), window [1, 1] x [0, 0] | a missing key means nothing to report | not executed | Findings.RootSearchReadsPastTheEnd | Query.SearchFixedCorrect |
| src/main/java/com/satanja/rangetree/RangeTree.java:83 | the cascade cursor is located with xMin although the cascades are sorted by y, so points with yMin <= y < xMin are skipped | points (5, 1) and (6, 7), window [5, 6] x [0, 10] returns only (6, 7) | rootSearch(yMin) | not executed | Findings.XMinSeedSkipsPoints | Query.SearchIsLinearScan |
| src/main/java/com/satanja/rangetree/RangeTree.java:49-50 | a key with no bridge into a child (null) is followed with getLeftChild, which throws | points (5, 1) and (6, 7), window [4, 6] x [4, 10] | a null key reports nothing and stays null | not executed | Findings.NullBridgeIsDereferenced | Findings.NullBridgeFixed |
| src/main/java/com/satanja/naive/SortedPointsInRange.java:22-23 | Collections.binarySearch may hit any of several points with x equal to xMin, and the scan starts there, skipping the tied points before it | points (0, 0), (0, 1), (0, 2), window [0, 0] x [0, 2] returns only the last two | start at the first point with x >= xMin (the lower bound) | not executed | Naive.SortedSearchSkipsTiedPoints | Naive.CorrectedSortedSearchIsLinearScan |
