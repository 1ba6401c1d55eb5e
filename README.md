# GridGraphPathFinder, modelled in Dafny

This project models the core of GridGraphPathFinder. GridGraphPathFinder is a C++ library that builds distance oracles on grid graphs. Its core pieces are:

- grid nodes and their neighbour rules;
- grid corners and their z-order score;
- rectangular grid cells: containment, splitting into quadrants, merging;
- the grid graph, parsed from a map file, with its walkability queries and node iterator;
- Dijkstra's search on the grid graph;
- paths;
- node selections, selection buckets and the selection lookup;
- separations, and the well-separation check that finds the center nodes of a complex separation.

It also models the Python viewer shipped with the library:

- its parsers for the map file and for the selection file that `NodeSelection::toFile` writes;
- its rules for the window scale, the canvas width and the colours of the squares it draws.

Each source file of the core is one Dafny module. Plain values (nodes, corners, cells, separations, buckets) are datatypes with functions. Objects whose members the source updates in place are classes with `modifies` clauses:

- Dijkstra's search state;
- the grid graph iterator;
- paths;
- node selections;
- the selection lookup;
- the viewer's graph and node selection.

Loops in the source are methods with loop invariants. Each is proved against a specification function, and the properties the source relies on are proved about that function.

The source's integer widths are written out. `std::size_t` is `Nodes.u64`, and its `- 1` and `+ 1` wrap around. The 32-bit corner fields truncate. The z-score is computed on `bv64`.

## Model

| member | source | states |
|---|---|---|
| Nodes.EqualIsIdentity | src/graph/Node.cpp:9-18 | `==` holds exactly when row and column agree, which is value equality; `!=` is its negation |
| Nodes.LessIsStrictTotalOrder | src/graph/Node.cpp:20-35 | `<` (row first, then column) is irreflexive, asymmetric, transitive and total on distinct nodes |
| Nodes.GreaterIsConverse | src/graph/Node.cpp:37-51 | `>` (written as not `<=`) is `<` with the arguments swapped, `>=` is `<=` swapped, and `>=` is not `<` |
| Nodes.KeyOrdersLikeLess | src/graph/Node.cpp:20-35 | the row-major key orders nodes exactly as `<` does and is injective |
| Nodes.IncDecInverse | src/graph/Node.cpp:56-59 | the size_t `+ 1` and `- 1` offsets undo each other and always move the coordinate |
| Nodes.ManhattanNeigbourMeaning | src/graph/Node.cpp:53-60 | a Manhattan neighbour differs in exactly one coordinate by one step modulo 2^64; no node is its own neighbour; the relation is symmetric |
| NeigbourCalculators.ManhattanListMatchesPredicate | src/graph/NeigbourCalculator.cpp:9-27 | the Manhattan list has four entries, and its members are exactly the nodes its `isNeigbourOf` accepts, which agrees with `Node::isManhattanNeigbourOf` |
| NeigbourCalculators.AllSouroundingListMatchesPredicate | src/graph/NeigbourCalculator.cpp:29-55 | the all-surrounding list has eight entries and starts with the Manhattan four; its members are exactly the nodes its `isNeigbourOf` accepts, and those are the other nodes within one step in each coordinate |
| NeigbourCalculators.IsNeigbourOfIffListed | src/graph/NeigbourCalculator.cpp:57-78 | for either variant, `isNeigbourOf(a, b)` holds iff `calculateNeigbours(a)` lists b |
| NeigbourCalculators.NotOwnNeigbour | src/graph/NeigbourCalculator.cpp:9-55 | no node is listed as, or accepted as, its own neighbour |
| NeigbourCalculators.NeigbourSymmetric | src/graph/NeigbourCalculator.cpp:20-55 | both neighbour relations are symmetric |
| GridCorners.EqualIsIdentity | src/graph/GridCorner.cpp:14-24 | corner `==` is value equality; `!=` is its negation |
| GridCorners.ToU32Value | src/graph/GridCorner.cpp:51-52 | `static_cast<uint32_t>` keeps the value modulo 2^32 |
| GridCorners.ToU32Injective | src/graph/GridCorner.cpp:51-52 | the cast loses nothing on 32-bit values: different coordinates give different unsigned values |
| GridCorners.SpreadGather | src/graph/GridCorner.cpp:54-57 | the four shift-and-mask steps leave a 16-bit value's bits in the even positions, and gathering them back gives the value |
| GridCorners.ZScoreBound | src/graph/GridCorner.cpp:45-67 | every z-score fits in 32 bits |
| GridCorners.ZScoreColumnBits | src/graph/GridCorner.cpp:51-64 | bit k of the column (k < 16) is bit 2k of the z-score |
| GridCorners.ZScoreRowBits | src/graph/GridCorner.cpp:52-64 | bit k of the row (k < 16) is bit 2k+1 of the z-score |
| GridCorners.ZScoreRoundTrip | src/graph/GridCorner.cpp:45-67 | for 16-bit coordinates, decoding the z-score gives back the corner |
| GridCorners.ZScoreInjective | src/graph/GridCorner.cpp:45-67 | different 16-bit corners have different z-scores |
| GridCorners.LessIsStrict | src/graph/GridCorner.cpp:26-30 | `<` on z-scores is irreflexive on equal corners and asymmetric |
| GridCorners.LessIsTotalOn16Bit | src/graph/GridCorner.cpp:26-30 | on 16-bit corners, of two different corners one is less |
| GridCorners.ZScoreCollidesBeyond16Bits | src/graph/GridCorner.cpp:48-64 | beyond 16 bits two different corners share a z-score, so neither is less than the other |
| GridCells.EqualIsIdentity | src/graph/GridCell.cpp:30-43 | cell `==` (all four corners equal) is value equality; `!=` is its negation |
| GridCells.ValidDimensions | src/graph/GridCell.cpp:156-166 | on a valid cell nothing wraps: width = right column − left column + 1 ≥ 1, height = bottom row − top row + 1 ≥ 1, size = width × height |
| GridCells.InCellCoordinates | src/graph/GridCell.cpp:58-65 | on a valid cell, `isInCell` holds iff top row ≤ row ≤ bottom row and left column ≤ column ≤ right column |
| GridCells.IndexInCell | src/graph/GridCell.cpp:45-56 | for idx below the size of a valid cell, `cell[idx]` is (top row + idx / width, left column + idx % width), lies in the cell, and its row-major position is idx |
| GridCells.IndexOfInCell | src/graph/GridCell.cpp:45-56 | every node of a valid cell is `cell[idx]` for its row-major position idx, which is below the size |
| GridCells.IndexIsIncreasing | src/graph/GridCell.cpp:45-56 | `cell[i]` comes before `cell[j]` in node order whenever i < j |
| GridCells.AtomicMeansOneNode | src/graph/GridCell.cpp:79-86 | a valid cell is atomic iff it holds exactly one node |
| GridCells.SplitableSize | src/graph/GridCell.cpp:67-77 | a valid splitable cell holds a positive multiple of four nodes |
| GridCells.SuperSetIsConverseOfSubSet | src/graph/GridCell.cpp:232-256 | `a.isSuperSetOf(b)` iff `b.isSubSetOf(a)`; both are reflexive |
| GridCells.SubSetMeansNodeContainment | src/graph/GridCell.cpp:245-256 | for rectangles, the corner test of `isSubSetOf` holds iff every node of the first cell is in the second |
| GridCells.CommonNodeMeansOverlap | src/graph/GridCell.cpp:259-268 | for rectangles, `hasCommonNodeWith` holds iff the row ranges and the column ranges overlap |
| GridCells.GetNodeAtChecksTheWrongBound | src/graph/GridCell.cpp:168-180 | on a valid 1×2 cell, `getNodeAt` as written refuses the cell's node in column 1 and accepts row 5, outside the cell |
| GridCells.GetNodeAtCheckedIsInCell | src/graph/GridCell.cpp:168-180 | the corrected lookup finds a node iff row < height and column < width; that node lies in the cell and is `cell[row * width + column]` |
| GridCells.Split | src/graph/GridCell.cpp:120-154 | `split` yields four cells |
| GridCells.SplitCorners | src/graph/GridCell.cpp:120-154 | the corners of the four quadrants of a splitable rectangle, cut after half the column and row spans, with no truncation |
| GridCells.QuadrantShape | src/graph/GridCell.cpp:120-154 | each quadrant of a splitable rectangle is a rectangle inside it, half as wide and half as high |
| GridCells.QuadrantSize | src/graph/GridCell.cpp:120-154 | each quadrant of a splitable rectangle holds a quarter of its nodes |
| GridCells.SplitQuadrants | src/graph/GridCell.cpp:120-154 | `split` of a splitable rectangle gives four valid subset rectangles whose sizes sum to its size |
| GridCells.SplitTiles | src/graph/GridCell.cpp:120-154 | each node of a splitable rectangle lies in exactly one quadrant, and no node outside it lies in any quadrant |
| GridCells.MergeIsLeastCover | src/graph/GridCell.cpp:288-338 | each of the four merged cells is a subset of the result, and every common superset of the four is a superset of the result |
| GridCells.MergeUndoesSplit | src/graph/GridCell.cpp:288-338 | `merge` of the quadrants of a splitable rectangle gives back the rectangle |
| GridCells.SkewedCell | src/graph/GridCell.cpp:88-100 | a cell that `isValid` and `isSplitable` accept but whose left corners do not share a column |
| GridCells.MergeDoesNotUndoSplitOfSkewedCell | src/graph/GridCell.cpp:120-154 | for that skewed cell, `merge` of its `split` is not the cell |
| GridCells.CellNodes | src/graph/GridCell.cpp:182-199 | the iterator visits `size` nodes, the idx-th being `cell[idx]` |
| GridCells.CellNodesAreTheCell | src/graph/GridCell.cpp:182-199 | a valid cell's iterator visits exactly its own nodes, each once, in increasing node order |
| GridGraphs.NewGridGraph | src/graph/GridGraph.cpp:14-28 | the constructor takes height from the number of rows and width from the first row, and stores row r, column c at r × width + c |
| GridGraphs.WalkableIsStoredEntry | src/graph/GridGraph.cpp:31-53 | `isWalkableNode` holds iff the node is inside the rows and its entry is true; `isBarrier` is the negation |
| GridGraphs.FilterWalkable | src/graph/GridGraph.cpp:60-66 | the `remove_if` filter keeps exactly the walkable entries and never lengthens the list |
| GridGraphs.FilterWalkableKeepsOrder | src/graph/GridGraph.cpp:78-83 | filtering a strictly increasing list of nodes leaves it strictly increasing |
| GridGraphs.CountWalkableMeaning | src/graph/GridGraph.cpp:134-142 | `count_if` counts the walkable entries: positive iff one exists, below the length iff a barrier exists |
| GridGraphs.WalkableNeigboursMeaning | src/graph/GridGraph.cpp:55-70 | `getWalkableNeigbours(n)` holds exactly the walkable nodes that `areNeighbours` relates to n, and never n itself |
| GridGraphs.WalkableNodesOfCellMeaning | src/graph/GridGraph.cpp:72-86 | for a valid cell, `getAllWalkableNodesOfCell` lists exactly its walkable nodes, each once, in increasing order, as many as `countNumberOfWalkableNodes` |
| GridGraphs.HasWalkableNodeIffCountPositive | src/graph/GridGraph.cpp:108-116 | a valid cell has a walkable node iff one of its nodes is walkable iff the count is positive; the count is at most the size |
| GridGraphs.HasBarrierIffCountBelowSize | src/graph/GridGraph.cpp:124-132 | the corrected `hasBarrier` holds iff some node of the cell is a barrier, iff fewer than all of its nodes are walkable |
| GridGraphs.HasBarrierAsWrittenReportsOpenCell | src/graph/GridGraph.cpp:124-132 | in a one-node graph with no barrier, `hasBarrier` as written answers true |
| GridGraphs.WrapGraphInCellSpansGraph | src/graph/GridGraph.cpp:144-159 | the wrapping cell is valid iff the graph has a node; it is then the rectangle of the graph's size, containing exactly the graph's nodes |
| GridGraphs.ParseGridGraph | src/graph/GridGraph.cpp:192-239 | the parse fails iff a line is neither empty nor of the header's width (or no row is kept); otherwise the graph stores exactly the lines of that width, '.' as walkable |
| GridGraphs.ParseRenderRoundTrip | src/graph/GridGraph.cpp:212-232 | parsing the map lines of rows of one width gives the rows back, and no such line makes the parse fail |
| GridGraphIterators.NodeAtIdxInvertsNodeToIndex | src/graph/GridGraphIterator.cpp:102-112 | inside the grid, `getNodeAtIdx(idx)` is the node whose row-major index is idx; at or past width × height it lies below the last row |
| GridGraphIterators.NodeToIndexInvertsNodeAtIdx | src/graph/GridGraphIterator.cpp:102-112 | for a node of the grid, its row-major index is below width × height and `getNodeAtIdx` maps it back to the node |
| GridGraphIterators.SkipBarriers | src/graph/GridGraphIterator.cpp:15-18 | the skipping loop stops at the first index from idx on with a walkable node, or at the end index; every index it passes is a barrier |
| GridGraphIterators.SkipBarriersFindsNextWalkable | src/graph/GridGraphIterator.cpp:15-27 | with the graph's own end index, the stop is a walkable node of the grid or the end, and no walkable node at or after idx is skipped |
| GridGraphIterators.GridGraphIterator.constructor | src/graph/GridGraphIterator.cpp:9-19 | the iterator starts at the first walkable index from idx on, with `max_idx_` = width × height |
| GridGraphIterators.GridGraphIterator.Copy | src/graph/GridGraphIterator.cpp:34 | the copy has the same graph, index and end index |
| GridGraphIterators.GridGraphIterator.Increment | src/graph/GridGraphIterator.cpp:21-29 | prefix `++` steps the index once (wrapping) and skips barriers; below SIZE_MAX the index grows |
| GridGraphIterators.GridGraphIterator.PostIncrement | src/graph/GridGraphIterator.cpp:31-37 | postfix `++` returns a fresh copy at the old index and advances this iterator as prefix `++` does |
| GridGraphIterators.GridGraphIterator.AddOffset | src/graph/GridGraphIterator.cpp:39-44 | `+=` adds the offset to the index, modulo 2^64, without skipping |
| GridGraphIterators.GridGraphIterator.AddIterator | src/graph/GridGraphIterator.cpp:46-51 | `+=` adds the other iterator's index, modulo 2^64, without skipping |
| GridGraphIterators.ComparisonsFollowIndex | src/graph/GridGraphIterator.cpp:53-87 | the comparisons look only at the index: `!=` negates `==`, `<=` is `<` or `==`, `>` is `<` swapped, and exactly one of `<`, `==`, `>` holds |
| Paths.LengthCountsEdges | src/Path.cpp:32-37 | a non-empty path's length is its node count minus one (the number of edges); the empty path reports SIZE_MAX |
| Paths.AddingANodeAddsAnEdge | src/Path.cpp:22-37 | adding a node at either end of a non-empty path adds one to its length |
| Paths.Path.constructor | src/Path.cpp:18-19 | the path holds exactly the given nodes |
| Paths.Path.PushBack | src/Path.cpp:22-25 | the node is appended and becomes the target; the source stays; the length grows by one |
| Paths.Path.PushFront | src/Path.cpp:26-30 | the node is prepended and becomes the source; the target stays; the length grows by one |
| Utils.MinOf | include/utils/Utils.hpp:14-25 | the variadic `min` returns one of its arguments, no greater than any of them |
| Utils.MinOfFour | include/utils/Utils.hpp:14-25 | the four-argument `min` is one of the four and no greater than any |
| Utils.MaxOf | include/utils/Utils.hpp:27-38 | the variadic `max` returns one of its arguments, no less than any of them |
| Utils.MaxOfFour | include/utils/Utils.hpp:27-38 | the four-argument `max` is one of the four and no less than any |
| Utils.Concat | include/utils/Utils.hpp:40-54 | the variadic `concat` yields as many elements as all its arguments together |
| Utils.ConcatIsFlatten | include/utils/Utils.hpp:40-54 | the left fold of `concat` is all the vectors one after the other |
| Utils.InsertSorted | src/selection/NodeSelection.cpp:18-22 | inserting into an ascending vector keeps it ascending and adds exactly the element |
| Utils.Sort | src/selection/NodeSelection.cpp:18-22 | `std::sort` leaves an ascending permutation of its input |
| Utils.LowerBoundSplits | src/selection/NodeSelection.cpp:104-116 | on an ascending range, the lower bound separates the elements below x from the others |
| Utils.BinarySearchIsMembership | src/selection/NodeSelection.cpp:104-116 | on an ascending range, `std::binary_search` answers membership |
| Utils.IntersectSorted | include/utils/Utils.hpp:107-127 | the `std::set_intersection` of ascending index vectors is ascending |
| Utils.IntersectMultiset | include/utils/Utils.hpp:107-127 | on ascending inputs, `std::set_intersection` yields the multiset intersection |
| Utils.IntersectMembership | include/utils/Utils.hpp:107-127 | a value is in the intersection iff it is in both ascending inputs |
| Utils.IntersectIsIntersectBy | include/utils/Utils.hpp:107-127 | the walk over indices is the generic walk with the order `<` |
| Utils.IntersectByMembership | include/utils/Utils.hpp:107-127 | on ranges ascending under a strict total order, an element is in the intersection iff it is in both |
| Utils.IntersectAllMultiset | include/utils/Utils.hpp:85-127 | the variadic `intersect` of ascending vectors is ascending and is the multiset intersection of all of them |
| NodeSelections.NodeLessIsStrictTotalOrder | src/selection/NodeSelection.cpp:18-22 | node `<` is the strict total order `std::sort` and `std::binary_search` need |
| NodeSelections.Find | src/selection/NodeSelection.cpp:65-67 | `std::find` returns the first position holding the node, or the length when none does |
| NodeSelections.EraseFirstRemovesOne | src/selection/NodeSelection.cpp:65-70 | erasing at the found position removes one occurrence of the node, and nothing when it is absent |
| NodeSelections.EraseAtFind | src/selection/NodeSelection.cpp:65-70 | `erase(find(x))` when found is exactly EraseFirst, and the list is unchanged when x is absent |
| NodeSelections.EraseFirstKeepsAscending | src/selection/NodeSelection.cpp:61-72 | erasing keeps a sorted list sorted |
| NodeSelections.EraseOne | src/selection/NodeSelection.cpp:65-70 | the find-then-erase step removes the first occurrence of the node |
| NodeSelections.EraseEachIsDifference | src/selection/NodeSelection.cpp:61-84 | erasing each listed node in turn leaves the multiset difference of the list and the listed nodes |
| NodeSelections.EraseEachKeepsAscending | src/selection/NodeSelection.cpp:61-84 | erasing each listed node keeps a sorted list sorted |
| NodeSelections.AnswersMeaning | src/selection/NodeSelection.cpp:101-117 | on sorted lists, `canAnswer` holds iff one node is on the left and the other on the right, in either direction, so it is symmetric |
| NodeSelections.NodeSelection.constructor | src/selection/NodeSelection.cpp:11-23 | both lists end up sorted, each a permutation of its input, and the center is kept |
| NodeSelections.NodeSelection.Weight | src/selection/NodeSelection.cpp:26-30 | `weight` is the number of left-right pairs, when that fits in `std::size_t` |
| NodeSelections.NodeSelection.DeleteFromLeft | src/selection/NodeSelection.cpp:61-72 | the left list loses one occurrence of each listed node, in turn; it stays sorted and the right list is unchanged |
| NodeSelections.NodeSelection.DeleteFromRight | src/selection/NodeSelection.cpp:73-84 | the right list loses one occurrence of each listed node, in turn; it stays sorted and the left list is unchanged |
| NodeSelections.NodeSelection.IsSubSetOf | src/selection/NodeSelection.cpp:87-99 | `isSubSetOf` is true iff the other selection can answer every pair of a left node and a right node of this one |
| NodeSelections.SubSetIsReflexive | src/selection/NodeSelection.cpp:87-117 | a sorted selection is a subset of itself |
| NodeSelections.CanAnswerMeaning | src/selection/NodeSelection.cpp:101-117 | on a selection object, `canAnswer` is membership on opposite sides, and symmetric |
| SelectionBuckets.IndexLessIsStrictTotalOrder | src/selection/SelectionBucket.cpp:16-19 | `<` on indices is the strict total order `std::sort` needs |
| SelectionBuckets.Make | src/selection/SelectionBucket.cpp:12-20 | the constructor keeps the indices as a multiset, sorts them when asked, and leaves them untouched otherwise |
| SelectionBuckets.ContainsIsMembership | src/selection/SelectionBucket.cpp:56-62 | on a sorted bucket, `contains` is membership |
| SelectionBuckets.SubSetMeaning | src/selection/SelectionBucket.cpp:22-38 | against a sorted vector, `isSubSetOf` holds iff every selection of the bucket is in it |
| SelectionBuckets.SuperSetMeaning | src/selection/SelectionBucket.cpp:40-54 | for a sorted bucket, `isSuperSetOf` holds iff it contains every element of the other |
| SelectionBuckets.SuperSetIsConverseOfSubSet | src/selection/SelectionBucket.cpp:22-54 | on sorted buckets, a is a superset of c iff c is a subset of a |
| SelectionBuckets.GetCommonSelection | src/selection/SelectionBucket.cpp:64-82 | a returned selection is in both buckets; on sorted buckets it is the least shared one, and none is returned iff they are disjoint |
| SelectionBuckets.MergeIsIntersection | src/selection/SelectionBucket.cpp:84-90 | merging sorted buckets gives their sorted multiset intersection |
| SelectionBuckets.WithoutCounts | src/selection/SelectionBucket.cpp:98-108 | removing x drops every x and keeps every other occurrence |
| SelectionBuckets.WithoutKeepsSorted | src/selection/SelectionBucket.cpp:98-108 | removing keeps a sorted bucket sorted |
| SelectionBuckets.WithoutAbsent | src/selection/SelectionBucket.cpp:98-108 | excluding an absent selection changes nothing |
| SelectionBuckets.Exclude | src/selection/SelectionBucket.cpp:98-108 | the remove-erase loop keeps every selection but x, in order |
| SelectionBuckets.GetFirstIndex | src/selection/SelectionBucket.cpp:110-118 | none iff the bucket is empty, otherwise the front selection |
| SelectionBuckets.GetLastIndex | src/selection/SelectionBucket.cpp:120-128 | none iff the bucket is empty, otherwise the back selection |
| SelectionBuckets.FirstAndLastAreExtremes | src/selection/SelectionBucket.cpp:110-128 | on a sorted bucket, the first index is the least selection and the last the greatest |
| SelectionLookups.CountAtMeaning | src/selection/SelectionLookup.cpp:28-38 | on the graph, a node's index occurs among the indices of a list of nodes iff the node is in the list |
| SelectionLookups.EntriesAscending | src/selection/SelectionLookup.cpp:28-38 | each list the constructor builds holds selection indices in ascending order |
| SelectionLookups.EntriesMeaning | src/selection/SelectionLookup.cpp:28-38 | selection i is listed at a node's index iff it holds the node on that side |
| SelectionLookups.AddSelection | src/selection/SelectionLookup.cpp:29-37 | the inner loop appends i to the list at the index of each node of one side, one node after another |
| SelectionLookups.IndexStep | src/selection/SelectionLookup.cpp:28-38 | adding selection k's nodes to the index of the first k selections gives the index of the first k+1 |
| SelectionLookups.SelectionLookup.constructor | src/selection/SelectionLookup.cpp:21-39 | the two lists at each node's index are exactly the entries of the given selections, one list per side |
| SelectionLookups.SelectionLookup.ListsMeaning | src/selection/SelectionLookup.cpp:21-39 | at a node's index, i is on the left list iff selection i holds the node on its left, likewise on the right, and both lists are ascending |
| SelectionLookups.SelectionLookup.GetOneCommonSelection | src/selection/SelectionLookup.cpp:82-103 | a returned index is on both lists; on ascending lists none is returned iff they share no index |
| SelectionLookups.SelectionLookup.AllCommonIndicesMeaning | src/selection/SelectionLookup.cpp:51-67 | the concatenated intersections hold exactly the indices of the selections that can answer a query between the two nodes |
| SelectionLookups.SelectionLookup.GetAllCommonSelection | src/selection/SelectionLookup.cpp:51-80 | every selection returned can answer the query, and every selection that can is returned |
| SelectionLookups.CountSizes | src/selection/SelectionLookup.cpp:118-129 | the counting loop adds, for each walkable node in iteration order, one to the count of its list's size |
| SelectionLookups.WalkableSizesCount | src/selection/SelectionLookup.cpp:118-129 | the loop records one size per walkable node, so the counts add up to the number of walkable nodes |
| SelectionLookups.CountOneMore | src/selection/SelectionLookup.cpp:122-128 | setting an absent count to one or incrementing a present one counts the size once more |
| SelectionLookups.SelectionLookup.GetSizeDistributionLeft | src/selection/SelectionLookup.cpp:114-132 | each size's count is the number of walkable nodes whose left list has that size, and only those sizes appear |
| SelectionLookups.SelectionLookup.GetSizeDistributionRight | src/selection/SelectionLookup.cpp:134-153 | each size's count is the number of walkable nodes whose right list has that size, and only those sizes appear |
| SelectionLookups.SelectionLookup.GetSizeDistributionTotal | src/selection/SelectionLookup.cpp:155-186 | each size's count is the number of left lists plus the number of right lists of walkable nodes with that size |
| Separations.SwitchSides | src/separation/Separation.cpp:51-59 | switching swaps the clusters and, for a complex separation, the centers; the kind and the center distance stay |
| Separations.SwitchSidesIsInvolution | src/separation/Separation.cpp:303-311 | switching sides twice gives back the separation |
| Separations.EqualMeansSameClusterPair | src/separation/Separation.cpp:248-261 | `==` holds iff the two separations have the same unordered pair of clusters; it is reflexive and symmetric, a separation equals its switched sides, and `!=` is its negation |
| Separations.Weight | src/separation/Separation.cpp:282-287 | the weight is the product of the cluster sizes when that fits in `std::size_t` |
| Separations.WeightIgnoresSides | src/separation/Separation.cpp:264-287 | switching sides keeps the weight and the `<` order; `<` is irreflexive and transitive |
| Separations.SuperSetIsConverseOfSubSet | src/separation/Separation.cpp:205-229 | `isSuperSetOf(a, b)` iff `isSubSetOf(b, a)`; both are reflexive, and switching sides does not change `isSubSetOf` |
| Separations.CanAnswerMeaning | src/separation/Separation.cpp:231-245 | for valid clusters, `canAnswer` holds iff one node is in each cluster; it is symmetric in the nodes and unchanged by switching sides |
| Separations.MinDistanceFrom | src/separation/Separation.cpp:330-337 | the inner accumulate is at most UNREACHABLE and at most every distance from the node, and it is one of them unless it is UNREACHABLE |
| Separations.MinDistanceBetween | src/separation/Separation.cpp:325-340 | the outer accumulate is at most every pairwise distance, and it is one of them unless it is UNREACHABLE |
| Separations.SmallestDistance | src/separation/Separation.cpp:313-320 | the smallest distance of a complex separation is its stored center distance, with no search over the clusters |
| Separations.SmallestDistanceMeaning | src/separation/Separation.cpp:313-341 | for a trivial separation, the smallest distance bounds the trivial distance of every pair of cluster nodes from below, and is attained by one pair unless it is UNREACHABLE |
| WellSeparationCheckers.CenterPairIsUnique | include/separation/WellSeparationChecker.hpp:34-44 | at most one pair is the one the strict-`<` scan keeps: the scan order decides between equally close pairs |
| WellSeparationCheckers.ScanStep | include/separation/WellSeparationChecker.hpp:36-43 | scanning a pair replaces the kept pair iff its distance is strictly below the least so far |
| WellSeparationCheckers.RowDone | include/separation/WellSeparationChecker.hpp:35-44 | after the last pair of a row the scan continues with the next row |
| WellSeparationCheckers.ScanResult | include/separation/WellSeparationChecker.hpp:34-66 | once first × second is scanned, a kept pair is the center pair, and when none is kept there is no center pair |
| WellSeparationCheckers.ScanRow | include/separation/WellSeparationChecker.hpp:35-44 | the inner loop scans one row, never raising the least distance, and keeps the kept pair when it finds nothing closer |
| WellSeparationCheckers.RunningCandidatesMeaning | include/separation/WellSeparationChecker.hpp:51-57 | the running candidates are ascending and hold exactly the nodes reported after every source so far |
| WellSeparationCheckers.IntersectKeepsAscending | include/separation/WellSeparationChecker.hpp:56-57 | intersecting ascending node lists gives an ascending list |
| WellSeparationCheckers.NoCommonCandidate | include/separation/WellSeparationChecker.hpp:58-60 | when the running candidates run out, no node is reported after every source |
| WellSeparationCheckers.CenterFound | include/separation/WellSeparationChecker.hpp:51-70 | when the running candidates survive every source, some node is common to all reports, and the kept pair (present iff the least distance is below UNREACHABLE) is the center pair |
| WellSeparationCheckers.ScanEnd | include/separation/WellSeparationChecker.hpp:64-70 | at the end of the scan, the kept pair with its distance, or none when nothing was kept, is exactly the result `findCenterCandidates` promises |
| WellSeparationCheckers.FindCenterCandidates | include/separation/WellSeparationChecker.hpp:16-71 | over the nodes of the two cells in iteration order: a result is returned iff some pair is closer than UNREACHABLE and some node is reported after every source; it is then the center pair with its distance |
| WellSeparationCheckers.DistancesTo | include/separation/WellSeparationChecker.hpp:100-115 | the k-th collected distance is the distance from the k-th node of the cell to its center |
| WellSeparationCheckers.AllPairsPass | include/separation/WellSeparationChecker.hpp:118-149 | the pair loop succeeds iff every pair passes: an UNREACHABLE leg forces an UNREACHABLE direct distance, otherwise the direct distance is at least the distance over both centers |
| WellSeparationCheckers.CheckSeparation | include/separation/WellSeparationChecker.hpp:73-156 | none when one cell contains the other; a result is the complex separation of the two cells over the center pair at its distance, with every pair routing over the centers; none otherwise only when there is no common candidate or some pair fails to route over every center pair |
| ViewerGraphs.RowsOfAppend | UI/python/graph.py:5-9 | reading two runs of lines one after the other gives their rows one after the other |
| ViewerGraphs.RowsMeaning | UI/python/graph.py:5-9 | every row comes from a line holding '@' or '.', every such line gives a row (never empty), and a row is walkable exactly at the '.' characters of its line |
| ViewerGraphs.FirstRow | UI/python/graph.py:5-9 | the first row is made of the first line holding '@' or '.' |
| ViewerGraphs.NoGridLines | UI/python/graph.py:6-7 | lines without '@' and '.' give no rows |
| ViewerGraphs.PyIndex | UI/python/graph.py:13-16 | a Python index that does not raise IndexError lands inside the list |
| ViewerGraphs.Graph.constructor | UI/python/graph.py:2-9 | `nodes` holds one row per line with '@' or '.', in file order |
| ViewerGraphs.IsWalkableMeaning | UI/python/graph.py:11-16 | inside the grid `is_walkable` reads the cell; past the last row or column it is false; a negative index counts from the back; so it is true only at a '.' cell |
| ViewerGraphs.Graph.Width | UI/python/graph.py:18-19 | `width` is the length of the first row, and raises (none) iff there are no rows |
| ViewerGraphs.ParsedGraphShape | UI/python/graph.py:2-22 | a grid read from lines is as wide as its first kept line, newline included, so never zero wide, and has at least one row |
| ViewerGraphs.RemoveSpacesOfAppend | UI/python/graph.py:33 | `replace(' ', '')` of a concatenation is the concatenation of the parts' results |
| ViewerGraphs.RemoveSpacesWithoutSpaces | UI/python/graph.py:33 | text without spaces is left as it is |
| ViewerGraphs.Split | UI/python/graph.py:33 | `split(',')` yields at least one piece |
| ViewerGraphs.SplitWithoutComma | UI/python/graph.py:33 | text without a comma splits into itself alone |
| ViewerGraphs.SplitPair | UI/python/graph.py:33 | two comma-free pieces joined by a comma split back into the two pieces |
| ViewerGraphs.Decimal | src/selection/NodeSelection.cpp:124-129 | the decimal text written for a number is one or more digits |
| ViewerGraphs.DecimalRoundTrip | UI/python/graph.py:34 | `int` of the digits written for n is n, and of a minus sign and those digits is −n |
| ViewerGraphs.TagsAreExclusive | UI/python/graph.py:32-40 | a line starts with at most one of the three tags, so the three separate `if`s act like one choice |
| ViewerGraphs.ParseSkipsOtherLines | UI/python/graph.py:31-40 | lines carrying none of the three tags are ignored wherever they stand |
| ViewerGraphs.ParseStopsAt | UI/python/graph.py:33-40 | once a coordinate fails to parse, the whole file fails |
| ViewerGraphs.NodeSelection.constructor | UI/python/graph.py:27-29 | the three lists start empty |
| ViewerGraphs.NodeSelection.Read | UI/python/graph.py:30-40 | reading succeeds iff every tagged line's coordinate parses; each coordinate is then appended to its tag's list, in file order |
| ViewerGraphs.DecimalHasNoSeparators | src/selection/NodeSelection.cpp:124-129 | written numbers hold no space and no comma |
| ViewerGraphs.CompactLine | UI/python/graph.py:33 | removing the spaces of a written line leaves tag, colon, parenthesis, row, comma, column, parenthesis, newline |
| ViewerGraphs.SliceCompact | UI/python/graph.py:33 | cutting the tag, the colon and the parenthesis in front and the last two characters leaves row, comma, column |
| ViewerGraphs.ParseNodeLine | UI/python/graph.py:33-34 | each line `toFile` writes is read back as the node's row and column |
| ViewerGraphs.NodeLineTags | UI/python/graph.py:32-40 | a written line is routed by exactly the tag it was written with |
| ViewerGraphs.ReadNodeLine | UI/python/graph.py:32-40 | reading one written line appends its node to the list of its tag |
| ViewerGraphs.ParseLinesFor | src/selection/NodeSelection.cpp:123-128 | reading a run of lines of one tag appends their nodes to that list, in order |
| ViewerGraphs.ParseOneMore | UI/python/graph.py:31-40 | reading one more line is one more step of the loop |
| ViewerGraphs.ParseReadsToFile | src/selection/NodeSelection.cpp:119-130 | the viewer reads back what `toFile` writes: the left and right nodes in their order, and the center as the only center |
| ViewerViews.ScaleFactorMeaning | UI/python/view.py:17 | the scale is at least 3; it is 3 iff four squares of the larger side exceed 650 pixels; otherwise it is the largest square side for which the larger side fits in 650 pixels |
| ViewerViews.CanvasWidthMeaning | UI/python/view.py:25 | the canvas is 1 to 900 pixels wide, cut short only down to 900, and with a scale above 3 it is the whole graph's width, at most 650 |
| ViewerViews.SquaresTile | UI/python/view.py:44-50 | each node's square has the scale as its side, and the squares of different nodes do not overlap |
| ViewerViews.SquareOfOneNode | UI/python/view.py:44-50 | with a positive scale, a square's corner belongs to one node only |
| ViewerViews.FinalFillOfAppend | UI/python/view.py:33-36 | drawing more shows the later fill wherever the later squares reach |
| ViewerViews.FinalFillOfSquares | UI/python/view.py:44-50 | after a run of node squares, a listed node shows the fill of one of its squares, and an unlisted node shows nothing from the run |
| ViewerViews.RowSquaresFill | UI/python/view.py:54-59 | a row's squares show each of its cells white when walkable and gray otherwise, and nothing else |
| ViewerViews.GridSquaresFill | UI/python/view.py:52-59 | the grid shows every cell of every row white or gray by walkability, and nothing outside the rows |
| ViewerViews.DrawGraph | UI/python/view.py:52-59 | `draw_graph` draws a square per cell, row by row and left to right |
| ViewerViews.SameFillSquares | UI/python/view.py:62-71 | the squares of left (or right) nodes show each node in its side's light colour when walkable and dark colour otherwise, and nothing elsewhere |
| ViewerViews.RedSquares | UI/python/view.py:72-73 | the centers' squares show red at every center and nothing elsewhere |
| ViewerViews.DrawSelection | UI/python/view.py:61-73 | `draw_selection` draws the left nodes, then the right nodes, then the centers, each coloured by its rule |
| ViewerViews.DrawModel | UI/python/view.py:33-36 | `draw_model` draws the grid, then the selection over it |
| ViewerViews.ModelFill | UI/python/view.py:33-73 | in the finished picture, a center is red; a right node is deepskyblue or navy; a left-only node is springgreen or darkgreen, each by walkability; other grid cells are white or gray; and a node in no list and outside the grid shows nothing |
| Dijkstras.GetIndex | src/pathfinding/Dijkstra.cpp:64-79 | an index exists only for rows below the height and columns below the width, and then falls inside the state vectors |
| Dijkstras.GetIndexIsInjective | src/pathfinding/Dijkstra.cpp:64-79 | `getIndex` is defined exactly on the nodes of the grid and gives different nodes different indices |
| Dijkstras.Dijkstra.constructor | src/pathfinding/Dijkstra.cpp:18-23 | one entry per node: every distance UNREACHABLE, nothing settled, every predecessor NOT_REACHABLE, no last source; the invariant holds |
| Dijkstras.Dijkstra.SetDistanceTo | src/pathfinding/Dijkstra.cpp:94-102 | the node's distance is replaced when it has an index; everything else stays |
| Dijkstras.Dijkstra.Settle | src/pathfinding/Dijkstra.cpp:205-213 | the node's flag is set when it has an index; everything else stays |
| Dijkstras.Dijkstra.UnSettle | src/pathfinding/Dijkstra.cpp:195-203 | the node's flag is cleared when it has an index; everything else stays |
| Dijkstras.Dijkstra.SetBefore | src/pathfinding/Dijkstra.cpp:316-321 | the node's predecessor is replaced; the node must be in the grid since the index is unchecked |
| Dijkstras.Dijkstra.Reset | src/pathfinding/Dijkstra.cpp:182-193 | after the loop over the touched nodes no node's entries differ from a fresh object's; touched list and queue are empty |
| Dijkstras.Dijkstra.Restart | src/pathfinding/Dijkstra.cpp:276-282 | a new source: the state is reset, the source alone is at distance 0 and queued, nothing is settled, and the invariant holds |
| Dijkstras.Dijkstra.RelaxEdge | src/pathfinding/Dijkstra.cpp:303-308 | an improvement touches the neighbour, gives it the popped distance plus one, queues it and records the popped node as its predecessor |
| Dijkstras.Dijkstra.RelaxNeigbours | src/pathfinding/Dijkstra.cpp:297-309 | after the neighbour loop every walkable neighbour is at most one step farther than the popped node, the invariant is back, and the sum of distances fell or the queue is unchanged |
| Dijkstras.Dijkstra.SearchStep | src/pathfinding/Dijkstra.cpp:284-309 | one pass settles the top node; at the target it returns the target's stored, finite distance; otherwise the search makes progress |
| Dijkstras.Dijkstra.ComputeDistance | src/pathfinding/Dijkstra.cpp:261-313 | UNREACHABLE with nothing changed at a barrier; otherwise the target's stored distance for this source; when the same source was searched last and the target is already settled, the state is kept and the old stored distance returned; a finite answer has a walk from the source no longer than it; UNREACHABLE means no walk from the source reaches the target |
| Dijkstras.WalkBoundsDistance | src/pathfinding/Dijkstra.cpp:284-312 | once the queue is empty, every node on a walk from the source is no farther than its position on the walk |
| Dijkstras.ChainTo | src/pathfinding/Dijkstra.cpp:303-308 | the recorded predecessors trace a walk from the last source to any reached node, with no more steps than its distance |
| Dijkstras.TopIndex | src/pathfinding/Dijkstra.cpp:285 | the top of the queue has the smallest distance in it |
| Dijkstras.Dijkstra.ExtractShortestPath | src/pathfinding/Dijkstra.cpp:161-179 | none iff the target's distance is UNREACHABLE; otherwise the path of recorded predecessors from the source to the target |
| Dijkstras.FollowBeforePrepends | src/pathfinding/Dijkstra.cpp:171-176 | the loop as written, when it ends at the source, has only put nodes in front of the partial path |
| Dijkstras.FollowBeforeTracesChain | src/pathfinding/Dijkstra.cpp:169-178 | after a search from the requested source the loop ends within the target's distance in steps, with the predecessor walk |
| Dijkstras.ChainLinks | src/pathfinding/Dijkstra.cpp:169-178 | along the walk traced back from a reached node, every node after the first is an inside node other than the source whose recorded predecessor is the node before it |
| Dijkstras.FollowChain | src/pathfinding/Dijkstra.cpp:169-178 | following `before_` from the last node of a predecessor chain that starts at the source, with a step of fuel per link, gives back the whole chain in front of the partial path |
| Dijkstras.StaleRouteReadsOutOfRange | src/pathfinding/Dijkstra.cpp:33-38 | on `..@`, after a route from (0, 0), a route from the barrier (0, 2) to (0, 1) walks past (0, 0) and reads the predecessor table outside the grid |
| Dijkstras.Dijkstra.FindRoute | src/pathfinding/Dijkstra.cpp:33-38 | with the search's answer checked first: a route is a walk from source to target, and none means no walk joins them |
| Dijkstras.TrivialDistanceIsManhattan | src/pathfinding/Dijkstra.cpp:46-62 | UNREACHABLE exactly when an endpoint is a barrier, otherwise the Manhattan distance; symmetric, and zero exactly from a walkable node to itself |
| Dijkstras.WalkCoversManhattan | src/pathfinding/Dijkstra.cpp:46-62 | under the Manhattan calculator a walk of k steps moves at most k in Manhattan distance |
| Dijkstras.TrivialDistanceBoundsWalks | src/pathfinding/Dijkstra.cpp:46-62 | the trivial distance is a lower bound on every walk's length under the Manhattan calculator |
| Dijkstras.MinDistanceOver | src/pathfinding/Dijkstra.cpp:253-258 | the fold of `std::min` from UNREACHABLE is below every node's distance and is UNREACHABLE or attained |
| Dijkstras.Dijkstra.GetMinDistanceIn | src/pathfinding/Dijkstra.cpp:250-259 | over a valid cell: no larger than any node's distance, and a finite answer is some node's distance |
| Dijkstras.NodesAtDistance | src/pathfinding/Dijkstra.cpp:238-244 | `copy_if` keeps exactly the nodes at the given distance |
| Dijkstras.NodesAtDistanceAscending | src/pathfinding/Dijkstra.cpp:238-244 | `copy_if` keeps the nodes in ascending order |
| Dijkstras.Dijkstra.GetNodesWithMinDistanceIn | src/pathfinding/Dijkstra.cpp:227-247 | the nodes of a valid cell at the cell's least distance, all of them, in ascending order |

## Left out

- File input and output: opening files, `fmt::print`, the `try`/`catch` around parsing, `NodeSelection::toFile` (its lines are modelled as `ViewerGraphs.ToFileLines`, not the writing), `toFile`/`toSmallFile` of separations, `sizeDistribution3DToFile`, and `sizeToDistanceToFile`. The parsers are given the lines of the file.
- `SelectionLookup::sanityCheck` (src/selection/SelectionLookup.cpp:189-221) is not part of this model. It is a diagnostic outside the operations the model covers. It answers whether, for every node, the nodes reached through that node's selections number at least the walkable nodes other than the node itself and its walkable neighbours. It prints the first shortfall before answering false.
- The map file's header (`type`, `height`, `width`, `map`) is read with `>>`; `GridGraphs.ParseGridGraph` takes its width as a parameter and the lines after it.
- `GridGraphs.ParseGridGraph`: when no row is kept, the source builds a `GridGraph` from an empty vector and reads `grid[0]`, which is undefined behaviour; the model answers none there.
- Randomness: `generateRandomCellOfSize` and `getRandomWalkableNode` (src/graph/GridGraph.cpp:88-106,162-178).
- Concurrency: `findCommonNodes` in src/Path.cpp (a parallel reduction) and `collectFutures`/`await` in include/utils/Utils.hpp.
- Text rendering: `GridCell::to_string`, `separation::toString` and every `operator<<`.
- `GridCell::cacluclateOrientation` (src/graph/GridCell.cpp:202-230): nothing in the modelled files calls it.
- Plain accessors that return a field: the getters of `NodeSelection`, `SelectionBucket`, `Separation`, `GridCorner` and `Path::getNodes`, `SelectionBucket::size`, `Dijkstra::getGraph`. The model reads the fields directly.
- The second `SelectionLookup` constructor (src/selection/SelectionLookup.cpp:41-49) only stores its arguments. The overload of `getAllCommonSelection` on two index vectors (src/selection/SelectionLookup.cpp:105-112) is `utils::intersect`, modelled in `Utils`.
- `Dijkstra::findAllRoutes`, `extractAllShortestPaths` and `findSmallestDistance` (src/pathfinding/Dijkstra.cpp:26-31,104-159,330-347) enumerate all shortest paths with a priority queue of paths. They are outside the operations this model covers. `findDistance` is `computeDistance`.
- The `std::priority_queue` of Dijkstra is a sequence from which the first entry of least distance is taken; the library breaks ties between equal distances in an unspecified way.
- `graph::NOT_REACHABLE`, `GridGraph::nodeToIndex` and `GridGraph::size` are declared in headers that are not part of this model. They are taken as the node (SIZE_MAX, SIZE_MAX), `row * width + column` and `width * height`.
- `GridGraph::getTrivialDistance` is not part of this model. `Separations.SmallestDistance` takes it as the parameter `trivial`.
- The path finder behind `checkSeparation` is a template parameter. `findDistance` and `getNodesWithMinDistanceIn` are the parameters `dist` and `minNodes`.
- Vector indices and sizes in the selection modules are `nat`: no vector here reaches 2^64 entries.
- `WellSeparationCheckers.CheckSeparation`: the over-center sum of three finite `std::int64_t` distances is added on unbounded integers. The source's sum could overflow only for distances near 2^62.
- `Dijkstras.Dijkstra.ComputeDistance`: proved sound (a finite answer is witnessed by a walk no longer than it) and complete (UNREACHABLE means no walk). It is not proved to be the least walk length when the search stops early at the target.
- `GridCorners.LessIsTotalOn16Bit`: corner `<` is proved total only for coordinates below 2^16, the bits the masks keep; beyond them distinct corners can share a z-score (`GridCorners.ZScoreCollidesBeyond16Bits`).
- `ViewerGraphs.NodeSelection.Read`: a coordinate that `int` rejects raises `ValueError` in Python; here `Read` answers false. Python's `int` also accepts underscores, surrounding whitespace other than spaces and non-ASCII digits; the model accepts only an optional sign (`+` or `-`) and ASCII digits.
- Tk itself: the window, the scroll bars and the float `scrollregion` (UI/python/view.py:27-30). The canvas is the list of rectangles drawn, in order.
- `std::floor` on doubles in `GridCell::split`, `GridCell::operator[]` and `GridGraphIterator::getNodeAtIdx` (src/graph/GridGraphIterator.cpp:104-106) is modelled as exact integer division. `GridGraphIterators.NodeAtIdx` and `GridGraphIterators.NodeAtIdxInvertsNodeToIndex` therefore hold for the double computation only while idx + width <= 2^53; beyond that the rounded quotient can make the row one too large.

## Findings

| source | as written | input that shows it | evidently intended | confidence | as-written member | corrected member |
|---|---|---|---|---|---|---|
| src/graph/GridCell.cpp:168-180 | `getNodeAt` compares the column with both the width and the height and never checks the row | the 1×2 cell from (0,0) to (0,1): `getNodeAt(0, 1)` is none though (0,1) is in the cell, and `getNodeAt(5, 0)` gives (5,0), outside it | reject a row at or past the height and a column at or past the width | high, not executed | GridCells.GetNodeAtChecksTheWrongBound | GridCells.GetNodeAtCheckedIsInCell |
| src/graph/GridCell.cpp:88-100 | `isValid` does not require the left corners to share a column or the right corners to share a column, so `merge` does not undo `split` | the cell with corners (0,1), (0,2), (1,0), (1,1) | only rectangles are valid, and on them `merge` of `split` is the cell | medium, not executed | GridCells.MergeDoesNotUndoSplitOfSkewedCell | GridCells.MergeUndoesSplit |
| src/graph/GridGraph.cpp:124-132 | `hasBarrier` tests `isWalkableNode`, so it answers whether the cell has a walkable node | a 1×1 graph whose node is walkable: `hasBarrier` of its cell is true | true iff some node of the cell is a barrier | high, not executed | GridGraphs.HasBarrierAsWrittenReportsOpenCell | GridGraphs.HasBarrierIffCountBelowSize |
| src/pathfinding/Dijkstra.cpp:33-38 | `findRoute` ignores the answer of `computeDistance`. After a barrier source the state is still the previous source's, and `extractShortestPath` follows its predecessors without ever meeting the requested source | on `..@`: `findRoute((0,0), (0,1))`, then `findRoute((0,2), (0,1))` reads `before_` at the index of NOT_REACHABLE | return none when `computeDistance` answers UNREACHABLE | high, not executed | Dijkstras.StaleRouteReadsOutOfRange | Dijkstras.Dijkstra.FindRoute |
