# Multidimensional structures, modelled in Dafny

A Dafny model of the core of the Multidimensional Structures project: the
multi-level range tree, the k-d tree build, the balanced binary search tree,
the region helpers they share, and the min-hash / banding steps of
locality-sensitive hashing (LSH).

- `wrappers.dfy` (`Wrappers`): the `Option` type, which stands for Python's `None`.
- `sorting.dfy` (`Sorting`): a stable sort by key. It is a function `SortBy` and an
  in-place insertion sort over an array proved equal to it. It stands for
  `list.sort(key=...)` and `sorted(...)`. It also holds `SortedDistinct`, which
  is `sorted(set(...))`.
- `tools.dfy` (`Tools`):
  - the `Datapoint` record and `in_range`;
  - `calc_mbr`, `intersection`, `contained` and `intersects`;
  - the range tree's `Node` and `extract_leafs`.
- `rangetree.dfy` (`RangeTrees`): the range tree. It is built once and never changed, so
  the tree is a value. Build, `find_split_node`, `split_search`, `search`,
  `size` and `range_search` are functions. `range_search` also has a method
  form with its accumulation loop.
- `rangetree_facts.dfy` (`RangeTreeFacts`): the layout that `build` produces, and what
  `range_search` therefore reports (soundness). It also proves that the search
  ignores the order of the bounds, and why points that share their
  last coordinate collapse into one leaf.
- `rangetree_coverage.dfy` (`RangeTreeCoverage`): what `search` and `range_search` find.
  `search` finds exactly the stored points. `find_split_node` answers None
  exactly when nothing lies in the range. The candidates `split_search`
  collects cover the range. `range_search` is complete when no two points
  share their last coordinate.
- `rangetree_loss.dfy` (`RangeTreeLoss`): six points on one horizontal line
  for which `range_search` misses a point inside the region (see Findings).
- `kdtree.dfy` (`KdTrees`): the k-d tree build. It sorts the caller's list in place,
  so it is a method over an array, proved equal to the function `BuildKd`.
  Lemmas cover:
  - the points it stores;
  - the order on every node's axis;
  - depths and axes;
  - balance;
  - exactness: one node per point if and only if no split has a tie.
- `lsh.dfy` (`Lsh`): `shingle`, `gen_vocab`, `one_hot`, `sign_value`, `min_hash`,
  `split_signature` and `calc_candidate_pairs`, with:
  - the one-hot round trip;
  - the min-hash property;
  - the reshape round trip;
  - the exact layout of the candidate pair list.
- `bbstree.dfy` (`BBSTrees`): the balanced binary search tree. It is a linked
  structure whose nodes the source mutates, so `Node` and `BBSTree` are classes
  with `Repr` footprints. Each holds a ghost `Shape` value, which the lemmas
  reason about.

## Model

| member | source | states |
|---|---|---|
| Tools.NewDatapoint | tools.py:13-16 | a bare number becomes a one-element vector; a list is kept as the vector; the id is kept |
| Tools.InRange | tools.py:25-41 | the early-exit scan over the axes returns exactly whether the point lies within `[min, max]` of every axis of the region, and the answer is the same with each axis's bounds swapped |
| Tools.InRegion | tools.py:36-41 | the definition `in_range` answers: on every axis of the region the coordinate lies within `[min, max]` of that axis's two bounds (proved equal to the loop by `InRange`) |
| Tools.MinOf | tools.py:130 | `min` returns an element of the list that is no greater than any element |
| Tools.MaxOf | tools.py:131 | `max` returns an element of the list that is no smaller than any element |
| Tools.AxisVector | tools.py:129 | the comprehension has one entry per point: that point's coordinate on the axis |
| Tools.AxisBounds | tools.py:128-132 | the pair for one axis is ordered low to high and holds every point's coordinate on that axis |
| Tools.AxisBoundsTight | tools.py:128-132 | both bounds are attained by some point, so the bounding rectangle is minimal |
| Tools.CalcMbr | tools.py:116-134 | the loop returns one interval per dimension of the first point, equal to that axis's bounds, and every input point lies in the region |
| Tools.BoundsHoldPoints | tools.py:116-134 | any region made of the per-axis bounds contains every point |
| Tools.Intersection | tools.py:189-199 | the loop returns None at the first axis whose overlap is empty; otherwise it returns the list of per-axis overlaps |
| Tools.IntersectionOf | tools.py:189-199 | the definition `intersection` answers: None when some axis of `a` has no overlap with `b`, else the per-axis overlaps `[max of mins, min of maxes]` (its properties are in `IntersectionInside`, `IntersectionCommutes` and `IntersectionPoints`) |
| Tools.IntersectionInside | tools.py:189-199 | None exactly when some axis is apart; otherwise every axis of the result is ordered and lies inside both regions |
| Tools.IntersectionCommutes | tools.py:189-199 | for regions of equal dimension, the order of the arguments does not matter |
| Tools.IntersectionPoints | tools.py:189-199 | a point lies in both regions if and only if it lies in their intersection |
| Tools.Contained | tools.py:182-183 | `contained(a, b)`: the intersection equals `a` itself, list for list (characterised by `ContainedIff`) |
| Tools.ContainedIff | tools.py:182-183 | `contained(a, b)` holds if and only if every axis of `a` is written low to high and lies within `b`'s bounds on that axis |
| Tools.Intersects | tools.py:185-187 | `intersects(a, b)`: the intersection is not None (characterised by `IntersectsIff`) |
| Tools.IntersectsIff | tools.py:185-187 | `intersects(a, b)` holds if and only if some point lies in both regions |
| Tools.ExtractLeafs | tools.py:96-114 | the result holds exactly the leaves at or below the node; a leaf gives just itself |
| Tools.Node.IsLeaf | tools.py:52-61 | `is_leaf`: the node has neither a left nor a right child (tied to `extract_leafs` by `LeafIffOwnLeaf`) |
| Tools.LeafIffOwnLeaf | tools.py:96-114 | a node is a leaf if and only if `extract_leafs` returns just that node |
| Tools.LeftLeavesFirst | tools.py:107-114 | the leaves of an inner node come in order: as many as the left child has leaves, all under the left child, then the rest, all under the right child |
| Sorting.InsertSortedPerm | kdtree.py:50 | inserting one element into a list adds exactly that element to its multiset |
| Sorting.InsertSortedKeeps | kdtree.py:50 | inserting into a list sorted by the key keeps it sorted |
| Sorting.SortByPerm | kdtree.py:50 | the stable sort is a permutation of its input |
| Sorting.SortBySorted | kdtree.py:50 | the stable sort's output is ordered by the key |
| Sorting.InsertSortedAt | kdtree.py:50 | the position where the shifting loop stops is where the insertion puts the element |
| Sorting.InsertSortedStable | kdtree.py:50 | among the elements of any one key, the inserted element comes last and the others keep their order |
| Sorting.SortByStable | kdtree.py:50 | the sort is stable, as Python's is: for every key, the elements with that key come out in the order they went in |
| Sorting.SortInPlace | kdtree.py:50 | the in-place insertion sort leaves the array equal to the stable sort of its old contents |
| Sorting.InsertStep | kdtree.py:50 | one pass inserts `a[i]` into the sorted prefix and leaves the rest of the array unchanged |
| Sorting.InsertDistinct | rangetree.py:34-35 | inserting into a strictly increasing list keeps it strictly increasing and adds exactly that value |
| Sorting.SortedDistinct | rangetree.py:34-35 | `sorted(set(xs))` is strictly increasing and holds exactly the values of `xs` |
| RangeTrees.Values | rangetree.py:34-35 | the distinct coordinates on the axis, strictly increasing, each one the coordinate of some point; non-empty for non-empty input |
| RangeTrees.AtMost | rangetree.py:40 | the left points are exactly the points whose coordinate is at most the node value |
| RangeTrees.Above | rangetree.py:41 | the points not sent left are exactly those whose coordinate is above the node value |
| RangeTrees.AtMostShorter | rangetree.py:40 | a point above the node value makes the left list shorter than the subset |
| RangeTrees.AboveShorter | rangetree.py:41 | a point at most the node value makes the right list shorter than the subset |
| RangeTrees.SplitShrinks | rangetree.py:37-41 | with two or more distinct coordinates, both sides of the median split are shorter than the subset, so `build` terminates |
| RangeTrees.NewRangeTree | rangetree.py:14-18 | the constructor keeps the axis; dimensions come from the first point, or are 1 with no points; the tree is terminal exactly on the last axis; there is no root exactly when there are no points |
| RangeTrees.Build | rangetree.py:20-59 | `build` gives no node exactly for an empty subset; a node carries the tree's axis |
| RangeTrees.NodeSize | rangetree.py:225-241 | a node counts at least itself |
| RangeTrees.Size | rangetree.py:225-241 | `size()` is 0 exactly for a tree without a root |
| RangeTrees.BelowSize | rangetree.py:234-236 | a node below another is no larger |
| RangeTrees.BelowOk | rangetree.py:189-205 | every node below a well-shaped node is well-shaped: leaves of terminal trees and associated trees of the others are where `range_search` looks for them |
| RangeTrees.FindSplitNode | rangetree.py:141-155 | the split node, when found, is a node of the tree whose value lies in `[start, end]` |
| RangeTrees.SplitSearch | rangetree.py:103-125 | every subtree `split_search` returns lies below the node it starts from |
| RangeTrees.Candidates | rangetree.py:188-197 | every candidate subtree lies below the split node |
| RangeTrees.CandidatesFit | rangetree.py:184-197 | every candidate is no larger than the tree and keeps the shape the recursion needs |
| RangeTrees.Query | rangetree.py:157-206 | the value `range_search` returns: [] without a root or without a split node, otherwise the collection over the candidates of the split node, with each axis's bounds taken low to high (soundness in `RangeSearchSound`, completeness in `RangeSearchComplete`, bound order in `QuerySwap`) |
| RangeTrees.Collect | rangetree.py:198-205 | the value of the accumulation loop: the leaves of each candidate on a terminal axis, else the range search of its associated tree, in candidate order (its properties are in `CollectSound`, `CollectHas` and `CollectSwap`) |
| RangeTrees.RangeSearch | rangetree.py:157-206 | the method returns exactly the value `Query` specifies |
| RangeTrees.CollectResults | rangetree.py:198-205 | the loop over the candidate subtrees appends, in order, each one's leaves on a terminal axis or the range search of its associated tree otherwise, which is the value `Collect` specifies |
| RangeTrees.Search | rangetree.py:61-84 | `search` returns only a leaf whose datapoint's vector is the point searched for |
| RangeTrees.SearchFrom | rangetree.py:61-84 | the descent from a node returns only a leaf holding exactly the point searched for |
| RangeTreeCoverage.SearchFromFinds | rangetree.py:68-82 | the descent from the node built over a subset reaches the leaf of every point of the subset, when the subset agrees with the point on the axes already passed |
| RangeTreeCoverage.LeafFinds | rangetree.py:75-79 | at a leaf the descent enters the associated tree, which finds the point one axis further, or compares with the leaf's point, which is then the point searched for |
| RangeTreeCoverage.SearchFinds | rangetree.py:61-84 | `RangeTree(points, axis).search(p.vector)` finds every point `p` of the subset that agrees with the subset on the earlier axes |
| RangeTreeCoverage.SearchFromStored | rangetree.py:68-82 | what the descent from a node finds is a point stored at or below that node |
| RangeTreeCoverage.SearchStored | rangetree.py:61-84 | what `search` finds is a point the tree stores |
| RangeTreeCoverage.SearchExact | rangetree.py:61-84 | `RangeTree(points).search(v)` finds a leaf if and only if some input point has the coordinates `v` |
| RangeTreeCoverage.SplitNodeNone | rangetree.py:141-155 | `find_split_node` answers None if and only if no point of the tree lies in `[start, end]` on the axis |
| RangeTreeCoverage.SplitNodeLeafOrHit | rangetree.py:146-147 | where the descent stops at a node, it answers None exactly when no point of that node lies in the range |
| RangeTreeCoverage.SplitNodeStep | rangetree.py:148-153 | passing a node whose value lies outside the range, the descent goes on in the child over the half that holds every point of the range |
| RangeTreeCoverage.SplitNodeCovers | rangetree.py:141-155 | the split node is the node built over a subset holding every point of the range, so every node passed above it lies outside the range and no point of the range lies outside its subtree |
| RangeTreeCoverage.LeftWalkCovers | rangetree.py:103-125 | the left walk of `split_search`, over points at most `end`, reaches a subtree holding every point that is at least `start` |
| RangeTreeCoverage.RightWalkCovers | rangetree.py:103-125 | the right walk, over points at least `start`, reaches a subtree holding every point that is at most `end` |
| RangeTreeCoverage.CandidatesCover | rangetree.py:188-197 | below a split node in the range, every point of the range lies in the subset of one of the candidate subtrees |
| RangeTreeCoverage.CollectHas | rangetree.py:199-206 | the accumulation loop keeps everything any one candidate contributes |
| RangeTreeCoverage.TerminalLeafHolds | rangetree.py:37-57 | on the last axis, a point that shares its last coordinate with no other point is the point of one of the leaves `extract_leafs` lists |
| RangeTreeCoverage.QueryKeeps | rangetree.py:184-206 | what a candidate contributes (its leaves on the last axis, its associated tree's report otherwise) is in the result |
| RangeTreeCoverage.CandidateIn | rangetree.py:176-197 | a point of the subset in the range lies in the subset of a candidate collected below the split node |
| RangeTreeCoverage.QueryComplete | rangetree.py:157-206 | `RangeTree(points, axis).range_search(region)` reports the leaf of every point lying in the region from `axis` on that shares its last coordinate with no other point |
| RangeTreeCoverage.RangeSearchComplete | rangetree.py:157-206 | when no two points share their last coordinate, `range_search` reports the leaf of every input point inside the region |
| RangeTreeFacts.SepTreeOk | rangetree.py:14-59 | a tree with the build layout has the shape `range_search` relies on |
| RangeTreeFacts.SepNodeOk | rangetree.py:20-59 | a node with the build layout is well-shaped on its axis |
| RangeTreeFacts.NewRangeTreeSep | rangetree.py:14-18 | `RangeTree(points, axis)` has the build layout and stores only input points |
| RangeTreeFacts.AssembleSep | rangetree.py:53-57 | a node whose children, leaf point and associated tree have the layout has the layout, and stores only points of the subset |
| RangeTreeFacts.BuildParts | rangetree.py:31-59 | the node `build` makes has the following parts: the median distinct coordinate as its value; the first point as datapoint, with no children, when the subset shares one coordinate; children over the two halves otherwise; and an associated tree over the whole subset exactly below the last axis |
| RangeTreeFacts.LeafSep | rangetree.py:43-53 | a subset with one distinct coordinate becomes a laid-out leaf |
| RangeTreeFacts.BranchSep | rangetree.py:55-57 | a subset split at the median becomes a laid-out branch, once both halves are laid out |
| RangeTreeFacts.HalvesNonEmpty | rangetree.py:37-41 | with two or more distinct coordinates, both halves at the median are non-empty |
| RangeTreeFacts.Halves | rangetree.py:37-41 | both halves are non-empty, shorter than the subset and of the same dimension |
| RangeTreeFacts.BuildSep | rangetree.py:20-59 | `build` on a non-empty subset gives a node with the layout: left points at most the value, right points above it, leaves holding a point whose coordinate is the value, associated trees one axis on; it stores only subset points |
| RangeTreeFacts.BelowSep | rangetree.py:20-59 | a node below a laid-out node is laid out and stores a subset of its points |
| RangeTreeFacts.SplitSearchSound | rangetree.py:103-125 | given a walk where every point already lies on the far side of one bound, each subtree `split_search` returns is laid out and stores only points within `[start, end]` on the axis |
| RangeTreeFacts.CandidatesSound | rangetree.py:184-197 | below a split node whose value lies in the range, every candidate subtree stores only points within the range on the axis |
| RangeTreeFacts.QuerySound | rangetree.py:170-206 | on a laid-out tree, `range_search` returns only leaves that hold stored points lying in the region on this axis and every later one |
| RangeTreeFacts.CollectSound | rangetree.py:199-206 | the accumulation loop keeps the results sound when every subtree is sound |
| RangeTreeFacts.RangeSearchSound | rangetree.py:157-206 | `RangeTree(points).range_search(region)` returns only leaves holding input points that lie inside the region |
| RangeTreeFacts.QuerySwap | rangetree.py:176-182 | swapping the bounds of every axis of the region changes nothing in the result |
| RangeTreeFacts.CollectSwap | rangetree.py:199-206 | the accumulation loop also ignores the order of the bounds |
| RangeTreeFacts.Mirror | rangetree.py:105-109 | exchanging the children keeps each node's value and whether it is a leaf |
| RangeTreeFacts.SplitSearchMirror | rangetree.py:105-109 | the right walk of `split_search` is the left walk on the mirrored tree |
| RangeTreeFacts.EmptyTree | rangetree.py:31-32 | a tree over no points has no root, and `range_search` on it returns the empty list |
| RangeTreeFacts.LastAxisKeepsFirst | rangetree.py:43-45 | a terminal tree over points sharing their last coordinate is one leaf holding the first point, so `range_search` reports at most that point |
| RangeTreeLoss.RowAtMost | rangetree.py:40 | on points with strictly increasing x, the left list at the `k`-th x value is the first `k + 1` points |
| RangeTreeLoss.RowAbove | rangetree.py:41 | on points with strictly increasing x, the right list at the `k`-th x value is the points after the `k`-th |
| RangeTreeLoss.RowNode | rangetree.py:34-57 | `build` over such points puts the median x value at the node, the first half on the left and the rest on the right |
| RangeTreeLoss.LeftWalkOfThree | rangetree.py:103-125 | the left walk over a three-point tree in the range takes the leaves of the third, second and first points |
| RangeTreeLoss.RightWalkOfThree | rangetree.py:103-125 | the right walk over a three-point tree in the range takes the node of the first two points whole, then the leaf of the third |
| RangeTreeLoss.CandidatesOfSix | rangetree.py:184-197 | for six points on one line and a range holding them, the root is the split node and the candidates are the leaves of the third, second and first points, the node of the fourth and fifth, and the leaf of the sixth |
| RangeTreeLoss.PairNodeMisses | rangetree.py:43-51 | the associated tree of the node over the fourth and fifth points does not report the fifth |
| RangeTreeLoss.LeafMisses | rangetree.py:43-51 | a leaf on the x axis stores only points of its x value, so its associated tree reports no other point |
| RangeTreeLoss.CollectMisses | rangetree.py:199-206 | the accumulation loop reports a point only if some candidate's associated tree does |
| RangeTreeLoss.CandidatesMiss | rangetree.py:199-205 | no candidate's associated tree reports the fifth point |
| RangeTreeLoss.SixInARowMissesFifth | rangetree.py:157-206 | for six points on the line y = 5 and a region holding all of them, the fifth point lies in the region yet `range_search` never reports it |
| RangeTreeLoss.SixPointsLoseOne | rangetree.py:157-206 | `RangeTree([(1,5), …, (6,5)]).range_search([[1,6],[5,5]])` does not report `(5,5)` |
| KdTrees.NewNode | kdtree.py:15-20 | the node holds the point and depth, has no children, and splits on an axis of the point |
| KdTrees.Coord | kdtree.py:50-58 | a point's coordinate on an axis, as the sort key and the two filters read it; 0 past the end of the vector, which a uniform point set never reaches |
| KdTrees.Filter | kdtree.py:57-58 | a comprehension with a condition keeps exactly the elements that pass it |
| KdTrees.FilterCount | kdtree.py:57-58 | each element is kept as often as it occurs, or not at all |
| KdTrees.FilterShorter | kdtree.py:57-58 | a filter that rejects an element of the list returns a shorter list |
| KdTrees.FilterPrefix | kdtree.py:57 | a filter that can keep only the first `m` elements keeps at most `m` |
| KdTrees.FilterSuffix | kdtree.py:58 | a filter that drops the first `m` elements keeps at most the rest |
| KdTrees.Sorted | kdtree.py:49-50 | the sort on the level's axis is a permutation of the subset |
| KdTrees.Pivot | kdtree.py:52-53 | the median point is a point of the subset |
| KdTrees.LeftPoints | kdtree.py:57 | the points sent left are points of the subset, and fewer than the subset |
| KdTrees.RightPoints | kdtree.py:58 | the points sent right are points of the subset, and fewer than the subset |
| KdTrees.BuildKd | kdtree.py:45-63 | `build` gives no node exactly for an empty list |
| KdTrees.BuildStep | kdtree.py:49-58 | one build step: the median of the list sorted on axis `depth % dims`, the strictly smaller and strictly larger filters of the sorted list, each shorter than the subset |
| KdTrees.BuildKdUnfold | kdtree.py:55-61 | the node built is the median node at this depth, with the trees over the two sides as children |
| KdTrees.Build | kdtree.py:45-63 | the method sorts the caller's array in place by the level's axis (which the caller sees) and returns the tree `BuildKd` specifies |
| KdTrees.BuildFrom | kdtree.py:60-61 | building from a fresh comprehension list returns the tree `BuildKd` specifies |
| KdTrees.NewKdTree | kdtree.py:41-43 | the constructor takes its dimensions from the first point, or 1 with no points; it builds the root from the input and leaves the input sorted on axis 0 |
| KdTrees.CountPoints | kdtree.py:45-63 | the node count is the number of stored points |
| KdTrees.StepPoints | kdtree.py:52-58 | the median and the two sides use each point of the subset at most once |
| KdTrees.CountSplit | kdtree.py:57-58 | the median and the strictly-below and strictly-above multisets fit in the subset; they make it up if and only if the median occurs once and no other point shares its coordinate on the axis |
| KdTrees.SplitCounts | kdtree.py:57-58 | the two filters keep a point as often as it occurs exactly when it is strictly below (respectively above) the median |
| KdTrees.BuildKdPoints | kdtree.py:45-63 | the tree stores only input points, each at most as often as it occurs |
| KdTrees.BuildKdCount | kdtree.py:45-63 | the tree has at most as many nodes as there are input points |
| KdTrees.BuildKdOrdered | kdtree.py:57-61 | every point of a left subtree is strictly below its node on the node's axis, and every point of a right subtree is strictly above it |
| KdTrees.BuildKdLevels | kdtree.py:15-20 | depths count up from the root, and each node splits on `depth % dims` |
| KdTrees.SplitBalanced | kdtree.py:52-58 | the sides hold at most `(n-1)//2` and `n//2` points |
| KdTrees.StepSize | kdtree.py:52-58 | one step keeps at most all of the subset in the median and the two sides, and keeps all of it if and only if nothing ties with the median on the split axis |
| KdTrees.NoSplitTies | kdtree.py:45-61 | no tie with the median at any split of the build, following its recursion into `leftpoints` and `rightpoints` |
| KdTrees.BuildKdExact | kdtree.py:45-63 | the tree has one node per input point if and only if no split of the build has a tie; equally, it stores every input point exactly once if and only if no split has a tie |
| KdTrees.NoTiesSuffice | kdtree.py:52-58 | points that share no coordinate on any axis never tie at a split |
| Lsh.Window | lsh.py:10 | a window `text[i:i+k]` has exactly `k` characters |
| Lsh.SetOfSeqSize | lsh.py:11 | the set of a list has no more elements than the list |
| Lsh.Shingle | lsh.py:7-11 | the loop returns exactly the substrings of length `k`, at most `len(text) - k + 1` of them, and none when `k` exceeds the text's length |
| Lsh.GenVocab | lsh.py:13-15 | the vocabulary contains every shingle set and nothing else |
| Lsh.OneHot | lsh.py:17-20 | one entry per vocabulary word, 1 exactly when the word is in the shingle set |
| Lsh.OneHotRoundTrip | lsh.py:17-20 | the words a one-hot vector marks are the shingles that are in the vocabulary |
| Lsh.OneHotOverVocab | lsh.py:13-20 | over the generated vocabulary every document's shingle set is recovered exactly |
| Lsh.SignValue | lsh.py:22-25 | None exactly when no position is marked; otherwise it is the least permutation entry over the marked positions, and that entry is attained |
| Lsh.Union | lsh.py:22-25 | the element-wise "or" marks a position exactly when either vector does |
| Lsh.SignValueOfUnion | lsh.py:22-25 | the min-hash of a union is the smaller of the two min-hashes |
| Lsh.SignValuesAgree | lsh.py:22-25 | under a permutation without repeats, two min-hashes agree if and only if the union's minimising position is marked in both (the min-hash property) |
| Lsh.MinHash | lsh.py:35-39 | the loop returns one signature value per permutation, equal to `sign_value` for it; None exactly where `sign_value` fails on an all-zero vector |
| Lsh.SplitSignature | lsh.py:41-45 | the reshape succeeds exactly when `b > 0` divides the length; it gives `b` rows of width `len/b` |
| Lsh.SplitSignatureRoundTrip | lsh.py:41-45 | laying the bands end to end gives the signature back |
| Lsh.BandEntry | lsh.py:41-45 | entry `c` of band `r` is entry `r*w + c` of the signature (row-major order) |
| Lsh.BandMatch | lsh.py:53-57 | the inner loop's verdict: some band position holds equal bands in both signatures, over the shorter of the two as `zip` does |
| Lsh.Entry | lsh.py:51-58 | the entry appended for pair `(i, j)`: the id `names[i]-names[j]` and the band verdict |
| Lsh.PairsUpTo | lsh.py:47-59 | the list the loops build for the first `n` documents: row `i` appends the pairs `(i, j)` for `j < i` in order (its layout is in `PairsLength` and `PairAt`) |
| Lsh.TriangleFormula | lsh.py:49-50 | the double loop visits `n(n-1)/2` pairs |
| Lsh.PairsLength | lsh.py:47-59 | the candidate list has `n(n-1)/2` entries |
| Lsh.PairAt | lsh.py:47-59 | pair `(i, j)` with `j < i` sits at position `i(i-1)/2 + j`, with id `names[i]-names[j]` and its verdict |
| Lsh.CalcCandidatePairs | lsh.py:47-59 | the nested loops return exactly the list `PairsUpTo` specifies, one entry per pair `j < i`, in loop order |
| Lsh.OneBandCandidates | lsh.py:53-57 | with one band, two documents are candidates if and only if their signatures are equal |
| Lsh.EqualSignaturesAreCandidates | lsh.py:53-57 | documents with equal signatures are candidates, whatever the band count |
| BBSTrees.InOrder | BBSTree.py:43-52 | the symmetric order lists one value per node |
| BBSTrees.BuildShape | BBSTree.py:43-52 | the structure `buildStructure` makes: nothing for an empty list, else the element at `(n-1)//2` over the structures of `[:mid]` and `[mid+1:]` (its properties are in `BuildShapeInOrder`, `BuildShapeBounds` and `BuildShapeOrdered`) |
| BBSTrees.BuildShapeSplit | BBSTree.py:46-51 | the structure over a non-empty list has the lower median at its root and the structures over the two sides below it |
| BBSTrees.BuildShapeInOrder | BBSTree.py:43-52 | the symmetric order of the structure is the input list; it has one node per element and is balanced |
| BBSTrees.HalvesBounded | BBSTree.py:47-48 | a bound on a list bounds both parts around the median |
| BBSTrees.SortedHalves | BBSTree.py:46-48 | the parts of a sorted list around the median are sorted, and lie at most and at least the median |
| BBSTrees.BuildShapeBounds | BBSTree.py:43-52 | a bound on the list bounds every value of the structure built over it |
| BBSTrees.BuildShapeOrdered | BBSTree.py:43-52 | over a sorted list the structure is a binary search tree |
| BBSTrees.Attach | BBSTree.py:63-80 | where `insert` hangs a node: an empty tree becomes the node; a larger value goes right and any other goes left, until a missing child (its properties are in `AttachCounts`, `AttachBounds` and `InsertOrdered`) |
| BBSTrees.AttachCounts | BBSTree.py:63-80 | hanging a subtree adds exactly its nodes and its values |
| BBSTrees.AttachBounds | BBSTree.py:63-80 | hanging a subtree keeps any bound that the tree and the subtree both keep |
| BBSTrees.InsertOrdered | BBSTree.py:71-80 | inserting a leaf keeps search-tree order: greater values go right, the others go left |
| BBSTrees.InsertAll | BBSTree.py:54-56 | what `buildLeafs` does: insert a new leaf for each value, in list order (its properties are in `InsertAllCounts`) |
| BBSTrees.InsertAllCounts | BBSTree.py:54-56 | inserting a list adds one node per element and exactly the list's values, and keeps search-tree order |
| BBSTrees.CountInOrder | BBSTree.py:43-52 | occurrences in the tree are occurrences in its symmetric order |
| BBSTrees.BuildTree | BBSTree.py:58-61 | what `build` makes: the structure over the sorted list, with every sorted value inserted again as a leaf (its properties are in `BuildTreeFacts`) |
| BBSTrees.BuildTreeFacts | BBSTree.py:58-61 | after `build` the tree has two nodes per input value, each value occurs twice as often as in the input, and the tree is a binary search tree |
| BBSTrees.Node.constructor | BBSTree.py:11-15 | a new node of height 0 holds the value and the given children; its footprint and shape are made of theirs |
| BBSTrees.Node.IsLeaf | BBSTree.py:17-21 | a node is a leaf if and only if it has no subtree on either side |
| BBSTrees.Node.InsertBelow | BBSTree.py:71-80 | `insert` below a node hangs the new node where `Attach` puts it, and adds its nodes to the footprint |
| BBSTrees.Node.InsertRight | BBSTree.py:71-75 | the new node goes into the right subtree, or becomes the right child when there is none |
| BBSTrees.Node.InsertLeft | BBSTree.py:76-80 | the new node goes into the left subtree, or becomes the left child when there is none |
| BBSTrees.StillValid | BBSTree.py:50-51 | building the right subtree leaves the left one, with its invariant and shape, untouched |
| BBSTrees.BBSTree.constructor | BBSTree.py:37-41 | an empty or missing list gives no root; otherwise the tree is the one `build` gives |
| BBSTrees.BBSTree.BuildStructure | BBSTree.py:43-52 | `buildStructure` returns no node exactly for an empty list; otherwise it returns fresh, valid nodes spelling out the balanced structure over the list |
| BBSTrees.BBSTree.Insert | BBSTree.py:63-80 | an empty tree takes the new node as its root; otherwise the node is hung where `Attach` puts it |
| BBSTrees.BBSTree.BuildLeafs | BBSTree.py:54-56 | a new leaf is inserted for every value, in order |
| BBSTrees.BBSTree.Build | BBSTree.py:58-61 | `build` leaves the balanced structure over the sorted values, with every value inserted again as a leaf |

## Left out

- The quad tree, and everything the demos under `__main__` do (printing, plotting, reading files).
- `list_files`, `vectorize` and the NLTK/scikit-learn preprocessing: file I/O and foreign libraries.
- `gen_permutations` and the `LSH` driver: they depend on `random.shuffle`. The model takes the permutations as a parameter instead.
- `cosine_sim`, `jaccard_binary` and their `*_pairs` loops: floating point.
- The printing methods (`__str__`, `toString`, `printNode`, `printTree`).
- `KDTree.range_search`, `BBSTree.search` and `BBSTree.delete`. They are stubs that return nothing useful.
- Range tree points must all have as many coordinates as the first one (`Uniform`). The source does not check this. A shorter point may make it raise IndexError when an axis past its end is read, and a longer point is accepted and its extra coordinates are ignored. Neither case is modelled.
- RangeTrees.NewRangeTree: requires `axis` to be below the points' dimension. With a larger axis the source raises IndexError at `dp.vector[self.axis]`.
- RangeTrees.Query, RangeTrees.RangeSearch, RangeTrees.Search: require the tree to be well-shaped for the length of the region or point: every axis the tree and its associated trees split on is below that length (`TreeOk`). Longer regions and points are accepted, as in the source; only `RangeSearchSound`, `RangeSearchComplete` and `SearchExact` assume the length equals the dimension. With a shorter region or point the source may raise IndexError at `s_region[self.axis]` or `point[self.axis]`, but only when it reaches a tree on a missing axis. It returns [] or None first when a tree has no root, and `range_search` also returns [] when no split node is found before a missing axis is read. The requires excludes those early-exit inputs too, so they are not modelled.
- Tools.InRange: requires the region to be no longer than the vector. For a longer region the source may raise IndexError at `self.vector[axis]`, but only if every earlier axis lies in range: it returns False at the first axis that fails (tools.py:38-40). For example, the vector [10] with the region [[0,1],[0,1]] gives False. The requires excludes those early-exit inputs too.
- Tools.CalcMbr: requires a non-empty list of points of one dimension. The source raises IndexError at `datapoints[0]` on an empty list, and at `datapoint.vector[axis]` on a shorter point.
- Tools.Intersection: requires `region_a` to be no longer than `region_b`. Otherwise the source may raise IndexError at `region_b[axis]`, but only if every earlier axis overlaps: it returns None at the first axis without overlap (tools.py:196-197). For example, a=[[0,1],[0,1]] and b=[[5,6]] give None. The requires excludes those early-exit inputs too.
- KdTrees.NewNode: requires a non-empty vector. The source raises ZeroDivisionError at `depth % len(datapoint.vector)`.
- KdTrees.NewKdTree: requires non-empty vectors, all with as many coordinates as the first one. The source raises ZeroDivisionError when the first vector is empty. It may raise IndexError on a shorter point, but only when the build reads that point on a missing axis; a point dropped earlier as a tie is never read there. Longer points are accepted by the source. The requires excludes all of these inputs.
- `rightpoints` is modelled as the points whose coordinate is above the node value.
  - The source builds it as the points not in `leftpoints`, using Python equality. Since `Datapoint` defines no `__eq__`, that equality is object identity.
  - For distinct objects both definitions select the same points.
- KdTrees.Coord: the model returns 0 for an axis past the end of a vector. Under `Uniform` this never happens.
- BBSTree values are integers. The source compares them with `>` and sorts them, which works for any ordered Python values.
- BBSTrees.BBSTree.Insert: the model requires the new node to share no node with the tree. Inserting a node already in the tree creates a cycle in the source, and this aliasing is not modelled.
- BBSTrees.BBSTree.BuildStructure: the model creates each node after its children and passes them to the constructor. The source creates the node first and assigns its children afterwards.
  - The resulting objects are the same.
  - The `subroot` argument is always `None` there, so it is not modelled.
- BBSTrees.BBSTree.Insert: only insertion from the root is modelled. This is how `buildLeafs` calls it.
- A `BBSTree(None)` is treated as one over an empty list.
- Lsh.Shingle: a negative `k` is not modelled, because `k` is a `nat`.
- Lsh.OneHot: the vocabulary is a `set` in the source, and its iteration order is Python's. The model takes that order as a list parameter.
- Lsh.SignValue: an all-zero vector gives `None`. The source raises an error when it takes `min` of an empty array.
- Lsh.SignValue: requires the permutation to be at least as long as the one-hot vector. With a shorter permutation the source may raise IndexError at `permutation[indexes]`, but only when a marked index lies past its end. For example, the one-hot [1,0] with the permutation [3] gives 3. The requires excludes such inputs too.
- Lsh.MinHash: requires every permutation to be at least as long as the one-hot vector. A shorter permutation may make `sign_value` raise IndexError, as described for Lsh.SignValue, and the same inputs that would not raise are excluded too.
- Lsh.CalcCandidatePairs: requires a signature for every name. The source raises IndexError at `sign_matrix[i]` otherwise.
- Lsh.CalcCandidatePairs: numpy's `(a == b).all()` on two bands is modelled as sequence equality of bands of the same width (`SameWidth`). Broadcasting between bands of different widths is not modelled.
- Lsh.SplitSignature: the entries are stated one at a time, by `BandEntry` and the round trip `SplitSignatureRoundTrip`, rather than in its own contract.
- The `id` of a pair is `names[i] + "-" + names[j]` over names that are already strings. Python's `str()` of other values is not modelled.

## Findings

| source | as written | input that shows it | evidently intended | confidence | as-written member | corrected member |
|---|---|---|---|---|---|---|
| rangetree.py:43-45 | A subset whose points all share their last coordinate becomes one terminal leaf holding only `datapoints[0]`. `range_search` collects such a subset whole (rangetree.py:199-205), so it reports only that first point. | The points (1,5), (2,5), (3,5), (4,5), (5,5), (6,5) and the region [[1,6],[5,5]]. The right walk takes the node over (4,5) and (5,5) whole, and its associated tree is a single leaf holding (4,5). The point (5,5) lies in the region and is never reported. | `range_search` reports every input point inside the region. The build assumes distinct datapoints (rangetree.py:22), and completeness holds when no two points share their last coordinate. | not executed | RangeTreeLoss.SixPointsLoseOne | RangeTreeCoverage.RangeSearchComplete |
