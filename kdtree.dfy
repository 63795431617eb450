/**
 * The k-d tree build (kdtree.py).
 *
 * A node holds the median point of its subset on the axis `depth % dimensions`
 * (after sorting the subset by that coordinate); the points strictly below it
 * on that axis form the left subtree and those strictly above form the right
 * one, so the other points that tie with the median are dropped. The build
 * sorts the list it is given in place, so it is a method over an array,
 * proved equal to the function `BuildKd`.
 */
module KdTrees {
  import opened Wrappers
  import opened Sorting
  import opened Tools

  /** `Node`: its point, children, depth and the axis it splits on. */
  datatype KdNode = KdNode(datapoint: Datapoint, left: Option<KdNode>, right: Option<KdNode>, depth: nat, axis: nat)

  /** `KDTree`: the number of dimensions and the root. */
  datatype KdTree = KdTree(dimensions: nat, root: Option<KdNode>)

  /** `Node(datapoint, depth=depth)`: a childless node on axis `depth % len(vector)`. */
  function NewNode(dp: Datapoint, depth: nat): (node: KdNode)
    requires |dp.vector| > 0
    ensures node.datapoint == dp && node.depth == depth
    ensures node.left.None? && node.right.None?
    ensures node.axis < |dp.vector|
  {
    KdNode(dp, None, None, depth, depth % |dp.vector|)
  }

  /** A point's coordinate on `axis` (0 past its last axis, which a uniform
      point set never reaches). */
  function Coord(dp: Datapoint, axis: nat): int
  {
    if axis < |dp.vector| then dp.vector[axis] else 0
  }

  /** The sort key `lambda x: x.vector[axis]`. */
  function AxisKey(axis: nat): Datapoint -> int
  {
    dp => Coord(dp, axis)
  }

  /** The filter `datapoint.vector[axis] < value`. */
  function Under(axis: nat, value: int): Datapoint -> bool
  {
    dp => Coord(dp, axis) < value
  }

  /** The filter `datapoint.vector[axis] > value`. */
  function Over(axis: nat, value: int): Datapoint -> bool
  {
    dp => Coord(dp, axis) > value
  }

  /** A list comprehension with a condition: keeps order. */
  function Filter(s: seq<Datapoint>, keep: Datapoint -> bool): (r: seq<Datapoint>)
    ensures |r| <= |s|
    ensures forall x :: x in r <==> x in s && keep(x)
  {
    if s == [] then []
    else
      assert forall x :: x in s <==> x == s[0] || x in s[1..];
      (if keep(s[0]) then [s[0]] else []) + Filter(s[1..], keep)
  }

  /** Each element is kept as often as it occurs, or not at all. */
  lemma {:induction false} FilterCount(s: seq<Datapoint>, keep: Datapoint -> bool, x: Datapoint)
    ensures multiset(Filter(s, keep))[x] == if keep(x) then multiset(s)[x] else 0
  {
    if s != [] {
      FilterCount(s[1..], keep, x);
      assert s == [s[0]] + s[1..];
    }
  }

  /** A filter that drops an element of `s` is shorter than `s`. */
  lemma {:induction false} FilterShorter(s: seq<Datapoint>, keep: Datapoint -> bool, x: Datapoint)
    requires x in s && !keep(x)
    ensures |Filter(s, keep)| < |s|
  {
    if s[0] != x {
      FilterShorter(s[1..], keep, x);
    }
  }

  /** A filter that can only keep the first `m` elements keeps at most `m`. */
  lemma {:induction false} FilterPrefix(s: seq<Datapoint>, keep: Datapoint -> bool, m: nat)
    requires forall k :: m <= k < |s| ==> !keep(s[k])
    ensures |Filter(s, keep)| <= m
  {
    if s != [] {
      if m == 0 {
        FilterPrefix(s[1..], keep, 0);
      } else {
        FilterPrefix(s[1..], keep, m - 1);
      }
    }
  }

  /** A filter that drops the first `m` elements keeps at most the rest. */
  lemma {:induction false} FilterSuffix(s: seq<Datapoint>, keep: Datapoint -> bool, m: nat)
    requires m <= |s|
    requires forall k :: 0 <= k < m ==> !keep(s[k])
    ensures |Filter(s, keep)| <= |s| - m
  {
    if m > 0 {
      FilterSuffix(s[1..], keep, m - 1);
    }
  }

  /** The sorted subset, its median index and the median point of one build step. */
  function Sorted(points: seq<Datapoint>, depth: nat, dims: nat): (sorted: seq<Datapoint>)
    requires dims > 0
    ensures |sorted| == |points| && multiset(sorted) == multiset(points)
  {
    SortByPerm(points, AxisKey(depth % dims));
    SortBy(points, AxisKey(depth % dims))
  }

  /** The median point `datapoints[(len-1)//2]` after the sort. */
  function Pivot(points: seq<Datapoint>, depth: nat, dims: nat): (pivot: Datapoint)
    requires dims > 0 && points != []
    ensures pivot in points
  {
    var sorted := Sorted(points, depth, dims);
    assert sorted[(|sorted| - 1) / 2] in multiset(points);
    sorted[(|sorted| - 1) / 2]
  }

  /** The points sent left: strictly below the median on the axis. */
  function LeftPoints(points: seq<Datapoint>, depth: nat, dims: nat): (left: seq<Datapoint>)
    requires dims > 0 && points != []
    ensures |left| < |points|
    ensures forall p :: p in left ==> p in points
  {
    var axis := depth % dims;
    var sorted := Sorted(points, depth, dims);
    var pivot := Pivot(points, depth, dims);
    FilterShorter(sorted, Under(axis, Coord(pivot, axis)), pivot);
    assert forall p :: p in sorted ==> p in multiset(points);
    Filter(sorted, Under(axis, Coord(pivot, axis)))
  }

  /** The points sent right: strictly above the median on the axis. */
  function RightPoints(points: seq<Datapoint>, depth: nat, dims: nat): (right: seq<Datapoint>)
    requires dims > 0 && points != []
    ensures |right| < |points|
    ensures forall p :: p in right ==> p in points
  {
    var axis := depth % dims;
    var sorted := Sorted(points, depth, dims);
    var pivot := Pivot(points, depth, dims);
    FilterShorter(sorted, Over(axis, Coord(pivot, axis)), pivot);
    assert forall p :: p in sorted ==> p in multiset(points);
    Filter(sorted, Over(axis, Coord(pivot, axis)))
  }

  /** What `KDTree.build(datapoints, depth)` returns. */
  function BuildKd(points: seq<Datapoint>, depth: nat, dims: nat): (t: Option<KdNode>)
    requires dims > 0 && Uniform(points, dims)
    ensures t.None? <==> points == []
    decreases |points|
  {
    if points == [] then None
    else
      var pivot := Pivot(points, depth, dims);
      assert |pivot.vector| == dims;
      var node := NewNode(pivot, depth);
      Some(node.(left := BuildKd(LeftPoints(points, depth, dims), depth + 1, dims),
                 right := BuildKd(RightPoints(points, depth, dims), depth + 1, dims)))
  }

  /** One unfolding of `BuildKd`, with the pieces it is made of. */
  lemma BuildStep(points: seq<Datapoint>, depth: nat, dims: nat)
    returns (pivot: Datapoint, left: seq<Datapoint>, right: seq<Datapoint>)
    requires dims > 0 && Uniform(points, dims) && points != []
    ensures pivot == SortBy(points, AxisKey(depth % dims))[(|points| - 1) / 2]
    ensures left == Filter(SortBy(points, AxisKey(depth % dims)), Under(depth % dims, Coord(pivot, depth % dims)))
    ensures right == Filter(SortBy(points, AxisKey(depth % dims)), Over(depth % dims, Coord(pivot, depth % dims)))
    ensures Uniform(left, dims) && Uniform(right, dims) && |pivot.vector| == dims
    ensures |left| < |points| && |right| < |points|
  {
    pivot := Pivot(points, depth, dims);
    left := LeftPoints(points, depth, dims);
    right := RightPoints(points, depth, dims);
  }

  lemma BuildKdUnfold(points: seq<Datapoint>, depth: nat, dims: nat, pivot: Datapoint,
                      leftChild: Option<KdNode>, rightChild: Option<KdNode>)
    requires dims > 0 && Uniform(points, dims) && points != []
    requires pivot == Pivot(points, depth, dims)
    requires leftChild == BuildKd(LeftPoints(points, depth, dims), depth + 1, dims)
    requires rightChild == BuildKd(RightPoints(points, depth, dims), depth + 1, dims)
    ensures BuildKd(points, depth, dims) == Some(NewNode(pivot, depth).(left := leftChild, right := rightChild))
  {
  }

  /** `KDTree.build`: sorts the caller's list by the axis coordinate, takes the
      median and builds the two sides from fresh lists. */
  method Build(points: array<Datapoint>, depth: nat, dims: nat) returns (node: Option<KdNode>)
    requires dims > 0 && Uniform(points[..], dims)
    modifies points
    ensures points[..] == SortBy(old(points[..]), AxisKey(depth % dims))
    ensures node == BuildKd(old(points[..]), depth, dims)
    decreases points.Length, 0
  {
    if points.Length == 0 {
      return None;
    }
    ghost var input := points[..];
    var axis := depth % dims;
    SortInPlace(points, AxisKey(axis));
    var mid := (points.Length - 1) / 2;
    ghost var sorted := points[..];
    assert sorted == SortBy(input, AxisKey(axis));
    var nodepoint := points[mid];
    assert nodepoint == sorted[mid];
    var leftpoints := Filter(points[..], Under(axis, Coord(nodepoint, axis)));
    var rightpoints := Filter(points[..], Over(axis, Coord(nodepoint, axis)));
    ghost var pivot, left, right := BuildStep(input, depth, dims);
    assert nodepoint == pivot && leftpoints == left && rightpoints == right by {
      assert |input| == points.Length && mid == (|input| - 1) / 2;
    }
    var leftChild := BuildFrom(leftpoints, depth + 1, dims);
    var rightChild := BuildFrom(rightpoints, depth + 1, dims);
    var newNode := NewNode(nodepoint, depth);
    node := Some(newNode.(left := leftChild, right := rightChild));
    BuildKdUnfold(input, depth, dims, nodepoint, leftChild, rightChild);
  }

  /** `self.build(...)` on the fresh list a comprehension made: the sort it
      does in place is not seen outside. */
  method BuildFrom(s: seq<Datapoint>, depth: nat, dims: nat) returns (node: Option<KdNode>)
    requires dims > 0 && Uniform(s, dims)
    ensures node == BuildKd(s, depth, dims)
    decreases |s|, 1
  {
    var a := new Datapoint[|s|](i requires 0 <= i < |s| => s[i]);
    assert a[..] == s;
    node := Build(a, depth, dims);
  }

  /** `KDTree(datapoints)`: the dimension count of the first point (1 when
      there are none), and the tree built from depth 0. */
  method NewKdTree(points: array<Datapoint>) returns (t: KdTree)
    requires points.Length > 0 ==> |points[0].vector| > 0 && Uniform(points[..], |points[0].vector|)
    modifies points
    ensures t.dimensions == if points.Length == 0 then 1 else |old(points[0]).vector|
    ensures t.root == BuildKd(old(points[..]), 0, t.dimensions)
    ensures points[..] == SortBy(old(points[..]), AxisKey(0))
  {
    var dimensions := if points.Length > 0 then |points[0].vector| else 1;
    var root := Build(points, 0, dimensions);
    t := KdTree(dimensions, root);
  }

  /** The points stored in a tree. */
  ghost function Points(t: Option<KdNode>): multiset<Datapoint>
  {
    if t.None? then multiset{}
    else multiset{t.value.datapoint} + Points(t.value.left) + Points(t.value.right)
  }

  /** The number of nodes. */
  function Count(t: Option<KdNode>): nat
  {
    if t.None? then 0 else 1 + Count(t.value.left) + Count(t.value.right)
  }

  lemma {:induction false} CountPoints(t: Option<KdNode>)
    ensures Count(t) == |Points(t)|
  {
    if t.Some? {
      CountPoints(t.value.left);
      CountPoints(t.value.right);
    }
  }

  /** Every point of the left subtree is strictly below the node on the node's
      axis and every point of the right subtree strictly above, at every node. */
  ghost predicate Ordered(t: Option<KdNode>)
  {
    t.None? ||
    ((forall p :: p in Points(t.value.left) ==> Coord(p, t.value.axis) < Coord(t.value.datapoint, t.value.axis)) &&
     (forall p :: p in Points(t.value.right) ==> Coord(p, t.value.axis) > Coord(t.value.datapoint, t.value.axis)) &&
     Ordered(t.value.left) && Ordered(t.value.right))
  }

  /** Each node sits at its depth and splits on `depth % dims`. */
  predicate Levels(t: Option<KdNode>, depth: nat, dims: nat)
    requires dims > 0
  {
    t.None? ||
    (t.value.depth == depth && t.value.axis == depth % dims &&
     Levels(t.value.left, depth + 1, dims) && Levels(t.value.right, depth + 1, dims))
  }

  /** One build step uses each point of the subset at most once: the median,
      the left points and the right points together are a sub-multiset. */
  lemma StepPoints(points: seq<Datapoint>, depth: nat, dims: nat)
    requires dims > 0 && points != []
    ensures multiset{Pivot(points, depth, dims)} + multiset(LeftPoints(points, depth, dims)) +
      multiset(RightPoints(points, depth, dims)) <= multiset(points)
  {
    var axis := depth % dims;
    var sorted := Sorted(points, depth, dims);
    var pivot := Pivot(points, depth, dims);
    var c := Coord(pivot, axis);
    var left := Filter(sorted, Under(axis, c));
    var right := Filter(sorted, Over(axis, c));
    assert left == LeftPoints(points, depth, dims) && right == RightPoints(points, depth, dims);
    forall x ensures multiset(left)[x] == (if Coord(x, axis) < c then multiset(points)[x] else 0)
      && multiset(right)[x] == (if Coord(x, axis) > c then multiset(points)[x] else 0)
    {
      SplitCounts(sorted, axis, c, x);
    }
    CountSplit(multiset(points), pivot, multiset(left), multiset(right), axis);
  }

  /** A median with the multisets of the points strictly below and strictly above
      it on the axis never exceeds the whole; it equals the whole when the median
      occurs once and no other point shares its coordinate. */
  lemma CountSplit(m: multiset<Datapoint>, pivot: Datapoint, l: multiset<Datapoint>, r: multiset<Datapoint>, axis: nat)
    requires pivot in m
    requires forall x :: l[x] == if Coord(x, axis) < Coord(pivot, axis) then m[x] else 0
    requires forall x :: r[x] == if Coord(x, axis) > Coord(pivot, axis) then m[x] else 0
    ensures multiset{pivot} + l + r <= m
    ensures multiset{pivot} + l + r == m <==>
      m[pivot] == 1 && (forall x :: x in m && x != pivot ==> Coord(x, axis) != Coord(pivot, axis))
  {
    var whole := multiset{pivot} + l + r;
    forall x ensures whole[x] <= m[x] {
      assert l[x] == if Coord(x, axis) < Coord(pivot, axis) then m[x] else 0;
      assert r[x] == if Coord(x, axis) > Coord(pivot, axis) then m[x] else 0;
    }
    if m[pivot] == 1 && (forall x :: x in m && x != pivot ==> Coord(x, axis) != Coord(pivot, axis)) {
      forall x ensures whole[x] == m[x] {
        assert l[x] == if Coord(x, axis) < Coord(pivot, axis) then m[x] else 0;
        assert r[x] == if Coord(x, axis) > Coord(pivot, axis) then m[x] else 0;
      }
    }
    if whole == m {
      assert l[pivot] == 0 && r[pivot] == 0;
      forall x | x in m && x != pivot ensures Coord(x, axis) != Coord(pivot, axis) {
        assert whole[x] == m[x];
      }
    }
  }

  /** How often the two filters of a build step keep a point. */
  lemma SplitCounts(sorted: seq<Datapoint>, axis: nat, c: int, x: Datapoint)
    ensures multiset(Filter(sorted, Under(axis, c)))[x] == if Coord(x, axis) < c then multiset(sorted)[x] else 0
    ensures multiset(Filter(sorted, Over(axis, c)))[x] == if Coord(x, axis) > c then multiset(sorted)[x] else 0
  {
    FilterCount(sorted, Under(axis, c), x);
    FilterCount(sorted, Over(axis, c), x);
  }

  /** The build stores only input points, each at most as often as it occurs. */
  lemma {:induction false} BuildKdPoints(points: seq<Datapoint>, depth: nat, dims: nat)
    requires dims > 0 && Uniform(points, dims)
    ensures Points(BuildKd(points, depth, dims)) <= multiset(points)
    decreases |points|
  {
    if points != [] {
      var left := LeftPoints(points, depth, dims);
      var right := RightPoints(points, depth, dims);
      BuildKdPoints(left, depth + 1, dims);
      BuildKdPoints(right, depth + 1, dims);
      StepPoints(points, depth, dims);
    }
  }

  /** So the tree has at most as many nodes as there are input points. */
  lemma BuildKdCount(points: seq<Datapoint>, depth: nat, dims: nat)
    requires dims > 0 && Uniform(points, dims)
    ensures Count(BuildKd(points, depth, dims)) <= |points|
  {
    var t := BuildKd(points, depth, dims);
    BuildKdPoints(points, depth, dims);
    CountPoints(t);
    assert multiset(points) == Points(t) + (multiset(points) - Points(t));
  }

  /** The built tree is ordered on every node's axis. */
  lemma {:induction false} BuildKdOrdered(points: seq<Datapoint>, depth: nat, dims: nat)
    requires dims > 0 && Uniform(points, dims)
    ensures Ordered(BuildKd(points, depth, dims))
    decreases |points|
  {
    if points != [] {
      var axis := depth % dims;
      var pivot := Pivot(points, depth, dims);
      var sorted := Sorted(points, depth, dims);
      var left := LeftPoints(points, depth, dims);
      var right := RightPoints(points, depth, dims);
      BuildKdOrdered(left, depth + 1, dims);
      BuildKdOrdered(right, depth + 1, dims);
      BuildKdPoints(left, depth + 1, dims);
      BuildKdPoints(right, depth + 1, dims);
      assert |pivot.vector| == dims;
      var t := BuildKd(points, depth, dims);
      assert t.value.axis == axis;
      forall p | p in Points(t.value.left) ensures Coord(p, axis) < Coord(pivot, axis) {
        assert p in multiset(left);
        assert Under(axis, Coord(pivot, axis))(p);
      }
      forall p | p in Points(t.value.right) ensures Coord(p, axis) > Coord(pivot, axis) {
        assert p in multiset(right);
        assert Over(axis, Coord(pivot, axis))(p);
      }
    }
  }

  /** Depths count up from the root and the axis cycles with them, as the
      node's own `depth % len(vector)` and the build's `depth % dimensions` agree. */
  lemma {:induction false} BuildKdLevels(points: seq<Datapoint>, depth: nat, dims: nat)
    requires dims > 0 && Uniform(points, dims)
    ensures Levels(BuildKd(points, depth, dims), depth, dims)
    decreases |points|
  {
    if points != [] {
      BuildKdLevels(LeftPoints(points, depth, dims), depth + 1, dims);
      BuildKdLevels(RightPoints(points, depth, dims), depth + 1, dims);
      assert |Pivot(points, depth, dims).vector| == dims;
    }
  }

  /** The median splits the subset into sides of at most `(n-1)//2` and `n//2` points. */
  lemma SplitBalanced(points: seq<Datapoint>, depth: nat, dims: nat)
    requires dims > 0 && points != []
    ensures |LeftPoints(points, depth, dims)| <= (|points| - 1) / 2
    ensures |RightPoints(points, depth, dims)| <= |points| / 2
  {
    var axis := depth % dims;
    var key := AxisKey(axis);
    var sorted := Sorted(points, depth, dims);
    SortBySorted(points, key);
    var mid := (|points| - 1) / 2;
    var c := Coord(sorted[mid], axis);
    forall k | mid <= k < |sorted| ensures !Under(axis, c)(sorted[k]) {
      assert mid == k || key(sorted[mid]) <= key(sorted[k]);
    }
    FilterPrefix(sorted, Under(axis, c), mid);
    forall k | 0 <= k < mid + 1 ensures !Over(axis, c)(sorted[k]) {
      assert k == mid || key(sorted[k]) <= key(sorted[mid]);
    }
    FilterSuffix(sorted, Over(axis, c), mid + 1);
  }

  /** No tie at this split: the median occurs once in the subset and no other
      point of the subset shares its coordinate on the split axis. */
  ghost predicate StepNoTie(points: seq<Datapoint>, depth: nat, dims: nat)
    requires dims > 0 && points != []
  {
    var pivot := Pivot(points, depth, dims);
    multiset(points)[pivot] == 1 &&
    forall x :: x in points && x != pivot ==> Coord(x, depth % dims) != Coord(pivot, depth % dims)
  }

  /** No tie at any split the build makes, following its recursion. */
  ghost predicate NoSplitTies(points: seq<Datapoint>, depth: nat, dims: nat)
    requires dims > 0
    decreases |points|
  {
    points == [] ||
    (StepNoTie(points, depth, dims) &&
     NoSplitTies(LeftPoints(points, depth, dims), depth + 1, dims) &&
     NoSplitTies(RightPoints(points, depth, dims), depth + 1, dims))
  }

  /** A sub-multiset is no larger, and has the same size exactly when it is the whole. */
  lemma SubSize(a: multiset<Datapoint>, b: multiset<Datapoint>)
    requires a <= b
    ensures |a| <= |b|
    ensures |a| == |b| <==> a == b
  {
    assert b == a + (b - a);
    if |a| == |b| {
      assert |b - a| == 0;
    }
  }

  /** One build step keeps `1 + |left| + |right|` of the subset's points, all
      of them exactly when there is no tie at the split. */
  lemma StepSize(points: seq<Datapoint>, depth: nat, dims: nat)
    requires dims > 0 && points != []
    ensures 1 + |LeftPoints(points, depth, dims)| + |RightPoints(points, depth, dims)| <= |points|
    ensures 1 + |LeftPoints(points, depth, dims)| + |RightPoints(points, depth, dims)| == |points| <==>
      StepNoTie(points, depth, dims)
  {
    var axis := depth % dims;
    var sorted := Sorted(points, depth, dims);
    var pivot := Pivot(points, depth, dims);
    var c := Coord(pivot, axis);
    var left := Filter(sorted, Under(axis, c));
    var right := Filter(sorted, Over(axis, c));
    assert left == LeftPoints(points, depth, dims) && right == RightPoints(points, depth, dims);
    forall x ensures multiset(left)[x] == (if Coord(x, axis) < c then multiset(points)[x] else 0)
      && multiset(right)[x] == (if Coord(x, axis) > c then multiset(points)[x] else 0)
    {
      SplitCounts(sorted, axis, c, x);
    }
    CountSplit(multiset(points), pivot, multiset(left), multiset(right), axis);
    var whole := multiset{pivot} + multiset(left) + multiset(right);
    SubSize(whole, multiset(points));
    assert |whole| == 1 + |left| + |right|;
    assert (forall x :: x in multiset(points) && x != pivot ==> Coord(x, axis) != c) <==>
           (forall x :: x in points && x != pivot ==> Coord(x, axis) != c);
  }

  /** The tree has one node per input point exactly when no split of the build
      has a tie; it then stores every input point exactly once. */
  lemma {:induction false} BuildKdExact(points: seq<Datapoint>, depth: nat, dims: nat)
    requires dims > 0 && Uniform(points, dims)
    ensures Count(BuildKd(points, depth, dims)) == |points| <==> NoSplitTies(points, depth, dims)
    ensures Points(BuildKd(points, depth, dims)) == multiset(points) <==> NoSplitTies(points, depth, dims)
    decreases |points|
  {
    var t := BuildKd(points, depth, dims);
    if points != [] {
      var left := LeftPoints(points, depth, dims);
      var right := RightPoints(points, depth, dims);
      var _, _, _ := BuildStep(points, depth, dims);
      BuildKdExact(left, depth + 1, dims);
      BuildKdExact(right, depth + 1, dims);
      BuildKdCount(left, depth + 1, dims);
      BuildKdCount(right, depth + 1, dims);
      StepSize(points, depth, dims);
      assert Count(t) == 1 + Count(BuildKd(left, depth + 1, dims)) + Count(BuildKd(right, depth + 1, dims));
    }
    CountPoints(t);
    BuildKdPoints(points, depth, dims);
    SubSize(Points(t), multiset(points));
  }

  /** No two points share a coordinate on any axis, and none repeats. */
  ghost predicate NoTies(m: multiset<Datapoint>, dims: nat)
  {
    (forall p :: m[p] <= 1) &&
    (forall p, q, a :: p in m && q in m && p != q && 0 <= a < dims ==> Coord(p, a) != Coord(q, a))
  }

  /** Points that share no coordinate at all never tie at a split. */
  lemma {:induction false} NoTiesSuffice(points: seq<Datapoint>, depth: nat, dims: nat)
    requires dims > 0 && NoTies(multiset(points), dims)
    ensures NoSplitTies(points, depth, dims)
    decreases |points|
  {
    if points != [] {
      var left := LeftPoints(points, depth, dims);
      var right := RightPoints(points, depth, dims);
      NoTiesStep(points, depth, dims);
      StepPoints(points, depth, dims);
      NoTiesSub(multiset(left), multiset(points), dims);
      NoTiesSub(multiset(right), multiset(points), dims);
      NoTiesSuffice(left, depth + 1, dims);
      NoTiesSuffice(right, depth + 1, dims);
    }
  }

  /** Points that share no coordinate never tie at this split. */
  lemma NoTiesStep(points: seq<Datapoint>, depth: nat, dims: nat)
    requires dims > 0 && points != [] && NoTies(multiset(points), dims)
    ensures StepNoTie(points, depth, dims)
  {
    var pivot := Pivot(points, depth, dims);
    assert pivot in multiset(points);
    forall x | x in points && x != pivot ensures Coord(x, depth % dims) != Coord(pivot, depth % dims) {
      assert x in multiset(points);
    }
  }

  /** Part of a tie-free multiset is tie-free. */
  lemma NoTiesSub(a: multiset<Datapoint>, b: multiset<Datapoint>, dims: nat)
    requires a <= b && NoTies(b, dims)
    ensures NoTies(a, dims)
  {
    forall p ensures a[p] <= 1 {
      assert a[p] <= b[p];
    }
  }

  /** A tree over no points has no root and one dimension. */
  lemma EmptyKdTree(points: array<Datapoint>)
    requires points.Length == 0
    ensures BuildKd(points[..], 0, 1) == None
  {
  }
}
