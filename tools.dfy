/**
 * Geometry and tree utilities shared by the search trees (tools.py):
 * points, axis-aligned regions and their interval algebra, and the node
 * record of the range tree with its leaf collection.
 */
module Tools {
  import opened Wrappers

  /** A point: its coordinate vector and an opaque label. */
  datatype Datapoint = Datapoint(vector: seq<int>, id: string)

  /** The `vector` argument of `Datapoint(...)`: a list, or a bare number. */
  datatype VectorArg = Scalar(x: int) | List(xs: seq<int>)

  /** `Datapoint(vector, id)`: a bare number becomes a one-element vector. */
  function NewDatapoint(v: VectorArg, id: string): (dp: Datapoint)
    ensures dp.id == id
    ensures v.Scalar? ==> dp.vector == [v.x]
    ensures v.List? ==> dp.vector == v.xs
  {
    match v
    case Scalar(x) => Datapoint([x], id)
    case List(xs) => Datapoint(xs, id)
  }

  /** The bounds of one axis of a region, `[first, second]`, in either order. */
  datatype Interval = Interval(first: int, second: int) {
    /** `min(region[axis])` */
    function Lo(): int { if first <= second then first else second }
    /** `max(region[axis])` */
    function Hi(): int { if first <= second then second else first }
  }

  /** A region lists one interval per axis. */
  type Region = seq<Interval>

  /** The point lies within the bounds of every axis the region names. */
  predicate InRegion(v: seq<int>, region: Region)
    requires |region| <= |v|
  {
    forall axis :: 0 <= axis < |region| ==> region[axis].Lo() <= v[axis] <= region[axis].Hi()
  }

  /** The same region with the two bounds of every axis written the other way round. */
  function Flipped(region: Region): (r: Region)
    ensures |r| == |region|
    ensures forall axis :: 0 <= axis < |r| ==>
      r[axis].first == region[axis].second && r[axis].second == region[axis].first
  {
    seq(|region|, axis requires 0 <= axis < |region| => Interval(region[axis].second, region[axis].first))
  }

  /** `Datapoint.in_range`: scans the axes and stops at the first one out of bounds. */
  method InRange(dp: Datapoint, region: Region) returns (b: bool)
    requires |region| <= |dp.vector|
    ensures b == InRegion(dp.vector, region)
    ensures b == InRegion(dp.vector, Flipped(region))
  {
    var axis := 0;
    while axis < |region|
      invariant 0 <= axis <= |region|
      invariant forall k :: 0 <= k < axis ==> region[k].Lo() <= dp.vector[k] <= region[k].Hi()
    {
      if dp.vector[axis] < region[axis].Lo() || dp.vector[axis] > region[axis].Hi() {
        return false;
      }
      axis := axis + 1;
    }
    return true;
  }

  /** `min(xs)` */
  function MinOf(xs: seq<int>): (m: int)
    requires |xs| > 0
    ensures m in xs
    ensures forall k :: 0 <= k < |xs| ==> m <= xs[k]
  {
    if |xs| == 1 then xs[0]
    else
      var m := MinOf(xs[1..]);
      assert xs == [xs[0]] + xs[1..];
      if xs[0] <= m then xs[0] else m
  }

  /** `max(xs)` */
  function MaxOf(xs: seq<int>): (m: int)
    requires |xs| > 0
    ensures m in xs
    ensures forall k :: 0 <= k < |xs| ==> xs[k] <= m
  {
    if |xs| == 1 then xs[0]
    else
      var m := MaxOf(xs[1..]);
      assert xs == [xs[0]] + xs[1..];
      if xs[0] >= m then xs[0] else m
  }

  /** Every point has at least `dim` coordinates. */
  predicate HasAxes(points: seq<Datapoint>, dim: nat)
  {
    forall p :: p in points ==> dim <= |p.vector|
  }

  /** Every point has exactly `dims` coordinates. */
  predicate Uniform(points: seq<Datapoint>, dims: nat)
  {
    forall p :: p in points ==> |p.vector| == dims
  }

  /** `[datapoint.vector[axis] for datapoint in datapoints]` */
  function AxisVector(points: seq<Datapoint>, axis: nat): (r: seq<int>)
    requires HasAxes(points, axis + 1)
    ensures |r| == |points|
    ensures forall i :: 0 <= i < |points| ==> r[i] == points[i].vector[axis]
  {
    seq(|points|, i requires 0 <= i < |points| => points[i].vector[axis])
  }

  /** The bounds `calc_mbr` gives one axis: the least and greatest coordinate. */
  function AxisBounds(points: seq<Datapoint>, axis: nat): (bounds: Interval)
    requires |points| > 0
    requires HasAxes(points, axis + 1)
    ensures bounds.first <= bounds.second
    ensures forall i :: 0 <= i < |points| ==>
      bounds.first <= points[i].vector[axis] <= bounds.second
  {
    var xs := AxisVector(points, axis);
    Interval(MinOf(xs), MaxOf(xs))
  }

  /** Both bounds are attained, so no smaller interval holds every point. */
  lemma AxisBoundsTight(points: seq<Datapoint>, axis: nat)
    requires |points| > 0
    requires HasAxes(points, axis + 1)
    ensures exists i :: 0 <= i < |points| && points[i].vector[axis] == AxisBounds(points, axis).first
    ensures exists i :: 0 <= i < |points| && points[i].vector[axis] == AxisBounds(points, axis).second
  {
    var xs := AxisVector(points, axis);
    var lo :| 0 <= lo < |xs| && xs[lo] == MinOf(xs);
    var hi :| 0 <= hi < |xs| && xs[hi] == MaxOf(xs);
    assert points[lo].vector[axis] == MinOf(xs);
    assert points[hi].vector[axis] == MaxOf(xs);
  }

  /** `calc_mbr`: the minimum bounding rectangle, one `[min, max]` pair per
      axis of the first point. */
  method CalcMbr(points: seq<Datapoint>) returns (region: Region)
    requires |points| > 0
    requires HasAxes(points, |points[0].vector|)
    ensures |region| == |points[0].vector|
    ensures forall axis :: 0 <= axis < |region| ==> region[axis] == AxisBounds(points, axis)
    ensures forall i :: 0 <= i < |points| ==> InRegion(points[i].vector, region)
  {
    var dim := |points[0].vector|;
    region := [];
    var axis := 0;
    while axis < dim
      invariant 0 <= axis <= dim
      invariant |region| == axis
      invariant forall k :: 0 <= k < axis ==> region[k] == AxisBounds(points, k)
    {
      var axisVector := AxisVector(points, axis);
      var minValue := MinOf(axisVector);
      var maxValue := MaxOf(axisVector);
      assert Interval(minValue, maxValue) == AxisBounds(points, axis);
      region := region + [Interval(minValue, maxValue)];
      axis := axis + 1;
    }
    BoundsHoldPoints(points, region);
  }

  /** A region made of the per-axis bounds holds every point. */
  lemma BoundsHoldPoints(points: seq<Datapoint>, region: Region)
    requires |points| > 0
    requires HasAxes(points, |region|)
    requires forall axis :: 0 <= axis < |region| ==> region[axis] == AxisBounds(points, axis)
    ensures forall i :: 0 <= i < |points| ==> InRegion(points[i].vector, region)
  {
    forall i, k | 0 <= i < |points| && 0 <= k < |region|
      ensures region[k].Lo() <= points[i].vector[k] <= region[k].Hi()
    {
      assert region[k] == AxisBounds(points, k);
    }
  }

  /** The per-axis overlap `[max of the mins, min of the maxes]`. */
  function Overlap(x: Interval, y: Interval): Interval
  {
    Interval(if x.Lo() <= y.Lo() then y.Lo() else x.Lo(), if x.Hi() <= y.Hi() then x.Hi() else y.Hi())
  }

  /** Some axis of `a` and `b` do not overlap. */
  predicate SomeAxisApart(a: Region, b: Region)
    requires |a| <= |b|
  {
    exists axis :: 0 <= axis < |a| && Overlap(a[axis], b[axis]).second < Overlap(a[axis], b[axis]).first
  }

  /** What `intersection(region_a, region_b)` returns, as a value. */
  function IntersectionOf(a: Region, b: Region): Option<Region>
    requires |a| <= |b|
  {
    if SomeAxisApart(a, b) then None
    else Some(seq(|a|, axis requires 0 <= axis < |a| => Overlap(a[axis], b[axis])))
  }

  /** `intersection`: builds the overlap axis by axis, giving up at the first
      axis with none. */
  method Intersection(a: Region, b: Region) returns (r: Option<Region>)
    requires |a| <= |b|
    ensures r == IntersectionOf(a, b)
  {
    var newRegion: Region := [];
    var axis := 0;
    while axis < |a|
      invariant 0 <= axis <= |a|
      invariant |newRegion| == axis
      invariant forall k :: 0 <= k < axis ==> newRegion[k] == Overlap(a[k], b[k])
      invariant forall k :: 0 <= k < axis ==> Overlap(a[k], b[k]).first <= Overlap(a[k], b[k]).second
    {
      var lo := if a[axis].Lo() <= b[axis].Lo() then b[axis].Lo() else a[axis].Lo();
      var hi := if a[axis].Hi() <= b[axis].Hi() then a[axis].Hi() else b[axis].Hi();
      if hi < lo {
        return None;
      }
      newRegion := newRegion + [Interval(lo, hi)];
      axis := axis + 1;
    }
    assert !SomeAxisApart(a, b);
    assert newRegion == seq(|a|, axis requires 0 <= axis < |a| => Overlap(a[axis], b[axis]));
    return Some(newRegion);
  }

  /** `contained(region_a, region_b)`: the intersection is `region_a` itself,
      compared as written. */
  predicate Contained(a: Region, b: Region)
    requires |a| <= |b|
  {
    IntersectionOf(a, b) == Some(a)
  }

  /** `intersects(region_a, region_b)` */
  predicate Intersects(a: Region, b: Region)
    requires |a| <= |b|
  {
    IntersectionOf(a, b).Some?
  }

  /** A result of `intersection` has `lo <= hi` on every axis and lies inside both regions. */
  lemma IntersectionInside(a: Region, b: Region)
    requires |a| <= |b|
    ensures IntersectionOf(a, b).None? <==> SomeAxisApart(a, b)
    ensures IntersectionOf(a, b).Some? ==>
      var c := IntersectionOf(a, b).value;
      |c| == |a| &&
      forall axis :: 0 <= axis < |a| ==>
        c[axis].first <= c[axis].second &&
        a[axis].Lo() <= c[axis].first && c[axis].second <= a[axis].Hi() &&
        b[axis].Lo() <= c[axis].first && c[axis].second <= b[axis].Hi()
  {
  }

  /** `intersection` does not depend on the order of its arguments. */
  lemma IntersectionCommutes(a: Region, b: Region)
    requires |a| == |b|
    ensures IntersectionOf(a, b) == IntersectionOf(b, a)
  {
    forall axis | 0 <= axis < |a|
      ensures Overlap(b[axis], a[axis]) == Overlap(a[axis], b[axis])
    {
    }
    assert SomeAxisApart(a, b) <==> SomeAxisApart(b, a);
    if !SomeAxisApart(a, b) {
      assert IntersectionOf(a, b).value == IntersectionOf(b, a).value;
    }
  }

  /** A point lies in both regions exactly when it lies in their intersection. */
  lemma IntersectionPoints(a: Region, b: Region, v: seq<int>)
    requires |a| <= |b| && |a| <= |v|
    ensures (InRegion(v, a) && InRegion(v, b[..|a|])) <==>
      (IntersectionOf(a, b).Some? && InRegion(v, IntersectionOf(a, b).value))
  {
    if InRegion(v, a) && InRegion(v, b[..|a|]) {
      forall axis | 0 <= axis < |a|
        ensures Overlap(a[axis], b[axis]).first <= v[axis] <= Overlap(a[axis], b[axis]).second
      {
        assert b[..|a|][axis] == b[axis];
      }
    }
  }

  /** `contained` holds exactly when every axis of `a` is written low-to-high
      and lies within the same axis of `b`; so a region written with a reversed
      axis is never contained in anything. */
  lemma ContainedIff(a: Region, b: Region)
    requires |a| <= |b|
    ensures Contained(a, b) <==>
      forall axis :: 0 <= axis < |a| ==>
        a[axis].first <= a[axis].second &&
        b[axis].Lo() <= a[axis].first && a[axis].second <= b[axis].Hi()
  {
    if forall axis :: 0 <= axis < |a| ==>
        a[axis].first <= a[axis].second &&
        b[axis].Lo() <= a[axis].first && a[axis].second <= b[axis].Hi()
    {
      assert !SomeAxisApart(a, b);
      var c := seq(|a|, axis requires 0 <= axis < |a| => Overlap(a[axis], b[axis]));
      assert c == a;
    }
    if Contained(a, b) {
      forall axis | 0 <= axis < |a|
        ensures a[axis].first <= a[axis].second
        ensures b[axis].Lo() <= a[axis].first && a[axis].second <= b[axis].Hi()
      {
        assert a[axis] == IntersectionOf(a, b).value[axis];
      }
    }
  }

  /** `intersects` holds exactly when some point lies in both regions. */
  lemma IntersectsIff(a: Region, b: Region)
    requires |a| <= |b|
    ensures Intersects(a, b) <==>
      exists v: seq<int> :: |v| == |a| && InRegion(v, a) && InRegion(v, b[..|a|])
  {
    if Intersects(a, b) {
      var c := IntersectionOf(a, b).value;
      var v := seq(|a|, axis requires 0 <= axis < |a| => c[axis].first);
      IntersectionInside(a, b);
      IntersectionPoints(a, b, v);
    }
    if exists v: seq<int> :: |v| == |a| && InRegion(v, a) && InRegion(v, b[..|a|]) {
      var v: seq<int> :| |v| == |a| && InRegion(v, a) && InRegion(v, b[..|a|]);
      IntersectionPoints(a, b, v);
    }
  }

  /** The range tree's node: its split value and axis, optional children,
      the point of a leaf, and on non-terminal axes the associated tree. */
  datatype Node = Node(
    value: int,
    axis: nat,
    left: Option<Node>,
    right: Option<Node>,
    datapoint: Option<Datapoint>,
    subtree: Option<RangeTree>)
  {
    /** `Node.is_leaf`: neither child is present. */
    predicate IsLeaf()
    {
      left.None? && right.None?
    }
  }

  /** The fields of a `RangeTree` object (its methods are in rangetree.dfy). */
  datatype RangeTree = RangeTree(axis: nat, dimensions: int, terminalTree: bool, root: Option<Node>)

  /** `x` is `n` or lies in one of its child subtrees (associated trees not included). */
  predicate Below(x: Node, n: Node)
  {
    x == n ||
    (n.left.Some? && Below(x, n.left.value)) ||
    (n.right.Some? && Below(x, n.right.value))
  }

  /** `extract_leafs`: the leaves under `node`, left subtree first. */
  function ExtractLeafs(node: Node): (leafs: seq<Node>)
    ensures forall x :: x in leafs <==> x.IsLeaf() && Below(x, node)
    ensures node.IsLeaf() ==> leafs == [node]
  {
    if node.IsLeaf() then [node]
    else
      (if node.left.Some? then ExtractLeafs(node.left.value) else []) +
      (if node.right.Some? then ExtractLeafs(node.right.value) else [])
  }

  /** The leaves of an inner node come in order: the first `k`, where `k` is
      the number of leaves of the left child, lie under the left child, and
      the rest under the right child. */
  lemma LeftLeavesFirst(node: Node)
    requires !node.IsLeaf()
    ensures var leafs := ExtractLeafs(node);
      var k := if node.left.Some? then |ExtractLeafs(node.left.value)| else 0;
      k <= |leafs| &&
      (forall i :: 0 <= i < k ==> node.left.Some? && Below(leafs[i], node.left.value)) &&
      (forall i :: k <= i < |leafs| ==> node.right.Some? && Below(leafs[i], node.right.value))
  {
    var left := if node.left.Some? then ExtractLeafs(node.left.value) else [];
    var right := if node.right.Some? then ExtractLeafs(node.right.value) else [];
    PartsInOrder(ExtractLeafs(node), left, right);
  }

  /** The elements of a concatenation come from its first part up to the
      first part's length, and from the second part after it. */
  lemma PartsInOrder(s: seq<Node>, a: seq<Node>, b: seq<Node>)
    requires s == a + b
    ensures forall i :: 0 <= i < |a| ==> s[i] in a
    ensures forall i :: |a| <= i < |s| ==> s[i] in b
  {
    forall i | |a| <= i < |s| ensures s[i] in b {
      assert s[i] == b[i - |a|];
    }
  }

  /** A node is a leaf exactly when it is its own only leaf. */
  lemma LeafIffOwnLeaf(node: Node)
    ensures node.IsLeaf() <==> ExtractLeafs(node) == [node]
  {
    if ExtractLeafs(node) == [node] {
      assert node in ExtractLeafs(node);
    }
  }
}
