/**
 * A range tree of rangetree.py that loses a point: six points on one
 * horizontal line, searched with a region that holds all of them. The walk
 * right of the split node takes the node over the fourth and fifth points
 * whole, and its associated tree on the last axis is a single leaf holding
 * the fourth point only, so `range_search` never reports the fifth.
 */
module RangeTreeLoss {
  import opened Wrappers
  import opened Sorting
  import opened Tools
  import opened RangeTrees
  import opened RangeTreeFacts

  /** Points of two coordinates that all lie on the line y = 5, in strictly
      increasing order of x. */
  predicate Row(points: seq<Datapoint>)
  {
    (forall i :: 0 <= i < |points| ==> |points[i].vector| == 2 && points[i].vector[1] == 5) &&
    (forall i, j :: 0 <= i < j < |points| ==> points[i].vector[0] < points[j].vector[0])
  }

  /** The associated tree of `x` does not report `q` for `region`. */
  predicate Misses(x: Node, region: Region, q: Datapoint)
  {
    x.subtree.Some? && TreeOk(x.subtree.value, |region|) &&
    forall y :: y in Query(x.subtree.value, region) ==> y.datapoint != Some(q)
  }

  /** Two strictly increasing sequences with the same elements are equal. */
  lemma {:induction false} SameIncreasing(s: seq<int>, t: seq<int>)
    requires StrictlyIncreasing(s) && StrictlyIncreasing(t)
    requires forall x :: x in s <==> x in t
    ensures s == t
    decreases |s|
  {
    assert s != [] ==> s[0] in s;
    assert t != [] ==> t[0] in t;
    if s != [] {
      assert s[0] in t && t[0] in s;
      assert s[0] == t[0];
      forall x ensures x in s[1..] <==> x in t[1..] {
        if x in s[1..] {
          assert x in t && x != t[0];
        }
        if x in t[1..] {
          assert x in s && x != s[0];
        }
      }
      SameIncreasing(s[1..], t[1..]);
      assert s == [s[0]] + s[1..];
      assert t == [t[0]] + t[1..];
    }
  }

  /** A row has two coordinates per point, its distinct x values are its
      points' x values in order, and all its points share one y value. */
  lemma RowValues(points: seq<Datapoint>)
    requires Row(points) && points != []
    ensures Uniform(points, 2)
    ensures |Values(points, 0)| == |points|
    ensures forall k :: 0 <= k < |points| ==> Values(points, 0)[k] == points[k].vector[0]
    ensures |Values(points, 1)| == 1
  {
    var xs := AxisVector(points, 0);
    assert StrictlyIncreasing(xs);
    SameIncreasing(Values(points, 0), xs);
    var ys := Values(points, 1);
    assert points[0] in points;
    assert forall y :: y in ys <==> y in [5];
    SameIncreasing(ys, [5]);
  }

  /** A row has two coordinates per point. */
  lemma RowUniform(points: seq<Datapoint>)
    requires Row(points)
    ensures Uniform(points, 2)
  {
  }

  /** A slice of a row is a row. */
  lemma RowSlice(points: seq<Datapoint>, a: nat, b: nat)
    requires Row(points) && a <= b <= |points|
    ensures Row(points[a..b])
  {
  }

  /** Every point of `points` lies above `v` on the x axis, so the filter
      above `v` keeps all of them. */
  lemma {:induction false} AboveAll(points: seq<Datapoint>, v: int)
    requires HasAxes(points, 1)
    requires forall i :: 0 <= i < |points| ==> points[i].vector[0] > v
    ensures Above(points, 0, v) == points
    decreases |points|
  {
    if points != [] {
      AboveAll(points[1..], v);
    }
  }

  /** No point of `points` lies at or below `v` on the x axis, so the filter
      at most `v` keeps none of them. */
  lemma AtMostNone(points: seq<Datapoint>, v: int)
    requires HasAxes(points, 1)
    requires forall i :: 0 <= i < |points| ==> points[i].vector[0] > v
    ensures AtMost(points, 0, v) == []
  {
    var kept := AtMost(points, 0, v);
  }

  /** A prefix is the first element followed by a prefix of the rest. */
  lemma PrefixSplits(points: seq<Datapoint>, k: nat)
    requires k < |points|
    ensures points[..k + 1] == [points[0]] + points[1..][..k]
  {
  }

  /** Splitting a row at the x value of its `k`-th point sends the first
      `k + 1` points left. */
  lemma {:induction false} RowAtMost(points: seq<Datapoint>, k: nat)
    requires Row(points) && k < |points|
    ensures AtMost(points, 0, points[k].vector[0]) == points[..k + 1]
    decreases k
  {
    var v := points[k].vector[0];
    var rest := points[1..];
    if k == 0 {
      AtMostNone(rest, v);
      assert AtMost(points, 0, v) == [points[0]] + AtMost(rest, 0, v);
    } else {
      assert rest[k - 1] == points[k];
      RowAtMost(rest, k - 1);
      assert AtMost(points, 0, v) == [points[0]] + AtMost(rest, 0, v);
      PrefixSplits(points, k);
    }
  }

  /** Splitting a row at the x value of its `k`-th point sends the points
      after it right. */
  lemma {:induction false} RowAbove(points: seq<Datapoint>, k: nat)
    requires Row(points) && k < |points|
    ensures Above(points, 0, points[k].vector[0]) == points[k + 1..]
    decreases k
  {
    var v := points[k].vector[0];
    if k == 0 {
      AboveAll(points[1..], v);
    } else {
      RowAbove(points[1..], k - 1);
      assert points[1..][k..] == points[k + 1..];
    }
  }

  /** The node `build` makes from a row of more than one point: the median x
      value, the first half on the left, the rest on the right, and the
      associated tree over the whole row. */
  lemma RowNode(points: seq<Datapoint>, m: nat)
    requires Row(points) && |points| > 1 && m == (|points| - 1) / 2
    ensures Uniform(points, 2) && Uniform(points[..m + 1], 2) && Uniform(points[m + 1..], 2)
    ensures var node := Build(points, 0, 2).value;
      node.value == points[m].vector[0] &&
      node.left == Build(points[..m + 1], 0, 2) &&
      node.right == Build(points[m + 1..], 0, 2)
  {
    RowValues(points);
    RowAtMost(points, m);
    RowAbove(points, m);
    BuildParts(points, 0, 2, points[m].vector[0]);
  }

  /** The node `build` makes from a single point is a leaf on its x value. */
  lemma RowLeaf(points: seq<Datapoint>)
    requires Row(points) && |points| == 1
    ensures Uniform(points, 2)
    ensures var node := Build(points, 0, 2).value;
      node.IsLeaf() && node.value == points[0].vector[0]
  {
    RowValues(points);
    BuildParts(points, 0, 2, points[0].vector[0]);
  }

  /** The node `build` makes from the first point of a row is a leaf. */
  lemma FirstLeaf(points: seq<Datapoint>)
    requires Row(points) && points != []
    ensures Uniform(points[..1], 2)
    ensures var node := Build(points[..1], 0, 2).value;
      node.IsLeaf() && node.value == points[0].vector[0]
  {
    RowSlice(points, 0, 1);
    RowLeaf(points[..1]);
  }

  /** The node `build` makes from the last point of a row is a leaf. */
  lemma LastLeaf(points: seq<Datapoint>)
    requires Row(points) && points != []
    ensures Uniform(points[|points| - 1..], 2)
    ensures var node := Build(points[|points| - 1..], 0, 2).value;
      node.IsLeaf() && node.value == points[|points| - 1].vector[0]
  {
    RowSlice(points, |points| - 1, |points|);
    assert points[|points| - 1..] == points[|points| - 1..|points|];
    RowLeaf(points[|points| - 1..]);
  }

  /** `x` is a leaf on the x value `v`. */
  predicate LeafOn(x: Node, v: int)
  {
    x.IsLeaf() && x.value == v
  }

  /** `node` is the tree `build` makes over three points with x values
      `x0`, `x1`, `x2`: a root on `x1` over a node on `x0` with the leaves on
      `x0` and `x1`, and the leaf on `x2`. */
  predicate ThreeTree(node: Node, x0: int, x1: int, x2: int)
  {
    node.left.Some? && node.right.Some? && node.value == x1 && LeafOn(node.right.value, x2) &&
    node.left.value.left.Some? && node.left.value.right.Some? && node.left.value.value == x0 &&
    LeafOn(node.left.value.left.value, x0) && LeafOn(node.left.value.right.value, x1)
  }

  /** `split_search` left of the split node over a tree of three points in
      the range: the leaf of the third, then the second, then the first. */
  lemma LeftWalkOfThree(lo: int, hi: int, node: Node, x0: int, x1: int, x2: int)
    requires ThreeTree(node, x0, x1, x2) && lo <= x0 <= x1 <= x2 <= hi
    ensures var walk := SplitSearch(lo, hi, node, false);
      |walk| == 3 && LeafOn(walk[0], x2) && LeafOn(walk[1], x1) && LeafOn(walk[2], x0)
  {
    var pair := node.left.value;
    assert SplitSearch(lo, hi, pair, false) == [pair.right.value] + [pair.left.value];
  }

  /** `split_search` right of the split node over a tree of three points in
      the range: the node of the first two whole, then the leaf of the
      third. */
  lemma RightWalkOfThree(lo: int, hi: int, node: Node, x0: int, x1: int, x2: int)
    requires ThreeTree(node, x0, x1, x2) && lo <= x0 <= x1 <= x2 <= hi
    ensures var walk := SplitSearch(lo, hi, node, true);
      |walk| == 2 && walk[0] == node.left.value && LeafOn(walk[1], x2)
  {
    assert SplitSearch(lo, hi, node.right.value, true) == [node.right.value];
  }

  /** A node with both children whose value lies in the range is the split
      node, and its candidates are the two walks below it. */
  lemma SplitHere(lo: int, hi: int, node: Node)
    requires node.left.Some? && node.right.Some? && lo <= node.value <= hi
    ensures FindSplitNode(lo, hi, node) == Some(node)
    ensures Candidates(lo, hi, node) ==
      SplitSearch(lo, hi, node.left.value, false) + SplitSearch(lo, hi, node.right.value, true)
  {
  }

  /** The candidates of a root on `x2` over the trees of three points on
      each side, every value in the range: the leaves on `x2`, `x1`, `x0`,
      the node of the fourth and fifth points, and the leaf on `x5`. */
  lemma CandidatesOfSixTree(lo: int, hi: int, root: Node, x0: int, x1: int, x2: int, x3: int, x4: int, x5: int)
    requires root.left.Some? && root.right.Some? && root.value == x2
    requires ThreeTree(root.left.value, x0, x1, x2) && ThreeTree(root.right.value, x3, x4, x5)
    requires lo <= x0 <= x1 <= x2 <= x3 <= x4 <= x5 <= hi
    ensures var cands := Candidates(lo, hi, root);
      FindSplitNode(lo, hi, root) == Some(root) &&
      |cands| == 5 && LeafOn(cands[0], x2) && LeafOn(cands[1], x1) && LeafOn(cands[2], x0) &&
      cands[3] == root.right.value.left.value && LeafOn(cands[4], x5)
  {
    LeftWalkOfThree(lo, hi, root.left.value, x0, x1, x2);
    RightWalkOfThree(lo, hi, root.right.value, x3, x4, x5);
    SplitHere(lo, hi, root);
  }

  /** The tree `build` makes from a row of two points: a root on the first x
      value over the leaves of the two points. */
  lemma TwoShape(points: seq<Datapoint>)
    requires Row(points) && |points| == 2
    ensures Uniform(points, 2)
    ensures var node := Build(points, 0, 2).value;
      node.left.Some? && node.right.Some? && node.value == points[0].vector[0] &&
      LeafOn(node.left.value, points[0].vector[0]) && LeafOn(node.right.value, points[1].vector[0])
  {
    RowNode(points, 0);
    FirstLeaf(points);
    LastLeaf(points);
  }

  /** The node `build` makes from the first two points of a row of three. */
  lemma FrontShape(points: seq<Datapoint>)
    requires Row(points) && |points| == 3
    ensures Uniform(points[..2], 2)
    ensures var pair := Build(points[..2], 0, 2).value;
      pair.left.Some? && pair.right.Some? && pair.value == points[0].vector[0] &&
      LeafOn(pair.left.value, points[0].vector[0]) && LeafOn(pair.right.value, points[1].vector[0])
  {
    RowSlice(points, 0, 2);
    TwoShape(points[..2]);
  }

  /** The tree `build` makes from a row of three points: a root on the second
      x value over the node of the first two points and the leaf of the third. */
  lemma ThreeShape(points: seq<Datapoint>)
    requires Row(points) && |points| == 3
    ensures Uniform(points, 2) && Uniform(points[..2], 2)
    ensures var node := Build(points, 0, 2).value;
      node.left == Build(points[..2], 0, 2) &&
      ThreeTree(node, points[0].vector[0], points[1].vector[0], points[2].vector[0])
  {
    RowNode(points, 1);
    LastLeaf(points);
    FrontShape(points);
  }

  /** The tree `build` makes from the first three points of a row of six. */
  lemma FrontOfSix(points: seq<Datapoint>)
    requires Row(points) && |points| == 6
    ensures Uniform(points[..3], 2)
    ensures ThreeTree(Build(points[..3], 0, 2).value, points[0].vector[0], points[1].vector[0], points[2].vector[0])
  {
    RowSlice(points, 0, 3);
    ThreeShape(points[..3]);
  }

  /** The last three of six elements, and the first two of those. */
  lemma BackSlices(points: seq<Datapoint>)
    requires |points| == 6
    ensures points[3..6] == points[3..] && points[3..][..2] == points[3..5]
  {
  }

  /** The tree `build` makes from the last three points of a row of six,
      whose left child is the node of the fourth and fifth points. */
  lemma BackOfSix(points: seq<Datapoint>)
    requires Row(points) && |points| == 6
    ensures Uniform(points[3..], 2) && Uniform(points[3..5], 2)
    ensures var back := Build(points[3..], 0, 2).value;
      back.left == Build(points[3..5], 0, 2) &&
      ThreeTree(back, points[3].vector[0], points[4].vector[0], points[5].vector[0])
  {
    BackSlices(points);
    RowSlice(points, 3, 6);
    ThreeShape(points[3..]);
  }

  /** The tree `build` makes from a row of six points: a root on the third x
      value over the trees of the first three points and of the last three. */
  lemma SixShape(points: seq<Datapoint>)
    requires Row(points) && |points| == 6
    ensures Uniform(points, 2) && Uniform(points[..3], 2) && Uniform(points[3..], 2)
    ensures var root := Build(points, 0, 2).value;
      root.left == Build(points[..3], 0, 2) && root.right == Build(points[3..], 0, 2) &&
      root.value == points[2].vector[0]
  {
    RowNode(points, 2);
  }

  /** Every node `build` makes on the x axis owns the associated tree on y
      over its points. */
  lemma RowSubtree(points: seq<Datapoint>)
    requires Row(points) && points != []
    ensures Uniform(points, 2)
    ensures Build(points, 0, 2).value.subtree == Some(NewRangeTree(points, 1))
  {
    RowValues(points);
    var values := Values(points, 0);
    BuildParts(points, 0, 2, values[(|values| - 1) / 2]);
  }

  /** The subtrees `range_search` collects on the x axis for a row of six
      points and a range that holds them all: the leaves of the third,
      second and first points, the node of the fourth and fifth, and the
      leaf of the sixth. */
  lemma CandidatesOfSix(points: seq<Datapoint>, lo: int, hi: int)
    requires Row(points) && |points| == 6
    requires lo <= points[0].vector[0] && points[5].vector[0] <= hi
    ensures Uniform(points, 2) && Uniform(points[3..5], 2)
    ensures var root := Build(points, 0, 2).value;
      var cands := Candidates(lo, hi, root);
      FindSplitNode(lo, hi, root) == Some(root) && lo <= root.value <= hi &&
      |cands| == 5 && LeafOn(cands[0], points[2].vector[0]) && LeafOn(cands[1], points[1].vector[0]) &&
      LeafOn(cands[2], points[0].vector[0]) && cands[3] == Build(points[3..5], 0, 2).value &&
      LeafOn(cands[4], points[5].vector[0])
  {
    SixShape(points);
    FrontOfSix(points);
    BackOfSix(points);
    var x := AxisVector(points, 0);
    assert x[0] < x[1] < x[2] < x[3] < x[4] < x[5];
    CandidatesOfSixTree(lo, hi, Build(points, 0, 2).value, x[0], x[1], x[2], x[3], x[4], x[5]);
  }

  /** The associated tree on y over a subset does not report `q` when `q` is
      not in the subset, or when the subset shares its y value and `q` is not
      its first point. */
  lemma SubtreeMisses(points: seq<Datapoint>, region: Region, q: Datapoint)
    requires points != [] && |region| == 2 && Uniform(points, 2)
    requires q !in points || (|Values(points, 1)| == 1 && points[0] != q)
    ensures TreeOk(NewRangeTree(points, 1), 2)
    ensures forall y :: y in Query(NewRangeTree(points, 1), region) ==> y.datapoint != Some(q)
  {
    var t := NewRangeTree(points, 1);
    NewRangeTreeSep(points, 1, 2);
    SepTreeOk(t, 2);
    if q !in points {
      QuerySound(t, region);
    } else {
      LastAxisKeepsFirst(points, region);
    }
  }

  /** The accumulation loop of `range_search` does not report `q` when no
      candidate's associated tree does. */
  lemma {:induction false} CollectMisses(subtrees: seq<Node>, region: Region, bound: nat, q: Datapoint)
    requires forall x :: x in subtrees ==> NodesOk(x, false, |region|) && NodeSize(x) <= bound
    requires forall i :: 0 <= i < |subtrees| ==> Misses(subtrees[i], region, q)
    ensures forall y :: y in Collect(false, subtrees, region, bound) ==> y.datapoint != Some(q)
    decreases |subtrees|
  {
    if subtrees != [] {
      assert subtrees[0] in subtrees;
      assert forall i :: 0 <= i < |subtrees| - 1 ==> subtrees[1..][i] == subtrees[i + 1];
      CollectMisses(subtrees[1..], region, bound, q);
    }
  }

  /** A laid-out leaf on the x axis stores only points on its x value, so
      its associated tree does not report a point off that value. */
  lemma LeafMisses(x: Node, region: Region, q: Datapoint)
    requires SepNode(x, 0, 2) && |region| == 2 && |q.vector| == 2
    requires x.IsLeaf() && x.value != q.vector[0]
    ensures Misses(x, region, q)
  {
    var t := x.subtree.value;
    SepTreeOk(t, 2);
    QuerySound(t, region);
    forall y | y in Query(t, region)
      ensures y.datapoint != Some(q)
    {
      assert y.datapoint.value in Reach(x);
    }
  }

  /** The node over the fourth and fifth points of a row does not report the
      fifth: its associated tree on y is a single leaf holding the fourth. */
  lemma PairNodeMisses(points: seq<Datapoint>, region: Region)
    requires Row(points) && |points| == 6 && |region| == 2
    ensures Uniform(points[3..5], 2)
    ensures Misses(Build(points[3..5], 0, 2).value, region, points[4])
  {
    var pair := points[3..5];
    RowSlice(points, 3, 5);
    RowValues(pair);
    RowSubtree(pair);
    assert pair[0] == points[3] && points[3].vector[0] < points[4].vector[0];
    SubtreeMisses(pair, region, points[4]);
  }

  /** Five laid-out candidates, four of them leaves on x values other than
      that of `q` and the fourth one a node that misses `q`: none reports
      `q`. */
  lemma FiveMiss(cands: seq<Node>, pair: Node, region: Region, q: Datapoint, v0: int, v1: int, v2: int, v4: int)
    requires |cands| == 5 && |region| == 2 && |q.vector| == 2
    requires forall x :: x in cands ==> SepNode(x, 0, 2)
    requires LeafOn(cands[0], v0) && LeafOn(cands[1], v1) && LeafOn(cands[2], v2) && LeafOn(cands[4], v4)
    requires q.vector[0] !in {v0, v1, v2, v4}
    requires cands[3] == pair && Misses(pair, region, q)
    ensures forall i :: 0 <= i < |cands| ==> Misses(cands[i], region, q)
  {
    forall i | 0 <= i < |cands| && i != 3
      ensures Misses(cands[i], region, q)
    {
      assert cands[i] in cands;
      LeafMisses(cands[i], region, q);
    }
  }

  /** The candidates of a row of six points are laid out on the x axis. */
  lemma CandidatesLaidOut(points: seq<Datapoint>, lo: int, hi: int)
    requires Row(points) && |points| == 6
    requires lo <= points[0].vector[0] && points[5].vector[0] <= hi
    ensures Uniform(points, 2)
    ensures forall x :: x in Candidates(lo, hi, Build(points, 0, 2).value) ==> SepNode(x, 0, 2)
  {
    RowUniform(points);
    NewRangeTreeSep(points, 0, 2);
    CandidatesOfSix(points, lo, hi);
    CandidatesSound(lo, hi, Build(points, 0, 2).value, 0, 2);
  }

  /** No candidate of a row of six points reports the fifth point from its
      associated tree. */
  lemma CandidatesMiss(points: seq<Datapoint>, region: Region)
    requires Row(points) && |points| == 6 && |region| == 2
    requires region[0].Lo() <= points[0].vector[0] && points[5].vector[0] <= region[0].Hi()
    ensures Uniform(points, 2)
    ensures var cands := Candidates(region[0].Lo(), region[0].Hi(), Build(points, 0, 2).value);
      forall i :: 0 <= i < |cands| ==> Misses(cands[i], region, points[4])
  {
    var lo, hi := region[0].Lo(), region[0].Hi();
    var root := Build(points, 0, 2).value;
    CandidatesOfSix(points, lo, hi);
    CandidatesLaidOut(points, lo, hi);
    PairNodeMisses(points, region);
    var x := AxisVector(points, 0);
    assert x[0] < x[1] < x[2] < x[4] < x[5];
    FiveMiss(Candidates(lo, hi, root), Build(points[3..5], 0, 2).value, region, points[4], x[2], x[1], x[0], x[5]);
  }

  /** `range_search` from a root that is its own split node collects the
      root's candidates. */
  lemma QueryFromRoot(t: RangeTree, region: Region)
    requires TreeOk(t, |region|) && t.root.Some?
    requires FindSplitNode(region[t.axis].Lo(), region[t.axis].Hi(), t.root.value) == Some(t.root.value)
    ensures var cands := Candidates(region[t.axis].Lo(), region[t.axis].Hi(), t.root.value);
      (forall x :: x in cands ==> NodesOk(x, t.terminalTree, |region|) && NodeSize(x) <= Size(t)) &&
      Query(t, region) == Collect(t.terminalTree, cands, region, Size(t))
  {
    CandidatesFit(t, |region|, region[t.axis].Lo(), region[t.axis].Hi(), t.root.value);
  }

  /** The fifth of six points on one line lies in a region that holds the
      row's x range and its y value. */
  lemma FifthInRegion(points: seq<Datapoint>, region: Region)
    requires Row(points) && |points| == 6 && |region| == 2
    requires region[0].Lo() <= points[0].vector[0] && points[5].vector[0] <= region[0].Hi()
    requires region[1].Lo() <= 5 <= region[1].Hi()
    ensures points[4] in points && InRegion(points[4].vector, region)
  {
    var v := points[4].vector;
    assert |v| == 2 && v[1] == 5;
    assert points[0].vector[0] < v[0] < points[5].vector[0];
  }

  /** Six points on one horizontal line and a region holding all of them:
      the fifth point lies in the region, yet no leaf `range_search`
      reports holds it. */
  lemma SixInARowMissesFifth(points: seq<Datapoint>, region: Region)
    requires Row(points) && |points| == 6 && |region| == 2
    requires region[0].Lo() <= points[0].vector[0] && points[5].vector[0] <= region[0].Hi()
    requires region[1].Lo() <= 5 <= region[1].Hi()
    ensures points[4] in points && InRegion(points[4].vector, region)
    ensures TreeOk(NewRangeTree(points, 0), 2)
    ensures forall y :: y in Query(NewRangeTree(points, 0), region) ==> y.datapoint != Some(points[4])
  {
    FifthInRegion(points, region);
    RowUniform(points);
    var t := NewRangeTree(points, 0);
    NewRangeTreeSep(points, 0, 2);
    SepTreeOk(t, 2);
    CandidatesOfSix(points, region[0].Lo(), region[0].Hi());
    QueryFromRoot(t, region);
    CandidatesMiss(points, region);
    CollectMisses(Candidates(region[0].Lo(), region[0].Hi(), t.root.value), region, Size(t), points[4]);
  }

  /** The instance: the points (1, 5) to (6, 5) and the region [1, 6] x [5, 5].
      The point (5, 5) lies in the region and is never reported. */
  lemma SixPointsLoseOne()
    ensures var points := [Datapoint([1, 5], "a"), Datapoint([2, 5], "b"), Datapoint([3, 5], "c"),
                           Datapoint([4, 5], "d"), Datapoint([5, 5], "e"), Datapoint([6, 5], "f")];
      var region := [Interval(1, 6), Interval(5, 5)];
      Datapoint([5, 5], "e") in points && InRegion([5, 5], region) &&
      TreeOk(NewRangeTree(points, 0), 2) &&
      forall y :: y in Query(NewRangeTree(points, 0), region) ==> y.datapoint != Some(Datapoint([5, 5], "e"))
  {
    var points := [Datapoint([1, 5], "a"), Datapoint([2, 5], "b"), Datapoint([3, 5], "c"),
                   Datapoint([4, 5], "d"), Datapoint([5, 5], "e"), Datapoint([6, 5], "f")];
    var region := [Interval(1, 6), Interval(5, 5)];
    assert Row(points);
    SixInARowMissesFifth(points, region);
  }
}
