/**
 * What the range tree of rangetree.py guarantees once it is built: every node
 * separates its points at its value, and `range_search` returns only leaves
 * whose points are stored in the tree and lie in the searched region.
 */
module RangeTreeFacts {
  import opened Wrappers
  import opened Tools
  import opened RangeTrees

  /** Every datapoint stored at or below `node`, associated trees included. */
  function Reach(node: Node): set<Datapoint>
    decreases node
  {
    (if node.datapoint.Some? then {node.datapoint.value} else {}) +
    (if node.left.Some? then Reach(node.left.value) else {}) +
    (if node.right.Some? then Reach(node.right.value) else {}) +
    (if node.subtree.Some? && node.subtree.value.root.Some? then Reach(node.subtree.value.root.value) else {})
  }

  /** The layout `build` gives a tree over points of `dims` coordinates. */
  predicate SepTree(t: RangeTree, dims: nat)
    decreases t, 1
  {
    t.root.Some? ==>
      t.axis < dims && (t.terminalTree <==> t.axis == dims - 1) &&
      SepNode(t.root.value, t.axis, dims)
  }

  /** A node on `axis`: it has both children or neither; a leaf holds a point
      and everything stored under it has the leaf's value on the axis; the
      left side stores only points at most the node's value and the right
      side only points above it; and exactly the nodes of trees below the
      last axis own an associated tree on the next axis. */
  predicate SepNode(node: Node, axis: nat, dims: nat)
    decreases node, 0
  {
    node.axis == axis && axis < dims &&
    (forall p :: p in Reach(node) ==> |p.vector| == dims) &&
    (node.left.Some? <==> node.right.Some?) &&
    (node.IsLeaf() ==>
      node.datapoint.Some? && forall p :: p in Reach(node) ==> p.vector[axis] == node.value) &&
    (node.left.Some? ==>
      SepNode(node.left.value, axis, dims) &&
      forall p :: p in Reach(node.left.value) ==> p.vector[axis] <= node.value) &&
    (node.right.Some? ==>
      SepNode(node.right.value, axis, dims) &&
      forall p :: p in Reach(node.right.value) ==> p.vector[axis] > node.value) &&
    (node.subtree.Some? <==> axis < dims - 1) &&
    (node.subtree.Some? ==>
      node.subtree.value.axis == axis + 1 && SepTree(node.subtree.value, dims))
  }

  /** The layout is the shape `range_search` relies on. */
  lemma {:induction false} SepTreeOk(t: RangeTree, dims: nat)
    requires SepTree(t, dims)
    ensures TreeOk(t, dims)
    decreases t, 1
  {
    if t.root.Some? {
      SepNodeOk(t.root.value, t.axis, dims);
    }
  }

  lemma {:induction false} SepNodeOk(node: Node, axis: nat, dims: nat)
    requires SepNode(node, axis, dims)
    ensures NodesOk(node, axis == dims - 1, dims)
    decreases node, 0
  {
    if node.left.Some? {
      SepNodeOk(node.left.value, axis, dims);
    }
    if node.right.Some? {
      SepNodeOk(node.right.value, axis, dims);
    }
    if node.subtree.Some? {
      SepTreeOk(node.subtree.value, dims);
    }
  }

  /** A tree built by `RangeTree(points, axis)` has the layout, and stores
      only its own points. */
  lemma {:induction false} NewRangeTreeSep(points: seq<Datapoint>, axis: nat, dims: nat)
    requires Uniform(points, dims) && axis < dims
    ensures TreeSep(points, axis, dims)
    decreases dims - axis, |points|, 1
  {
    if points != [] {
      assert points[0] in points;
      BuildSep(points, axis, dims);
    }
  }

  /** The layout of a node follows from the layout of its parts, when the
      parts store only points of `points`. */
  lemma {:induction false} AssembleSep(node: Node, axis: nat, dims: nat, points: seq<Datapoint>)
    requires node.axis == axis && axis < dims && Uniform(points, dims)
    requires node.left.Some? <==> node.right.Some?
    requires node.datapoint.Some? ==> node.datapoint.value in points
    requires node.IsLeaf() ==>
      node.datapoint.Some? && forall p :: p in points ==> p.vector[axis] == node.value
    requires node.left.Some? ==>
      SepNode(node.left.value, axis, dims) &&
      forall p :: p in Reach(node.left.value) ==> p in points && p.vector[axis] <= node.value
    requires node.right.Some? ==>
      SepNode(node.right.value, axis, dims) &&
      forall p :: p in Reach(node.right.value) ==> p in points && p.vector[axis] > node.value
    requires node.subtree.Some? <==> axis < dims - 1
    requires node.subtree.Some? ==>
      node.subtree.value.axis == axis + 1 && SepTree(node.subtree.value, dims) &&
      (node.subtree.value.root.Some? ==> forall p :: p in Reach(node.subtree.value.root.value) ==> p in points)
    ensures SepNode(node, axis, dims)
    ensures forall p :: p in Reach(node) ==> p in points
  {
  }

  /** The parts of the node `build` makes from a non-empty subset: the median
      coordinate as its value, a point of the subset when all the subset
      shares one coordinate and children over the two halves otherwise, and
      an associated tree over the whole subset below the last axis. */
  lemma {:induction false} BuildParts(points: seq<Datapoint>, axis: nat, dims: nat, v: int)
    requires Uniform(points, dims) && axis < dims && points != []
    requires v == Values(points, axis)[(|Values(points, axis)| - 1) / 2]
    ensures var values := Values(points, axis);
      var node := Build(points, axis, dims).value;
      node.value == v &&
      (|values| == 1 ==> node.datapoint == Some(points[0]) && node.left.None? && node.right.None?) &&
      (|values| > 1 ==>
         node.datapoint.None? &&
         node.left == Build(AtMost(points, axis, v), axis, dims) &&
         node.right == Build(Above(points, axis, v), axis, dims)) &&
      (axis == dims - 1 ==> node.subtree.None?) &&
      (axis < dims - 1 ==> node.subtree == Some(NewRangeTree(points, axis + 1)))
  {
  }

  /** What `RangeTree(points, axis)` is shown to give. */
  predicate TreeSep(points: seq<Datapoint>, axis: nat, dims: nat)
    requires Uniform(points, dims) && axis < dims
  {
    var t := NewRangeTree(points, axis);
    SepTree(t, dims) && (t.root.Some? ==> forall p :: p in Reach(t.root.value) ==> p in points)
  }

  /** What `build` on a subset is shown to give. */
  predicate BuiltSep(points: seq<Datapoint>, axis: nat, dims: nat)
    requires Uniform(points, dims) && axis < dims && points != []
  {
    var node := Build(points, axis, dims).value;
    SepNode(node, axis, dims) && forall p :: p in Reach(node) ==> p in points
  }

  /** The step of `BuildSep` for a subset that shares one coordinate. */
  lemma {:induction false} LeafSep(points: seq<Datapoint>, axis: nat, dims: nat)
    requires Uniform(points, dims) && axis < dims && points != []
    requires |Values(points, axis)| == 1
    requires axis < dims - 1 ==> TreeSep(points, axis + 1, dims)
    ensures BuiltSep(points, axis, dims)
  {
    assert points[0] in points;
    var values := Values(points, axis);
    forall p | p in points ensures p.vector[axis] == values[0] {
      assert p.vector[axis] in values;
    }
    BuildParts(points, axis, dims, values[0]);
    AssembleSep(Build(points, axis, dims).value, axis, dims, points);
  }

  /** The step of `BuildSep` for a subset that `build` splits at the median. */
  lemma {:induction false} BranchSep(points: seq<Datapoint>, axis: nat, dims: nat, v: int)
    requires Uniform(points, dims) && axis < dims && points != []
    requires |Values(points, axis)| > 1 && v == Values(points, axis)[(|Values(points, axis)| - 1) / 2]
    requires axis < dims - 1 ==> TreeSep(points, axis + 1, dims)
    requires AtMost(points, axis, v) != [] && BuiltSep(AtMost(points, axis, v), axis, dims)
    requires Above(points, axis, v) != [] && BuiltSep(Above(points, axis, v), axis, dims)
    ensures BuiltSep(points, axis, dims)
  {
    BuildParts(points, axis, dims, v);
    AssembleSep(Build(points, axis, dims).value, axis, dims, points);
  }

  /** Both halves `build` splits a subset with several coordinates into are
      non-empty: the median goes left and the largest coordinate right. */
  lemma HalvesNonEmpty(points: seq<Datapoint>, axis: nat)
    requires HasAxes(points, axis + 1) && |Values(points, axis)| > 1
    ensures var values := Values(points, axis);
      var v := values[(|values| - 1) / 2];
      AtMost(points, axis, v) != [] && Above(points, axis, v) != []
  {
    var values := Values(points, axis);
    var v := values[(|values| - 1) / 2];
    assert v in values && values[|values| - 1] in values;
    var lo :| lo in points && lo.vector[axis] == v;
    var hi :| hi in points && hi.vector[axis] == values[|values| - 1];
    assert lo in AtMost(points, axis, v) && hi in Above(points, axis, v);
  }

  /** The halves at the median are non-empty, shorter than the subset and
      have the subset's width. */
  lemma {:induction false} Halves(points: seq<Datapoint>, axis: nat, dims: nat, v: int)
    requires Uniform(points, dims) && axis < dims
    requires |Values(points, axis)| > 1 && v == Values(points, axis)[(|Values(points, axis)| - 1) / 2]
    ensures 0 < |AtMost(points, axis, v)| < |points| && Uniform(AtMost(points, axis, v), dims)
    ensures 0 < |Above(points, axis, v)| < |points| && Uniform(Above(points, axis, v), dims)
  {
    SplitShrinks(points, axis);
    HalvesNonEmpty(points, axis);
  }

  /** `build` on a non-empty subset gives a node with the layout that stores
      only points of the subset. */
  lemma {:induction false} BuildSep(points: seq<Datapoint>, axis: nat, dims: nat)
    requires Uniform(points, dims) && axis < dims && points != []
    ensures BuiltSep(points, axis, dims)
    decreases dims - axis, |points|, 0
  {
    assert points[0] in points;
    if axis < dims - 1 {
      NewRangeTreeSep(points, axis + 1, dims);
    }
    assert axis < dims - 1 ==> TreeSep(points, axis + 1, dims);
    var values := Values(points, axis);
    if |values| == 1 {
      LeafSep(points, axis, dims);
    } else {
      var v := values[(|values| - 1) / 2];
      Halves(points, axis, dims, v);
      BuildSep(AtMost(points, axis, v), axis, dims);
      BuildSep(Above(points, axis, v), axis, dims);
      BranchSep(points, axis, dims, v);
    }
  }

  /** Every point stored at or below `node` has its `axis` coordinate at
      least `lo`. */
  predicate NoneBelow(node: Node, axis: nat, lo: int)
  {
    forall p :: p in Reach(node) ==> axis < |p.vector| && lo <= p.vector[axis]
  }

  /** Every point stored at or below `node` has its `axis` coordinate at
      most `hi`. */
  predicate NoneAbove(node: Node, axis: nat, hi: int)
  {
    forall p :: p in Reach(node) ==> axis < |p.vector| && p.vector[axis] <= hi
  }

  /** A node below a laid-out node is laid out and stores a part of its points. */
  lemma {:induction false} BelowSep(x: Node, node: Node, axis: nat, dims: nat)
    requires Below(x, node) && SepNode(node, axis, dims)
    ensures SepNode(x, axis, dims) && Reach(x) <= Reach(node)
    decreases node
  {
    if x != node {
      if node.left.Some? && Below(x, node.left.value) {
        BelowSep(x, node.left.value, axis, dims);
      } else {
        BelowSep(x, node.right.value, axis, dims);
      }
    }
  }

  /** `split_search` returns laid-out subtrees of `node` whose points all lie
      in `[start, end]` on the axis, given that the side it walks away from
      is already bounded: by `end` for the left walk, by `start` for the
      right walk. */
  lemma {:induction false} SplitSearchSound(start: int, end: int, node: Node, rightSearch: bool, axis: nat, dims: nat)
    requires SepNode(node, axis, dims)
    requires if rightSearch then NoneBelow(node, axis, start) else NoneAbove(node, axis, end)
    ensures forall x :: x in SplitSearch(start, end, node, rightSearch) ==>
      SepNode(x, axis, dims) && Reach(x) <= Reach(node) &&
      NoneBelow(x, axis, start) && NoneAbove(x, axis, end)
  {
    forall x | x in SplitSearch(start, end, node, rightSearch)
      ensures SepNode(x, axis, dims) && Reach(x) <= Reach(node) &&
              NoneBelow(x, axis, start) && NoneAbove(x, axis, end)
    {
      SplitSearchSoundAt(start, end, node, rightSearch, axis, dims, x);
    }
  }

  /** `SplitSearchSound` for one subtree the walk collects. */
  lemma {:induction false} SplitSearchSoundAt(start: int, end: int, node: Node, rightSearch: bool, axis: nat, dims: nat, x: Node)
    requires SepNode(node, axis, dims)
    requires if rightSearch then NoneBelow(node, axis, start) else NoneAbove(node, axis, end)
    requires x in SplitSearch(start, end, node, rightSearch)
    ensures SepNode(x, axis, dims) && Reach(x) <= Reach(node) &&
      NoneBelow(x, axis, start) && NoneAbove(x, axis, end)
    decreases node
  {
    var right := if rightSearch then node.left else node.right;
    var left := if rightSearch then node.right else node.left;
    if right.Some? {
      if start <= node.value <= end {
        if x != right.value {
          SplitSearchSoundAt(start, end, left.value, rightSearch, axis, dims, x);
        }
      } else {
        SplitSearchSoundAt(start, end, right.value, rightSearch, axis, dims, x);
      }
    }
  }

  /** The candidates below a split node whose value lies in `[start, end]`
      are laid-out subtrees of it whose points all lie in `[start, end]`. */
  lemma CandidatesSound(start: int, end: int, splitnode: Node, axis: nat, dims: nat)
    requires SepNode(splitnode, axis, dims) && start <= splitnode.value <= end
    ensures forall x :: x in Candidates(start, end, splitnode) ==>
      SepNode(x, axis, dims) && Reach(x) <= Reach(splitnode) &&
      NoneBelow(x, axis, start) && NoneAbove(x, axis, end)
  {
    if !splitnode.IsLeaf() {
      SplitSearchSound(start, end, splitnode.left.value, false, axis, dims);
      SplitSearchSound(start, end, splitnode.right.value, true, axis, dims);
    }
  }

  /** The point has `dims` coordinates and lies in the region on every axis
      from `axis` on. */
  predicate FitsFrom(p: Datapoint, region: Region, axis: nat)
  {
    |p.vector| == |region| &&
    forall k :: axis <= k < |region| ==> region[k].Lo() <= p.vector[k] <= region[k].Hi()
  }

  /** What `range_search` returns from a laid-out tree: leaves holding points
      the tree stores that lie in the region on the tree's axis and on every
      later one. */
  predicate Sound(results: seq<Node>, stored: set<Datapoint>, region: Region, axis: nat)
  {
    forall x :: x in results ==>
      x.IsLeaf() && x.datapoint.Some? && x.datapoint.value in stored &&
      FitsFrom(x.datapoint.value, region, axis)
  }

  /** `range_search` on a laid-out tree reports only stored points of the
      region. */
  lemma {:induction false} QuerySound(t: RangeTree, region: Region)
    requires SepTree(t, |region|) && TreeOk(t, |region|)
    ensures Sound(Query(t, region), if t.root.Some? then Reach(t.root.value) else {}, region, t.axis)
    decreases Size(t), 1, 0
  {
    if t.root.Some? {
      var start := region[t.axis].Lo();
      var end := region[t.axis].Hi();
      var split := FindSplitNode(start, end, t.root.value);
      if split.Some? {
        BelowSep(split.value, t.root.value, t.axis, |region|);
        CandidatesSound(start, end, split.value, t.axis, |region|);
        CandidatesFit(t, |region|, start, end, split.value);
        CollectSound(t.terminalTree, Candidates(start, end, split.value), region, Size(t), t.axis, Reach(t.root.value));
      }
    }
  }

  /** The accumulation loop of `range_search` keeps the results sound when
      every candidate is laid out, stores only points of `stored` and lies
      in the region on the axis. */
  lemma {:induction false} CollectSound(terminal: bool, subtrees: seq<Node>, region: Region, bound: nat,
                                        axis: nat, stored: set<Datapoint>)
    requires forall x :: x in subtrees ==> NodesOk(x, terminal, |region|) && NodeSize(x) <= bound
    requires axis < |region| && (terminal <==> axis == |region| - 1)
    requires forall x :: x in subtrees ==>
      SepNode(x, axis, |region|) && Reach(x) <= stored &&
      NoneBelow(x, axis, region[axis].Lo()) && NoneAbove(x, axis, region[axis].Hi())
    ensures Sound(Collect(terminal, subtrees, region, bound), stored, region, axis)
    decreases bound, 0, |subtrees|
  {
    if subtrees != [] {
      var tree := subtrees[0];
      assert tree in subtrees;
      CollectSound(terminal, subtrees[1..], region, bound, axis, stored);
      if terminal {
        forall x | x in ExtractLeafs(tree)
          ensures x.IsLeaf() && x.datapoint.Some? && x.datapoint.value in stored &&
                  FitsFrom(x.datapoint.value, region, axis)
        {
          BelowSep(x, tree, axis, |region|);
          assert x.datapoint.value in Reach(x);
        }
      } else {
        var sub := tree.subtree.value;
        QuerySound(sub, region);
      }
    }
  }

  /** `RangeTree(datapoints)` followed by `range_search(region)` reports only
      leaves holding input points that lie in the region. */
  lemma RangeSearchSound(points: seq<Datapoint>, region: Region)
    requires Uniform(points, |region|) && |region| > 0
    ensures TreeOk(NewRangeTree(points, 0), |region|)
    ensures forall x :: x in Query(NewRangeTree(points, 0), region) ==>
      x.IsLeaf() && x.datapoint.Some? && x.datapoint.value in points &&
      InRegion(x.datapoint.value.vector, region)
  {
    var t := NewRangeTree(points, 0);
    NewRangeTreeSep(points, 0, |region|);
    SepTreeOk(t, |region|);
    QuerySound(t, region);
  }

  /** `range_search` orders the two bounds of each axis itself, so a region
      written with reversed bounds gives the same result. */
  lemma {:induction false} QuerySwap(t: RangeTree, region: Region)
    requires TreeOk(t, |region|)
    ensures Query(t, Flipped(region)) == Query(t, region)
    decreases Size(t), 1, 0
  {
    if t.root.Some? {
      var start := region[t.axis].Lo();
      var end := region[t.axis].Hi();
      assert Flipped(region)[t.axis].Lo() == start && Flipped(region)[t.axis].Hi() == end;
      var split := FindSplitNode(start, end, t.root.value);
      if split.Some? {
        CandidatesFit(t, |region|, start, end, split.value);
        CollectSwap(t.terminalTree, Candidates(start, end, split.value), region, Size(t));
      }
    }
  }

  lemma {:induction false} CollectSwap(terminal: bool, subtrees: seq<Node>, region: Region, bound: nat)
    requires forall x :: x in subtrees ==> NodesOk(x, terminal, |region|) && NodeSize(x) <= bound
    ensures Collect(terminal, subtrees, Flipped(region), bound) == Collect(terminal, subtrees, region, bound)
    decreases bound, 0, |subtrees|
  {
    if subtrees != [] {
      var tree := subtrees[0];
      assert tree in subtrees;
      CollectSwap(terminal, subtrees[1..], region, bound);
      if !terminal {
        QuerySwap(tree.subtree.value, region);
      }
    }
  }

  /** The tree with the two children of every node exchanged. */
  function Mirror(node: Node): (m: Node)
    ensures m.value == node.value && m.IsLeaf() == node.IsLeaf()
    decreases node
  {
    Node(node.value, node.axis,
         if node.right.Some? then Some(Mirror(node.right.value)) else None,
         if node.left.Some? then Some(Mirror(node.left.value)) else None,
         node.datapoint, node.subtree)
  }

  function MirrorAll(nodes: seq<Node>): (r: seq<Node>)
    ensures |r| == |nodes|
  {
    if nodes == [] then [] else [Mirror(nodes[0])] + MirrorAll(nodes[1..])
  }

  /** The right walk of `split_search` is the left walk on the mirrored
      tree, node for mirrored node. */
  lemma {:induction false} SplitSearchMirror(start: int, end: int, node: Node)
    ensures SplitSearch(start, end, Mirror(node), false) == MirrorAll(SplitSearch(start, end, node, true))
    decreases node
  {
    var m := Mirror(node);
    if node.left.Some? {
      if start <= node.value <= end {
        if node.right.Some? {
          SplitSearchMirror(start, end, node.right.value);
        }
        var rest := if node.right.Some? then SplitSearch(start, end, node.right.value, true) else [];
        assert MirrorAll([node.left.value] + rest) == [Mirror(node.left.value)] + MirrorAll(rest) by {
          assert ([node.left.value] + rest)[1..] == rest;
        }
      } else {
        SplitSearchMirror(start, end, node.left.value);
      }
    } else if start <= node.value <= end && node.right.Some? {
      SplitSearchMirror(start, end, node.right.value);
    }
  }

  /** A tree built from no points has no root, and `range_search` on it finds
      nothing. */
  lemma EmptyTree(region: Region)
    ensures NewRangeTree([], 0).root.None?
    ensures TreeOk(NewRangeTree([], 0), |region|) && Query(NewRangeTree([], 0), region) == []
  {
  }

  /** A terminal tree over points that share their last coordinate is a
      single leaf holding the first of them, so `range_search` reports at most
      that one point however many the subset holds. */
  lemma LastAxisKeepsFirst(points: seq<Datapoint>, region: Region)
    requires points != [] && |region| > 0 && Uniform(points, |region|)
    requires |Values(points, |region| - 1)| == 1
    ensures TreeOk(NewRangeTree(points, |region| - 1), |region|)
    ensures var results := Query(NewRangeTree(points, |region| - 1), region);
      |results| <= 1 && forall x :: x in results ==> x.datapoint == Some(points[0])
  {
    var dims := |region|;
    assert points[0] in points;
    var t := NewRangeTree(points, dims - 1);
    BuildParts(points, dims - 1, dims, Values(points, dims - 1)[0]);
    var leaf := t.root.value;
    assert leaf.IsLeaf() && leaf.subtree.None? && leaf.datapoint == Some(points[0]);
    var start := region[dims - 1].Lo();
    var end := region[dims - 1].Hi();
    if start <= leaf.value <= end {
      assert Candidates(start, end, leaf) == [leaf];
      assert Collect(true, [leaf], region, Size(t)) == [leaf] + Collect(true, [], region, Size(t));
    }
  }
}
