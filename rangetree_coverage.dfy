/**
 * What the range tree of rangetree.py finds: `search` reaches every stored
 * point, `find_split_node` keeps every point of the searched range below the
 * node it returns, the subtrees `split_search` collects cover every point of
 * the range, and `range_search` reports every point of the region as long as
 * no two points share their last coordinate.
 */
module RangeTreeCoverage {
  import opened Wrappers
  import opened Tools
  import opened RangeTrees
  import opened RangeTreeFacts

  /** Every point of `points` has `p`'s coordinates on the axes before `axis`. */
  predicate Agree(points: seq<Datapoint>, p: Datapoint, axis: nat)
  {
    forall q, k :: q in points && 0 <= k < axis && k < |q.vector| && k < |p.vector| ==> q.vector[k] == p.vector[k]
  }

  /** All points of a subset with one distinct coordinate have that coordinate. */
  lemma {:induction false} OneValue(points: seq<Datapoint>, axis: nat)
    requires HasAxes(points, axis + 1) && |Values(points, axis)| == 1
    ensures forall q :: q in points ==> q.vector[axis] == Values(points, axis)[0]
  {
    forall q | q in points ensures q.vector[axis] == Values(points, axis)[0] {
      assert q.vector[axis] in Values(points, axis);
    }
  }

  /** One step of the descent of `search`: a coordinate at most the node's
      value goes to the left child, a larger one to the right child, and at a
      leaf the search enters the associated tree or compares the point. */
  lemma {:induction false} SearchStep(t: RangeTree, point: seq<int>, node: Node)
    requires t.root.Some? && TreeOk(t, |point|) && NodesOk(node, t.terminalTree, |point|)
    ensures point[t.axis] <= node.value && node.left.Some? ==>
      NodesOk(node.left.value, t.terminalTree, |point|) &&
      SearchFrom(t, point, node) == SearchFrom(t, point, node.left.value)
    ensures point[t.axis] > node.value && node.right.Some? ==>
      NodesOk(node.right.value, t.terminalTree, |point|) &&
      SearchFrom(t, point, node) == SearchFrom(t, point, node.right.value)
    ensures point[t.axis] <= node.value && node.IsLeaf() && node.subtree.Some? ==>
      TreeOk(node.subtree.value, |point|) &&
      SearchFrom(t, point, node) == Search(node.subtree.value, point)
    ensures point[t.axis] <= node.value && node.IsLeaf() && node.subtree.None? &&
            node.datapoint.Some? && node.datapoint.value.vector == point ==>
      SearchFrom(t, point, node) == Some(node)
  {
  }

  /** The descent of `search` from the node built over `points` reaches the
      leaf of every point `p` among them, when they all agree with `p` on the
      axes already passed. */
  lemma {:induction false} SearchFromFinds(t: RangeTree, points: seq<Datapoint>, axis: nat, dims: nat, p: Datapoint)
    requires Uniform(points, dims) && axis < dims && p in points && Agree(points, p, axis)
    requires t.root.Some? && t.axis == axis && (t.terminalTree <==> axis == dims - 1) && TreeOk(t, dims)
    requires NodesOk(Build(points, axis, dims).value, t.terminalTree, dims)
    ensures SearchFrom(t, p.vector, Build(points, axis, dims).value).Some?
    decreases dims - axis, |points|, 1
  {
    var values := Values(points, axis);
    var v := values[(|values| - 1) / 2];
    assert p.vector[axis] in values;
    if |values| == 1 {
      LeafFinds(t, points, axis, dims, p);
    } else {
      var node := Build(points, axis, dims).value;
      BuildParts(points, axis, dims, v);
      SearchStep(t, p.vector, node);
      Halves(points, axis, dims, v);
      if p.vector[axis] <= v {
        SearchFromFinds(t, AtMost(points, axis, v), axis, dims, p);
      } else {
        SearchFromFinds(t, Above(points, axis, v), axis, dims, p);
      }
    }
  }

  /** At a leaf (one distinct coordinate left) the descent either enters the
      associated tree, whose points all agree with `p` one axis further, or
      compares `p` with the leaf's point, which then equals it. */
  lemma {:induction false} LeafFinds(t: RangeTree, points: seq<Datapoint>, axis: nat, dims: nat, p: Datapoint)
    requires Uniform(points, dims) && axis < dims && p in points && Agree(points, p, axis)
    requires t.root.Some? && t.axis == axis && (t.terminalTree <==> axis == dims - 1) && TreeOk(t, dims)
    requires NodesOk(Build(points, axis, dims).value, t.terminalTree, dims)
    requires |Values(points, axis)| == 1
    ensures SearchFrom(t, p.vector, Build(points, axis, dims).value).Some?
    decreases dims - axis, |points|, 0
  {
    var node := Build(points, axis, dims).value;
    var values := Values(points, axis);
    BuildParts(points, axis, dims, values[0]);
    SearchStep(t, p.vector, node);
    OneValue(points, axis);
    assert p.vector[axis] == values[0] by {
      assert p.vector[axis] in values;
    }
    if axis < dims - 1 {
      forall q, k | q in points && 0 <= k < axis + 1 && k < |q.vector| && k < |p.vector|
        ensures q.vector[k] == p.vector[k]
      {
        if k == axis {
          assert q.vector[axis] == values[0];
        }
      }
      SearchFinds(points, axis + 1, dims, p);
    } else {
      var q := points[0];
      assert q in points;
      forall k | 0 <= k < dims ensures q.vector[k] == p.vector[k] {
      }
      assert q.vector == p.vector;
    }
  }

  /** `RangeTree(points, axis).search(p.vector)` finds every point `p` of the
      subset, when the subset agrees with `p` on the axes before `axis`. */
  lemma {:induction false} SearchFinds(points: seq<Datapoint>, axis: nat, dims: nat, p: Datapoint)
    requires Uniform(points, dims) && axis < dims && p in points && Agree(points, p, axis)
    ensures TreeOk(NewRangeTree(points, axis), dims)
    ensures Search(NewRangeTree(points, axis), p.vector).Some?
    decreases dims - axis, |points|, 2
  {
    assert points[0] in points;
    NewRangeTreeSep(points, axis, dims);
    SepTreeOk(NewRangeTree(points, axis), dims);
    SearchFromFinds(NewRangeTree(points, axis), points, axis, dims, p);
  }

  /** What the descent from `node` finds is a point stored at or below it. */
  lemma {:induction false} SearchFromStored(t: RangeTree, point: seq<int>, node: Node)
    requires t.root.Some? && TreeOk(t, |point|) && NodesOk(node, t.terminalTree, |point|)
    ensures SearchFrom(t, point, node).Some? ==> SearchFrom(t, point, node).value.datapoint.value in Reach(node)
    decreases NodeSize(node), 0
  {
    if point[t.axis] <= node.value {
      if node.left.Some? {
        SearchFromStored(t, point, node.left.value);
      } else if node.IsLeaf() && node.subtree.Some? {
        SearchStored(node.subtree.value, point);
      }
    } else if node.right.Some? {
      SearchFromStored(t, point, node.right.value);
    }
  }

  /** What `search` finds is a point stored in the tree. */
  lemma {:induction false} SearchStored(t: RangeTree, point: seq<int>)
    requires TreeOk(t, |point|)
    ensures Search(t, point).Some? ==> t.root.Some? && Search(t, point).value.datapoint.value in Reach(t.root.value)
    decreases Size(t), 1
  {
    if t.root.Some? {
      SearchFromStored(t, point, t.root.value);
    }
  }

  /** `RangeTree(points).search(v)` finds a leaf exactly when some input point
      has the coordinates `v`. */
  lemma SearchExact(points: seq<Datapoint>, v: seq<int>)
    requires Uniform(points, |v|) && |v| > 0
    ensures TreeOk(NewRangeTree(points, 0), |v|)
    ensures Search(NewRangeTree(points, 0), v).Some? <==> exists p :: p in points && p.vector == v
  {
    var t := NewRangeTree(points, 0);
    NewRangeTreeSep(points, 0, |v|);
    SepTreeOk(t, |v|);
    SearchStored(t, v);
    if exists p :: p in points && p.vector == v {
      var p :| p in points && p.vector == v;
      SearchFinds(points, 0, |v|, p);
    }
  }

  /** `find_split_node` on the tree built over `points` answers None exactly
      when no point lies in `[lo, hi]` on the axis. */
  lemma {:induction false} SplitNodeNone(points: seq<Datapoint>, axis: nat, dims: nat, lo: int, hi: int)
    requires Uniform(points, dims) && axis < dims && points != []
    ensures FindSplitNode(lo, hi, Build(points, axis, dims).value).None? <==>
      forall q :: q in points ==> !(lo <= q.vector[axis] <= hi)
    decreases |points|
  {
    var values := Values(points, axis);
    var v := values[(|values| - 1) / 2];
    if lo <= v <= hi || |values| == 1 {
      SplitNodeLeafOrHit(points, axis, dims, lo, hi, v);
    } else {
      var half := SplitNodeStep(points, axis, dims, lo, hi, v);
      SplitNodeNone(half, axis, dims, lo, hi);
    }
  }

  /** The two cases where `find_split_node` stops at the node built over
      `points`: its value lies in the range, or it is a leaf, whose points
      all have its value. */
  lemma SplitNodeLeafOrHit(points: seq<Datapoint>, axis: nat, dims: nat, lo: int, hi: int, v: int)
    requires Uniform(points, dims) && axis < dims && points != []
    requires v == Values(points, axis)[(|Values(points, axis)| - 1) / 2]
    requires lo <= v <= hi || |Values(points, axis)| == 1
    ensures FindSplitNode(lo, hi, Build(points, axis, dims).value).None? <==>
      forall q :: q in points ==> !(lo <= q.vector[axis] <= hi)
  {
    var node := Build(points, axis, dims).value;
    BuildParts(points, axis, dims, v);
    if |Values(points, axis)| == 1 {
      OneValue(points, axis);
      StopsHere(lo, hi, node, points, axis, points[0]);
    } else {
      assert v in Values(points, axis);
      var w :| w in points && w.vector[axis] == v;
      StopsHere(lo, hi, node, points, axis, w);
    }
  }

  /** `find_split_node` stops at a node whose value is the coordinate of a
      point `w` of the subset, when the value lies in the range or the node
      is a leaf whose points all share it. */
  lemma StopsHere(lo: int, hi: int, node: Node, points: seq<Datapoint>, axis: nat, w: Datapoint)
    requires HasAxes(points, axis + 1) && w in points && w.vector[axis] == node.value
    requires lo <= node.value <= hi || (node.IsLeaf() && forall q :: q in points ==> q.vector[axis] == node.value)
    ensures FindSplitNode(lo, hi, node).None? <==> forall q :: q in points ==> !(lo <= q.vector[axis] <= hi)
  {
  }

  /** Where `find_split_node` passes the node built over `points` by, it
      continues in the child built over the half that holds every point of
      the range. */
  lemma SplitNodeStep(points: seq<Datapoint>, axis: nat, dims: nat, lo: int, hi: int, v: int)
    returns (half: seq<Datapoint>)
    requires Uniform(points, dims) && axis < dims && points != []
    requires v == Values(points, axis)[(|Values(points, axis)| - 1) / 2]
    requires !(lo <= v <= hi) && |Values(points, axis)| > 1
    ensures 0 < |half| < |points| && Uniform(half, dims) && (forall q :: q in half ==> q in points)
    ensures forall q :: q in points && lo <= q.vector[axis] <= hi ==> q in half
    ensures FindSplitNode(lo, hi, Build(points, axis, dims).value) == FindSplitNode(lo, hi, Build(half, axis, dims).value)
  {
    var node := Build(points, axis, dims).value;
    BuildParts(points, axis, dims, v);
    Halves(points, axis, dims, v);
    if v < lo {
      half := Above(points, axis, v);
      var child := Build(half, axis, dims).value;
      assert node.value < lo && node.right == Some(child);
      FindSplitPasses(lo, hi, node, child);
    } else {
      half := AtMost(points, axis, v);
      var child := Build(half, axis, dims).value;
      assert node.value > hi && node.left == Some(child);
      FindSplitPasses(lo, hi, node, child);
    }
  }

  /** `find_split_node` leaves a node whose value lies outside the range for
      the child on the range's side. */
  lemma FindSplitPasses(lo: int, hi: int, node: Node, child: Node)
    requires (node.value < lo && node.right == Some(child)) || (node.value > hi && node.left == Some(child))
    ensures FindSplitNode(lo, hi, node) == FindSplitNode(lo, hi, child)
  {
  }

  /** The node `find_split_node` returns from the tree built over `points` is
      the one built over a subset that holds every point of `[lo, hi]`, so no
      point of the range lies outside the subtree it roots. */
  lemma {:induction false} SplitNodeCovers(points: seq<Datapoint>, axis: nat, dims: nat, lo: int, hi: int)
    returns (sub: seq<Datapoint>)
    requires Uniform(points, dims) && axis < dims && points != []
    requires FindSplitNode(lo, hi, Build(points, axis, dims).value).Some?
    ensures sub != [] && Uniform(sub, dims) && (forall q :: q in sub ==> q in points)
    ensures FindSplitNode(lo, hi, Build(points, axis, dims).value).value == Build(sub, axis, dims).value
    ensures forall q :: q in points && lo <= q.vector[axis] <= hi ==> q in sub
    decreases |points|
  {
    var values := Values(points, axis);
    var v := values[(|values| - 1) / 2];
    sub := points;
    if !(lo <= v <= hi) {
      if |values| == 1 {
        SplitNodeLeafOrHit(points, axis, dims, lo, hi, v);
        assert false;
      }
      var half := SplitNodeStep(points, axis, dims, lo, hi, v);
      sub := SplitNodeCovers(half, axis, dims, lo, hi);
    } else {
      BuildParts(points, axis, dims, v);
    }
  }

  /** The left walk of `split_search` below the split node, over points all
      at most `hi`, reaches a subtree built over a subset holding each point
      that is at least `lo`. */
  lemma {:induction false} LeftWalkCovers(points: seq<Datapoint>, axis: nat, dims: nat, lo: int, hi: int, q: Datapoint)
    returns (sub: seq<Datapoint>)
    requires Uniform(points, dims) && axis < dims && q in points
    requires forall p :: p in points ==> p.vector[axis] <= hi
    requires lo <= q.vector[axis]
    ensures sub != [] && Uniform(sub, dims) && (forall p :: p in sub ==> p in points) && q in sub
    ensures Build(sub, axis, dims).value in SplitSearch(lo, hi, Build(points, axis, dims).value, false)
    decreases |points|, 1
  {
    var values := Values(points, axis);
    if |values| > 1 {
      sub := LeftWalkBranch(points, axis, dims, lo, hi, q, values[(|values| - 1) / 2]);
    } else {
      sub := points;
      WalkEndsAtLeaf(points, axis, dims, lo, hi, q, false);
    }
  }

  /** The left walk at a node with two children: inside the range it takes
      the right child whole when it holds `q` and walks on left otherwise;
      outside it walks on right. */
  lemma {:induction false} LeftWalkBranch(points: seq<Datapoint>, axis: nat, dims: nat, lo: int, hi: int, q: Datapoint, v: int)
    returns (sub: seq<Datapoint>)
    requires Uniform(points, dims) && axis < dims && q in points
    requires forall p :: p in points ==> p.vector[axis] <= hi
    requires lo <= q.vector[axis]
    requires |Values(points, axis)| > 1 && v == Values(points, axis)[(|Values(points, axis)| - 1) / 2]
    ensures sub != [] && Uniform(sub, dims) && (forall p :: p in sub ==> p in points) && q in sub
    ensures Build(sub, axis, dims).value in SplitSearch(lo, hi, Build(points, axis, dims).value, false)
    decreases |points|, 0
  {
    var node := Build(points, axis, dims).value;
    BuildParts(points, axis, dims, v);
    Halves(points, axis, dims, v);
    var atMost, above := AtMost(points, axis, v), Above(points, axis, v);
    if lo <= v && q.vector[axis] > v {
      sub := above;
      TakeFar(lo, hi, node, false, node.right.value);
    } else if lo <= v {
      sub := LeftWalkCovers(atMost, axis, dims, lo, hi, q);
      TakeNear(lo, hi, node, false, Build(sub, axis, dims).value);
    } else {
      sub := LeftWalkCovers(above, axis, dims, lo, hi, q);
      TakePass(lo, hi, node, false, Build(sub, axis, dims).value);
    }
  }

  /** The right walk of `split_search` below the split node, over points all
      at least `lo`, reaches a subtree built over a subset holding each point
      that is at most `hi`. */
  lemma {:induction false} RightWalkCovers(points: seq<Datapoint>, axis: nat, dims: nat, lo: int, hi: int, q: Datapoint)
    returns (sub: seq<Datapoint>)
    requires Uniform(points, dims) && axis < dims && q in points
    requires forall p :: p in points ==> lo <= p.vector[axis]
    requires q.vector[axis] <= hi
    ensures sub != [] && Uniform(sub, dims) && (forall p :: p in sub ==> p in points) && q in sub
    ensures Build(sub, axis, dims).value in SplitSearch(lo, hi, Build(points, axis, dims).value, true)
    decreases |points|, 1
  {
    var values := Values(points, axis);
    if |values| > 1 {
      sub := RightWalkBranch(points, axis, dims, lo, hi, q, values[(|values| - 1) / 2]);
    } else {
      sub := points;
      WalkEndsAtLeaf(points, axis, dims, lo, hi, q, true);
    }
  }

  /** The right walk at a node with two children: inside the range it takes
      the left child whole when it holds `q` and walks on right otherwise;
      outside it walks on left. */
  lemma {:induction false} RightWalkBranch(points: seq<Datapoint>, axis: nat, dims: nat, lo: int, hi: int, q: Datapoint, v: int)
    returns (sub: seq<Datapoint>)
    requires Uniform(points, dims) && axis < dims && q in points
    requires forall p :: p in points ==> lo <= p.vector[axis]
    requires q.vector[axis] <= hi
    requires |Values(points, axis)| > 1 && v == Values(points, axis)[(|Values(points, axis)| - 1) / 2]
    ensures sub != [] && Uniform(sub, dims) && (forall p :: p in sub ==> p in points) && q in sub
    ensures Build(sub, axis, dims).value in SplitSearch(lo, hi, Build(points, axis, dims).value, true)
    decreases |points|, 0
  {
    var node := Build(points, axis, dims).value;
    BuildParts(points, axis, dims, v);
    Halves(points, axis, dims, v);
    var atMost, above := AtMost(points, axis, v), Above(points, axis, v);
    if v <= hi && q.vector[axis] <= v {
      sub := atMost;
      TakeFar(lo, hi, node, true, node.left.value);
    } else if v <= hi {
      sub := RightWalkCovers(above, axis, dims, lo, hi, q);
      TakeNear(lo, hi, node, true, Build(sub, axis, dims).value);
    } else {
      sub := RightWalkCovers(atMost, axis, dims, lo, hi, q);
      TakePass(lo, hi, node, true, Build(sub, axis, dims).value);
    }
  }

  /** Inside the range a walk takes the child on its far side whole. */
  lemma TakeFar(lo: int, hi: int, node: Node, rightSearch: bool, x: Node)
    requires node.left.Some? && node.right.Some? && lo <= node.value <= hi
    requires x == if rightSearch then node.left.value else node.right.value
    ensures x in SplitSearch(lo, hi, node, rightSearch)
  {
  }

  /** Inside the range a walk keeps what it finds in the child on its near side. */
  lemma TakeNear(lo: int, hi: int, node: Node, rightSearch: bool, x: Node)
    requires node.left.Some? && node.right.Some? && lo <= node.value <= hi
    requires x in SplitSearch(lo, hi, if rightSearch then node.right.value else node.left.value, rightSearch)
    ensures x in SplitSearch(lo, hi, node, rightSearch)
  {
  }

  /** Outside the range a walk keeps what it finds in the child on its far side. */
  lemma TakePass(lo: int, hi: int, node: Node, rightSearch: bool, x: Node)
    requires node.left.Some? && node.right.Some? && !(lo <= node.value <= hi)
    requires x in SplitSearch(lo, hi, if rightSearch then node.left.value else node.right.value, rightSearch)
    ensures x in SplitSearch(lo, hi, node, rightSearch)
  {
  }

  /** A walk of `split_search` that reaches the leaf built over points
      sharing one coordinate, which lies in the range, takes that leaf. */
  lemma WalkEndsAtLeaf(points: seq<Datapoint>, axis: nat, dims: nat, lo: int, hi: int, q: Datapoint, rightSearch: bool)
    requires Uniform(points, dims) && axis < dims && q in points
    requires |Values(points, axis)| == 1 && lo <= q.vector[axis] <= hi
    ensures Build(points, axis, dims).value in SplitSearch(lo, hi, Build(points, axis, dims).value, rightSearch)
  {
    var values := Values(points, axis);
    BuildParts(points, axis, dims, values[0]);
    OneValue(points, axis);
  }

  /** Below a split node whose value lies in `[lo, hi]`, every point of the
      range is held by the subset of one of the candidate subtrees. */
  lemma {:induction false} CandidatesCover(points: seq<Datapoint>, axis: nat, dims: nat, lo: int, hi: int, q: Datapoint)
    returns (sub: seq<Datapoint>)
    requires Uniform(points, dims) && axis < dims && q in points
    requires lo <= q.vector[axis] <= hi && lo <= Build(points, axis, dims).value.value <= hi
    ensures sub != [] && Uniform(sub, dims) && (forall p :: p in sub ==> p in points) && q in sub
    ensures Build(sub, axis, dims).value in Candidates(lo, hi, Build(points, axis, dims).value)
  {
    var values := Values(points, axis);
    var v := values[(|values| - 1) / 2];
    BuildParts(points, axis, dims, v);
    sub := points;
    if |values| > 1 {
      Halves(points, axis, dims, v);
      if q.vector[axis] <= v {
        sub := LeftWalkCovers(AtMost(points, axis, v), axis, dims, lo, hi, q);
      } else {
        sub := RightWalkCovers(Above(points, axis, v), axis, dims, lo, hi, q);
      }
    }
  }

  /** The loop of `range_search` keeps everything a candidate contributes:
      its leaves on the terminal axis, otherwise what its associated tree
      reports. */
  lemma {:induction false} CollectHas(terminal: bool, subtrees: seq<Node>, region: Region, bound: nat, i: nat, y: Node)
    requires forall x :: x in subtrees ==> NodesOk(x, terminal, |region|) && NodeSize(x) <= bound
    requires i < |subtrees|
    requires if terminal then y in ExtractLeafs(subtrees[i])
             else subtrees[i].subtree.Some? && TreeOk(subtrees[i].subtree.value, |region|) &&
                  y in Query(subtrees[i].subtree.value, region)
    ensures y in Collect(terminal, subtrees, region, bound)
    decreases i
  {
    if i > 0 {
      assert subtrees[1..][i - 1] == subtrees[i];
      CollectHas(terminal, subtrees[1..], region, bound, i - 1, y);
    }
  }

  /** No two points share their coordinate on `axis`. */
  predicate DistinctOn(points: seq<Datapoint>, axis: nat)
  {
    forall p, q :: (p in points && q in points && axis < |p.vector| && axis < |q.vector| &&
                    p.vector[axis] == q.vector[axis]) ==> p == q
  }

  /** No other point of `points` has `q`'s coordinate on `axis`. */
  predicate AloneOn(points: seq<Datapoint>, q: Datapoint, axis: nat)
  {
    forall p :: (p in points && axis < |p.vector| && axis < |q.vector| && p.vector[axis] == q.vector[axis]) ==> p == q
  }

  /** On the terminal axis every point that no other point shares its last
      coordinate with is the point of one of the leaves `extract_leafs` lists. */
  lemma {:induction false} TerminalLeafHolds(points: seq<Datapoint>, dims: nat, q: Datapoint) returns (leaf: Node)
    requires dims > 0 && Uniform(points, dims) && q in points && AloneOn(points, q, dims - 1)
    ensures leaf in ExtractLeafs(Build(points, dims - 1, dims).value) && leaf.datapoint == Some(q)
    decreases |points|
  {
    var axis := dims - 1;
    var node := Build(points, axis, dims).value;
    var values := Values(points, axis);
    var v := values[(|values| - 1) / 2];
    if |values| == 1 {
      LoneLeafHolds(points, dims, q);
      leaf := node;
    } else {
      var atMost, above := AtMost(points, axis, v), Above(points, axis, v);
      Halves(points, axis, dims, v);
      assert node.left == Build(atMost, axis, dims) && node.right == Build(above, axis, dims) by {
        BuildParts(points, axis, dims, v);
      }
      if q.vector[axis] <= v {
        AloneSub(points, atMost, q, axis);
        leaf := TerminalLeafHolds(atMost, dims, q);
        LeafLifts(node, node.left.value, leaf);
      } else {
        AloneSub(points, above, q, axis);
        leaf := TerminalLeafHolds(above, dims, q);
        LeafLifts(node, node.right.value, leaf);
      }
    }
  }

  /** A point alone on an axis stays alone in any part of the points. */
  lemma AloneSub(points: seq<Datapoint>, sub: seq<Datapoint>, q: Datapoint, axis: nat)
    requires AloneOn(points, q, axis) && forall p :: p in sub ==> p in points
    ensures AloneOn(sub, q, axis)
  {
  }

  /** A terminal node over points with one last coordinate is a leaf holding
      the one point they can then be. */
  lemma LoneLeafHolds(points: seq<Datapoint>, dims: nat, q: Datapoint)
    requires dims > 0 && Uniform(points, dims) && q in points && AloneOn(points, q, dims - 1)
    requires |Values(points, dims - 1)| == 1
    ensures var node := Build(points, dims - 1, dims).value;
      node in ExtractLeafs(node) && node.datapoint == Some(q)
  {
    var values := Values(points, dims - 1);
    BuildParts(points, dims - 1, dims, values[0]);
    OneValue(points, dims - 1);
    assert points[0] in points;
    assert points[0].vector[dims - 1] == values[0] == q.vector[dims - 1];
  }

  /** A leaf under a child is a leaf under its parent. */
  lemma LeafLifts(node: Node, child: Node, x: Node)
    requires node.left == Some(child) || node.right == Some(child)
    requires x in ExtractLeafs(child)
    ensures x in ExtractLeafs(node)
  {
    assert Below(x, node);
  }

  /** What a candidate below the split node contributes is in what
      `range_search` reports: its leaves on the last axis, the report of its
      associated tree on the others. */
  lemma QueryKeeps(t: RangeTree, region: Region, x: Node)
    requires TreeOk(t, |region|) && t.root.Some?
    requires var lo, hi := region[t.axis].Lo(), region[t.axis].Hi();
      FindSplitNode(lo, hi, t.root.value).Some? &&
      x in Candidates(lo, hi, FindSplitNode(lo, hi, t.root.value).value)
    ensures NodesOk(x, t.terminalTree, |region|)
    ensures t.terminalTree ==> forall y :: y in ExtractLeafs(x) ==> y in Query(t, region)
    ensures !t.terminalTree ==> forall y :: y in Query(x.subtree.value, region) ==> y in Query(t, region)
  {
    var lo, hi := region[t.axis].Lo(), region[t.axis].Hi();
    var splitnode := FindSplitNode(lo, hi, t.root.value).value;
    var candidates := Candidates(lo, hi, splitnode);
    CandidatesFit(t, |region|, lo, hi, splitnode);
    var i :| 0 <= i < |candidates| && candidates[i] == x;
    assert Query(t, region) == Collect(t.terminalTree, candidates, region, Size(t));
    if t.terminalTree {
      forall y | y in ExtractLeafs(x) ensures y in Query(t, region) {
        CollectHas(true, candidates, region, Size(t), i, y);
      }
    } else {
      forall y | y in Query(x.subtree.value, region) ensures y in Query(t, region) {
        CollectHas(false, candidates, region, Size(t), i, y);
      }
    }
  }

  /** On the last axis, what `range_search` on `RangeTree(points, axis)`
      reports includes every leaf of the candidate holding `q`. */
  lemma LastCandidateFor(points: seq<Datapoint>, axis: nat, region: Region, q: Datapoint)
    returns (sub: seq<Datapoint>)
    requires Uniform(points, |region|) && axis == |region| - 1
    requires q in points && FitsFrom(q, region, axis)
    ensures TreeOk(NewRangeTree(points, axis), |region|)
    ensures sub != [] && Uniform(sub, |region|) && (forall p :: p in sub ==> p in points) && q in sub
    ensures forall y :: y in ExtractLeafs(Build(sub, axis, |region|).value) ==> y in Query(NewRangeTree(points, axis), region)
  {
    sub := CandidateIn(points, axis, region, q);
    QueryKeeps(NewRangeTree(points, axis), region, Build(sub, axis, |region|).value);
  }

  /** Below the last axis, what `range_search` on `RangeTree(points, axis)`
      reports includes what the associated tree of the candidate holding `q`
      reports. */
  lemma InnerCandidateFor(points: seq<Datapoint>, axis: nat, region: Region, q: Datapoint)
    returns (sub: seq<Datapoint>)
    requires Uniform(points, |region|) && axis < |region| - 1
    requires q in points && FitsFrom(q, region, axis)
    ensures TreeOk(NewRangeTree(points, axis), |region|)
    ensures sub != [] && Uniform(sub, |region|) && (forall p :: p in sub ==> p in points) && q in sub
    ensures TreeOk(NewRangeTree(sub, axis + 1), |region|)
    ensures forall y :: y in Query(NewRangeTree(sub, axis + 1), region) ==> y in Query(NewRangeTree(points, axis), region)
  {
    sub := CandidateIn(points, axis, region, q);
    OwnSubtree(sub, axis, |region|);
    QueryKeeps(NewRangeTree(points, axis), region, Build(sub, axis, |region|).value);
  }

  /** Below the last axis, the node `build` makes over a subset owns the
      associated tree over that subset on the next axis. */
  lemma OwnSubtree(points: seq<Datapoint>, axis: nat, dims: nat)
    requires Uniform(points, dims) && axis < dims - 1 && points != []
    ensures Build(points, axis, dims).value.subtree == Some(NewRangeTree(points, axis + 1))
  {
    var values := Values(points, axis);
    BuildParts(points, axis, dims, values[(|values| - 1) / 2]);
  }

  /** The point `q` of the region lies in the subset of one of the candidates
      `range_search` collects on `RangeTree(points, axis)`. */
  lemma CandidateIn(points: seq<Datapoint>, axis: nat, region: Region, q: Datapoint)
    returns (sub: seq<Datapoint>)
    requires Uniform(points, |region|) && axis < |region|
    requires q in points && FitsFrom(q, region, axis)
    ensures TreeOk(NewRangeTree(points, axis), |region|) && NewRangeTree(points, axis).root.Some?
    ensures sub != [] && Uniform(sub, |region|) && (forall p :: p in sub ==> p in points) && q in sub
    ensures var t := NewRangeTree(points, axis);
      var lo, hi := region[axis].Lo(), region[axis].Hi();
      FindSplitNode(lo, hi, t.root.value).Some? &&
      Build(sub, axis, |region|).value in Candidates(lo, hi, FindSplitNode(lo, hi, t.root.value).value)
  {
    var dims := |region|;
    var t := NewRangeTree(points, axis);
    assert points[0] in points;
    NewRangeTreeSep(points, axis, dims);
    SepTreeOk(t, dims);
    var lo, hi := region[axis].Lo(), region[axis].Hi();
    SplitNodeNone(points, axis, dims, lo, hi);
    var split := SplitNodeCovers(points, axis, dims, lo, hi);
    sub := CandidatesCover(split, axis, dims, lo, hi, q);
  }

  /** `RangeTree(points, axis).range_search(region)` reports the leaf of every
      point of the subset that lies in the region from `axis` on and shares
      its last coordinate with no other point. */
  lemma {:induction false} QueryComplete(points: seq<Datapoint>, axis: nat, region: Region, q: Datapoint)
    returns (leaf: Node)
    requires Uniform(points, |region|) && axis < |region|
    requires q in points && FitsFrom(q, region, axis) && AloneOn(points, q, |region| - 1)
    ensures TreeOk(NewRangeTree(points, axis), |region|)
    ensures leaf in Query(NewRangeTree(points, axis), region) && leaf.datapoint == Some(q)
    decreases |region| - axis
  {
    var dims := |region|;
    if axis == dims - 1 {
      var sub := LastCandidateFor(points, axis, region, q);
      assert AloneOn(sub, q, dims - 1);
      leaf := TerminalLeafHolds(sub, dims, q);
      assert leaf in ExtractLeafs(Build(sub, axis, dims).value);
    } else {
      var sub := InnerCandidateFor(points, axis, region, q);
      assert AloneOn(sub, q, dims - 1);
      leaf := QueryComplete(sub, axis + 1, region, q);
    }
  }

  /** `RangeTree(points).range_search(region)` reports the leaf of every input
      point inside the region, when no two points share their last
      coordinate. */
  lemma RangeSearchComplete(points: seq<Datapoint>, region: Region)
    requires Uniform(points, |region|) && |region| > 0 && DistinctOn(points, |region| - 1)
    ensures TreeOk(NewRangeTree(points, 0), |region|)
    ensures forall q :: q in points && InRegion(q.vector, region) ==>
      exists x :: x in Query(NewRangeTree(points, 0), region) && x.datapoint == Some(q)
  {
    NewRangeTreeSep(points, 0, |region|);
    SepTreeOk(NewRangeTree(points, 0), |region|);
    forall q | q in points && InRegion(q.vector, region)
      ensures exists x :: x in Query(NewRangeTree(points, 0), region) && x.datapoint == Some(q)
    {
      var leaf := QueryComplete(points, 0, region, q);
    }
  }
}
