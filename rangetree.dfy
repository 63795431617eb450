/**
 * The multi-level range tree (rangetree.py).
 *
 * Each level is a balanced binary tree on one axis: a node splits its points
 * at the lower median of their distinct coordinate values on that axis,
 * sending `<=` left and `>` right, and stops at one distinct value. On every
 * axis but the last, each node also owns an associated range tree built from
 * the same points on the next axis. The tree is never changed after it is
 * built, so it is a value here and its queries are functions; the loop of
 * `range_search` is also given as a method.
 */
module RangeTrees {
  import opened Wrappers
  import opened Sorting
  import opened Tools

  /** `sorted(set(dp.vector[axis] for dp in datapoints))` */
  function Values(points: seq<Datapoint>, axis: nat): (values: seq<int>)
    requires HasAxes(points, axis + 1)
    ensures StrictlyIncreasing(values)
    ensures forall x :: x in values <==> exists p :: p in points && p.vector[axis] == x
    ensures points != [] ==> values != []
  {
    var xs := AxisVector(points, axis);
    assert forall x :: x in xs <==> exists p :: p in points && p.vector[axis] == x by {
      forall x ensures x in xs <==> exists p :: p in points && p.vector[axis] == x {
        if exists p :: p in points && p.vector[axis] == x {
          var p :| p in points && p.vector[axis] == x;
          var i :| 0 <= i < |points| && points[i] == p;
          assert xs[i] == x;
        }
      }
    }
    assert points != [] ==> points[0] in points;
    SortedDistinct(xs)
  }

  /** `[dp for dp in datapoints if dp.vector[axis] <= nodevalue]` */
  function AtMost(points: seq<Datapoint>, axis: nat, v: int): (r: seq<Datapoint>)
    requires HasAxes(points, axis + 1)
    ensures |r| <= |points|
    ensures forall p :: p in r <==> p in points && p.vector[axis] <= v
  {
    if points == [] then []
    else
      assert forall p :: p in points <==> p == points[0] || p in points[1..];
      (if points[0].vector[axis] <= v then [points[0]] else []) + AtMost(points[1..], axis, v)
  }

  /** `[dp for dp in datapoints if dp not in leftpoints]`: the points not sent
      left, which are those with a larger coordinate. */
  function Above(points: seq<Datapoint>, axis: nat, v: int): (r: seq<Datapoint>)
    requires HasAxes(points, axis + 1)
    ensures |r| <= |points|
    ensures forall p :: p in r <==> p in points && p.vector[axis] > v
  {
    if points == [] then []
    else
      assert forall p :: p in points <==> p == points[0] || p in points[1..];
      (if points[0].vector[axis] > v then [points[0]] else []) + Above(points[1..], axis, v)
  }

  /** A filter leaves out a point of `points` that it rejects, so it is shorter. */
  lemma {:induction false} AtMostShorter(points: seq<Datapoint>, axis: nat, v: int, p: Datapoint)
    requires HasAxes(points, axis + 1)
    requires p in points && p.vector[axis] > v
    ensures |AtMost(points, axis, v)| < |points|
  {
    if points[0] != p {
      assert p in points[1..];
      AtMostShorter(points[1..], axis, v, p);
    }
  }

  lemma {:induction false} AboveShorter(points: seq<Datapoint>, axis: nat, v: int, p: Datapoint)
    requires HasAxes(points, axis + 1)
    requires p in points && p.vector[axis] <= v
    ensures |Above(points, axis, v)| < |points|
  {
    if points[0] != p {
      assert p in points[1..];
      AboveShorter(points[1..], axis, v, p);
    }
  }

  /** With two or more distinct values both sides of the split are proper subsets. */
  lemma SplitShrinks(points: seq<Datapoint>, axis: nat)
    requires HasAxes(points, axis + 1)
    requires |Values(points, axis)| > 1
    ensures var values := Values(points, axis);
      var v := values[(|values| - 1) / 2];
      |AtMost(points, axis, v)| < |points| && |Above(points, axis, v)| < |points|
  {
    var values := Values(points, axis);
    var v := values[(|values| - 1) / 2];
    assert values[|values| - 1] in values && v in values;
    var hi :| hi in points && hi.vector[axis] == values[|values| - 1];
    var lo :| lo in points && lo.vector[axis] == v;
    AtMostShorter(points, axis, v, hi);
    AboveShorter(points, axis, v, lo);
  }

  /** `RangeTree(datapoints, axis)`: the constructor. An empty or missing point
      list gives a tree with no root and one dimension. */
  function NewRangeTree(points: seq<Datapoint>, axis: nat): (t: RangeTree)
    requires points != [] ==> Uniform(points, |points[0].vector|) && axis < |points[0].vector|
    ensures t.axis == axis
    ensures t.root.None? <==> points == []
    ensures t.dimensions == if points == [] then 1 else |points[0].vector|
    ensures t.terminalTree <==> axis == t.dimensions - 1
    decreases if points == [] then 0 else |points[0].vector| - axis, |points|, 1
  {
    var dims := if points == [] then 1 else |points[0].vector|;
    RangeTree(axis, dims, axis == dims - 1, if points == [] then None else Build(points, axis, dims))
  }

  /** `RangeTree.build`: the subtree over `points` on `axis`. */
  function Build(points: seq<Datapoint>, axis: nat, dims: nat): (r: Option<Node>)
    requires Uniform(points, dims) && axis < dims
    ensures r.None? <==> points == []
    ensures r.Some? ==> r.value.axis == axis
    decreases dims - axis, |points|, 0
  {
    if points == [] then None
    else
      assert points[0] in points;
      var values := Values(points, axis);
      var mid := (|values| - 1) / 2;
      var nodevalue := values[mid];
      var leftpoints := AtMost(points, axis, nodevalue);
      var rightpoints := Above(points, axis, nodevalue);
      var nodepoint := if |values| == 1 then Some(points[0]) else None;
      var nodesubtree := if axis == dims - 1 then None else Some(NewRangeTree(points, axis + 1));
      if |values| > 1 then
        SplitShrinks(points, axis);
        Some(Node(nodevalue, axis, Build(leftpoints, axis, dims), Build(rightpoints, axis, dims),
                  nodepoint, nodesubtree))
      else
        Some(Node(nodevalue, axis, None, None, nodepoint, nodesubtree))
  }

  /** `size(node)`: this node, its children's subtrees and its associated tree. */
  function NodeSize(node: Node): (n: nat)
    ensures n >= 1
    decreases node
  {
    1 + (if node.left.Some? then NodeSize(node.left.value) else 0)
      + (if node.right.Some? then NodeSize(node.right.value) else 0)
      + (if node.subtree.Some? then Size(node.subtree.value) else 0)
  }

  /** `RangeTree.size()`: the number of nodes, associated trees included. */
  function Size(t: RangeTree): (n: nat)
    ensures n == 0 <==> t.root.None?
    decreases t
  {
    if t.root.None? then 0 else NodeSize(t.root.value)
  }

  /** A node below another is no larger. */
  lemma {:induction false} BelowSize(x: Node, node: Node)
    requires Below(x, node)
    ensures NodeSize(x) <= NodeSize(node)
    decreases node
  {
    if x != node {
      if node.left.Some? && Below(x, node.left.value) {
        BelowSize(x, node.left.value);
      } else {
        BelowSize(x, node.right.value);
      }
    }
  }

  /** The shape `range_search` relies on: the region names the tree's axis,
      and a node owns an associated tree exactly when its tree is not terminal. */
  predicate TreeOk(t: RangeTree, width: nat)
    decreases t
  {
    t.root.None? || (t.axis < width && NodesOk(t.root.value, t.terminalTree, width))
  }

  predicate NodesOk(node: Node, terminal: bool, width: nat)
    decreases node
  {
    (if terminal then node.subtree.None? else node.subtree.Some? && TreeOk(node.subtree.value, width)) &&
    (node.left.Some? ==> NodesOk(node.left.value, terminal, width)) &&
    (node.right.Some? ==> NodesOk(node.right.value, terminal, width))
  }

  lemma {:induction false} BelowOk(x: Node, node: Node, terminal: bool, width: nat)
    requires Below(x, node) && NodesOk(node, terminal, width)
    ensures NodesOk(x, terminal, width)
    decreases node
  {
    if x != node {
      if node.left.Some? && Below(x, node.left.value) {
        BelowOk(x, node.left.value, terminal, width);
      } else {
        BelowOk(x, node.right.value, terminal, width);
      }
    }
  }

  /** `find_split_node`: the first node on the path from `node` whose value
      lies in `[start, end]`, going right while the value is below `start` and
      left while it is above `end`; None when the child it needs is missing. */
  function FindSplitNode(start: int, end: int, node: Node): (r: Option<Node>)
    ensures r.Some? ==> start <= r.value.value <= end && Below(r.value, node)
    decreases node
  {
    if start <= node.value <= end then Some(node)
    else if node.value < start then
      if node.right.Some? then FindSplitNode(start, end, node.right.value) else None
    else
      if node.left.Some? then FindSplitNode(start, end, node.left.value) else None
  }

  /** `split_search`: the subtrees of `node` that lie wholly in the range, for
      the search that walks down the left side of the split node; with
      `rightSearch` the roles of the two children are exchanged. */
  function SplitSearch(start: int, end: int, node: Node, rightSearch: bool): (subroots: seq<Node>)
    ensures forall x :: x in subroots ==> Below(x, node)
    decreases node
  {
    var right := if rightSearch then node.left else node.right;
    var left := if rightSearch then node.right else node.left;
    if right.Some? then
      if start <= node.value <= end then
        [right.value] + (if left.Some? then SplitSearch(start, end, left.value, rightSearch) else [])
      else
        SplitSearch(start, end, right.value, rightSearch)
    else if start <= node.value <= end then
      if left.Some? then SplitSearch(start, end, left.value, rightSearch) else [node]
    else
      []
  }

  /** The candidate subtrees `range_search` collects below the split node. */
  function Candidates(start: int, end: int, splitnode: Node): (subtrees: seq<Node>)
    ensures forall x :: x in subtrees ==> Below(x, splitnode)
  {
    if splitnode.IsLeaf() then [splitnode]
    else
      (if splitnode.left.Some? then SplitSearch(start, end, splitnode.left.value, false) else []) +
      (if splitnode.right.Some? then SplitSearch(start, end, splitnode.right.value, true) else [])
  }

  /** Every candidate is a node of the tree, so it is no larger and keeps its shape. */
  lemma CandidatesFit(t: RangeTree, width: nat, start: int, end: int, splitnode: Node)
    requires t.root.Some? && TreeOk(t, width) && Below(splitnode, t.root.value)
    ensures forall x :: x in Candidates(start, end, splitnode) ==>
      NodeSize(x) <= Size(t) && NodesOk(x, t.terminalTree, width)
  {
    forall x | x in Candidates(start, end, splitnode)
      ensures NodeSize(x) <= Size(t) && NodesOk(x, t.terminalTree, width)
    {
      BelowTransitive(x, splitnode, t.root.value);
      BelowSize(x, t.root.value);
      BelowOk(x, t.root.value, t.terminalTree, width);
    }
  }

  lemma {:induction false} BelowTransitive(x: Node, y: Node, z: Node)
    requires Below(x, y) && Below(y, z)
    ensures Below(x, z)
    decreases z
  {
    if y != z {
      if z.left.Some? && Below(y, z.left.value) {
        BelowTransitive(x, y, z.left.value);
      } else {
        BelowTransitive(x, y, z.right.value);
      }
    }
  }

  /** What `range_search` returns: the leaves of the candidates on the
      terminal axis, and otherwise what each candidate's associated tree
      returns for the same region. */
  function Query(t: RangeTree, region: Region): (results: seq<Node>)
    requires TreeOk(t, |region|)
    decreases Size(t), 1, 0
  {
    if t.root.None? then []
    else
      var start := region[t.axis].Lo();
      var end := region[t.axis].Hi();
      match FindSplitNode(start, end, t.root.value)
      case None => []
      case Some(splitnode) =>
        CandidatesFit(t, |region|, start, end, splitnode);
        Collect(t.terminalTree, Candidates(start, end, splitnode), region, Size(t))
  }

  /** The accumulation loop of `range_search` over the candidate subtrees. */
  function Collect(terminal: bool, subtrees: seq<Node>, region: Region, ghost bound: nat): (results: seq<Node>)
    requires forall x :: x in subtrees ==> NodesOk(x, terminal, |region|) && NodeSize(x) <= bound
    decreases bound, 0, |subtrees|
  {
    if subtrees == [] then []
    else
      var tree := subtrees[0];
      assert tree in subtrees;
      assert NodesOk(tree, terminal, |region|) && NodeSize(tree) <= bound;
      assert !terminal ==> tree.subtree.Some? && TreeOk(tree.subtree.value, |region|);
      (if terminal then ExtractLeafs(tree) else Query(tree.subtree.value, region)) +
      Collect(terminal, subtrees[1..], region, bound)
  }

  /** `range_search`, with its loop over the candidate subtrees. */
  method RangeSearch(t: RangeTree, region: Region) returns (results: seq<Node>)
    requires TreeOk(t, |region|)
    ensures results == Query(t, region)
    decreases Size(t), 1
  {
    if t.root.None? {
      return [];
    }
    var start := region[t.axis].first;
    var end := region[t.axis].second;
    if end < start {
      start, end := end, start;
    }
    var splitnode := FindSplitNode(start, end, t.root.value);
    if splitnode.None? {
      return [];
    }
    var subtrees := Candidates(start, end, splitnode.value);
    CandidatesFit(t, |region|, start, end, splitnode.value);
    results := CollectResults(t.terminalTree, subtrees, region, Size(t));
  }

  /** The loop of `range_search` over the candidate subtrees: the leaves of
      each one on a terminal axis, else the range search of its associated
      tree, appended in order. */
  method CollectResults(terminal: bool, subtrees: seq<Node>, region: Region, ghost bound: nat)
    returns (results: seq<Node>)
    requires forall x :: x in subtrees ==> NodesOk(x, terminal, |region|) && NodeSize(x) <= bound
    ensures results == Collect(terminal, subtrees, region, bound)
    decreases bound, 0
  {
    results := [];
    var i := 0;
    while i < |subtrees|
      invariant 0 <= i <= |subtrees|
      invariant results + Collect(terminal, subtrees[i..], region, bound) == Collect(terminal, subtrees, region, bound)
    {
      var tree := subtrees[i];
      CollectAt(terminal, subtrees, i, region, bound);
      var found: seq<Node>;
      if terminal {
        found := ExtractLeafs(tree);
      } else {
        assert Size(tree.subtree.value) < NodeSize(tree) <= bound;
        found := RangeSearch(tree.subtree.value, region);
      }
      AppendStep(results, Collect(terminal, subtrees[i..], region, bound), found,
                 Collect(terminal, subtrees[i + 1..], region, bound), Collect(terminal, subtrees, region, bound));
      results := results + found;
      i := i + 1;
    }
  }

  /** One turn of the accumulation loop: a prefix that completes `whole` to
      `total`, extended by the first piece of `whole`, is completed by the rest. */
  lemma AppendStep(results: seq<Node>, whole: seq<Node>, found: seq<Node>, rest: seq<Node>, total: seq<Node>)
    requires results + whole == total && whole == found + rest
    ensures (results + found) + rest == total
  {
    assert (results + found) + rest == results + (found + rest);
  }

  /** The rest of the list from `i` collects subtree `i` first. */
  lemma CollectAt(terminal: bool, subtrees: seq<Node>, i: nat, region: Region, bound: nat)
    requires forall x :: x in subtrees ==> NodesOk(x, terminal, |region|) && NodeSize(x) <= bound
    requires i < |subtrees|
    ensures subtrees[i] in subtrees
    ensures !terminal ==> subtrees[i].subtree.Some? && TreeOk(subtrees[i].subtree.value, |region|)
    ensures Collect(terminal, subtrees[i..], region, bound) ==
      (if terminal then ExtractLeafs(subtrees[i]) else Query(subtrees[i].subtree.value, region)) +
      Collect(terminal, subtrees[i + 1..], region, bound)
  {
    assert subtrees[i] in subtrees;
    assert subtrees[i..][1..] == subtrees[i + 1..];
  }

  /** `search`: descends by the point's coordinate (`<=` goes left), enters the
      associated tree at a leaf, and on the last axis reports the leaf whose
      point has exactly these coordinates. */
  function Search(t: RangeTree, point: seq<int>): (r: Option<Node>)
    requires TreeOk(t, |point|)
    ensures r.Some? ==> r.value.IsLeaf() && r.value.datapoint.Some? && r.value.datapoint.value.vector == point
    decreases Size(t), 1
  {
    if t.root.None? then None
    else SearchFrom(t, point, t.root.value)
  }

  function SearchFrom(t: RangeTree, point: seq<int>, node: Node): (r: Option<Node>)
    requires t.root.Some? && TreeOk(t, |point|) && NodesOk(node, t.terminalTree, |point|)
    ensures r.Some? ==> r.value.IsLeaf() && r.value.datapoint.Some? && r.value.datapoint.value.vector == point
    decreases NodeSize(node), 0
  {
    var value := point[t.axis];
    if value <= node.value then
      if node.left.Some? then SearchFrom(t, point, node.left.value)
      else if node.IsLeaf() then
        if node.subtree.Some? then Search(node.subtree.value, point)
        else if node.datapoint.Some? && node.datapoint.value.vector == point then Some(node)
        else None
      else None
    else if node.right.Some? then SearchFrom(t, point, node.right.value)
    else None
  }
}
