/** The balanced binary search tree of BBSTree.py: nodes are objects whose child
    links are set in place; `build` sorts its values, builds a balanced structure
    over them and then inserts every value once more as a new leaf. */
module BBSTrees {
  import opened Sorting

  /** The shape of a (sub)tree: what the links below a node spell out. */
  datatype Tree = Nil | Branch(left: Tree, value: int, right: Tree)

  function Size(t: Tree): nat
  {
    if t.Nil? then 0 else Size(t.left) + 1 + Size(t.right)
  }

  /** The values in symmetric order: left subtree, node, right subtree. */
  function InOrder(t: Tree): (s: seq<int>)
    ensures |s| == Size(t)
  {
    if t.Nil? then [] else InOrder(t.left) + [t.value] + InOrder(t.right)
  }

  /** How often `x` occurs in the tree. */
  function Count(t: Tree, x: int): nat
  {
    if t.Nil? then 0 else Count(t.left, x) + (if t.value == x then 1 else 0) + Count(t.right, x)
  }

  predicate AllAtMost(t: Tree, b: int)
  {
    t.Branch? ==> t.value <= b && AllAtMost(t.left, b) && AllAtMost(t.right, b)
  }

  predicate AllAtLeast(t: Tree, b: int)
  {
    t.Branch? ==> b <= t.value && AllAtLeast(t.left, b) && AllAtLeast(t.right, b)
  }

  /** Search-tree order: every value on the left is at most the node's value and
      every value on the right at least it (equal values may sit on either side). */
  predicate Ordered(t: Tree)
  {
    t.Branch? ==>
      Ordered(t.left) && Ordered(t.right) && AllAtMost(t.left, t.value) && AllAtLeast(t.right, t.value)
  }

  /** Every node's right subtree has as many nodes as its left one, or one more. */
  predicate Balanced(t: Tree)
  {
    t.Branch? ==>
      Balanced(t.left) && Balanced(t.right) &&
      Size(t.left) <= Size(t.right) <= Size(t.left) + 1
  }

  /** The shape `buildStructure` gives a list: its lower median at the root,
      the part before it on the left and the part after it on the right. */
  function BuildShape(s: seq<int>): Tree
    decreases |s|
  {
    if s == [] then Nil
    else
      var mid := (|s| - 1) / 2;
      Branch(BuildShape(s[..mid]), s[mid], BuildShape(s[mid + 1..]))
  }

  /** The structure over a non-empty list has its middle element at the
      root, over the structures of the two sides. */
  lemma BuildShapeSplit(s: seq<int>)
    requires s != []
    ensures var mid := (|s| - 1) / 2;
      BuildShape(s) == Branch(BuildShape(s[..mid]), s[mid], BuildShape(s[mid + 1..]))
  {
  }

  /** The symmetric order of the structure is the list it was built from, and
      every node's right part has as many nodes as its left part or one more. */
  lemma {:induction false} BuildShapeInOrder(s: seq<int>)
    ensures InOrder(BuildShape(s)) == s
    ensures Size(BuildShape(s)) == |s|
    ensures Balanced(BuildShape(s))
    decreases |s|
  {
    if s != [] {
      var mid := (|s| - 1) / 2;
      BuildShapeInOrder(s[..mid]);
      BuildShapeInOrder(s[mid + 1..]);
      SplitAt(s, mid);
    }
  }

  lemma SplitAt(s: seq<int>, i: nat)
    requires i < |s|
    ensures s == s[..i] + [s[i]] + s[i + 1..]
  {
  }

  predicate AllBelow(s: seq<int>, b: int)
  {
    forall k :: 0 <= k < |s| ==> s[k] <= b
  }

  predicate AllAbove(s: seq<int>, b: int)
  {
    forall k :: 0 <= k < |s| ==> b <= s[k]
  }

  /** A bound on every element of a list bounds both parts around index `i`. */
  lemma HalvesBounded(s: seq<int>, i: nat, b: int)
    requires i < |s|
    ensures AllBelow(s, b) ==> AllBelow(s[..i], b) && AllBelow(s[i + 1..], b)
    ensures AllAbove(s, b) ==> AllAbove(s[..i], b) && AllAbove(s[i + 1..], b)
  {
    var right := s[i + 1..];
    assert forall k :: 0 <= k < |right| ==> right[k] == s[i + 1 + k];
  }

  /** The parts of a sorted list around index `i` are sorted and lie below and
      above `s[i]`. */
  lemma SortedHalves(s: seq<int>, i: nat)
    requires i < |s| && SortedBy(s, Ident)
    ensures SortedBy(s[..i], Ident) && SortedBy(s[i + 1..], Ident)
    ensures AllBelow(s[..i], s[i]) && AllAbove(s[i + 1..], s[i])
  {
    var left, right := s[..i], s[i + 1..];
    assert forall k :: 0 <= k < |left| ==> left[k] == s[k];
    assert forall k :: 0 <= k < |right| ==> right[k] == s[i + 1 + k];
    assert forall k :: 0 <= k < |left| ==> Ident(s[k]) <= Ident(s[i]);
    assert forall k :: 0 <= k < |right| ==> Ident(s[i]) <= Ident(right[k]);
  }

  /** Where `insert` hangs a node `sub`: it walks down from the root, right when
      the new value is greater than the node's and left otherwise, and fills the
      first empty link on that path. */
  function Attach(t: Tree, sub: Tree): Tree
    requires sub.Branch?
  {
    match t
    case Nil => sub
    case Branch(l, v, rt) =>
      if sub.value > v then Branch(l, v, Attach(rt, sub)) else Branch(Attach(l, sub), v, rt)
  }

  /** Hanging `sub` adds exactly its nodes and its values. */
  lemma {:induction false} AttachCounts(t: Tree, sub: Tree, x: int)
    requires sub.Branch?
    ensures Size(Attach(t, sub)) == Size(t) + Size(sub)
    ensures Count(Attach(t, sub), x) == Count(t, x) + Count(sub, x)
  {
    if t.Branch? {
      if sub.value > t.value {
        AttachCounts(t.right, sub, x);
      } else {
        AttachCounts(t.left, sub, x);
      }
    }
  }

  /** Hanging a subtree whose values keep a bound keeps the bound. */
  lemma {:induction false} AttachBounds(t: Tree, sub: Tree, b: int)
    requires sub.Branch?
    ensures AllAtMost(t, b) && AllAtMost(sub, b) ==> AllAtMost(Attach(t, sub), b)
    ensures AllAtLeast(t, b) && AllAtLeast(sub, b) ==> AllAtLeast(Attach(t, sub), b)
  {
    if t.Branch? {
      if sub.value > t.value {
        AttachBounds(t.right, sub, b);
      } else {
        AttachBounds(t.left, sub, b);
      }
    }
  }

  /** Inserting a single new leaf. */
  function TreeInsert(t: Tree, x: int): Tree
  {
    Attach(t, Branch(Nil, x, Nil))
  }

  /** Inserting a leaf keeps search-tree order: the walk sends a value greater
      than a node's to its right and any other value to its left. */
  lemma {:induction false} InsertOrdered(t: Tree, x: int)
    requires Ordered(t)
    ensures Ordered(TreeInsert(t, x))
  {
    var leaf := Branch(Nil, x, Nil);
    if t.Branch? {
      if x > t.value {
        InsertOrdered(t.right, x);
        assert AllAtLeast(leaf, t.value);
        AttachBounds(t.right, leaf, t.value);
        assert TreeInsert(t, x) == Branch(t.left, t.value, TreeInsert(t.right, x));
      } else {
        InsertOrdered(t.left, x);
        assert AllAtMost(leaf, t.value);
        AttachBounds(t.left, leaf, t.value);
        assert TreeInsert(t, x) == Branch(TreeInsert(t.left, x), t.value, t.right);
      }
    }
  }

  /** The values of `s` inserted one after the other, first to last. */
  function InsertAll(t: Tree, s: seq<int>): Tree
  {
    if s == [] then t else TreeInsert(InsertAll(t, s[..|s| - 1]), s[|s| - 1])
  }

  /** Inserting the values of `s` adds one node per element and exactly the
      values of `s`, and keeps search-tree order. */
  lemma {:induction false} InsertAllCounts(t: Tree, s: seq<int>, x: int)
    ensures Size(InsertAll(t, s)) == Size(t) + |s|
    ensures Count(InsertAll(t, s), x) == Count(t, x) + multiset(s)[x]
    ensures Ordered(t) ==> Ordered(InsertAll(t, s))
  {
    if s != [] {
      var front, last := s[..|s| - 1], s[|s| - 1];
      assert s == front + [last];
      InsertAllCounts(t, front, x);
      AttachCounts(InsertAll(t, front), Branch(Nil, last, Nil), x);
      if Ordered(t) {
        InsertOrdered(InsertAll(t, front), last);
      }
    }
  }

  /** Occurrences in the tree are occurrences in its symmetric order. */
  lemma {:induction false} CountInOrder(t: Tree, x: int)
    ensures Count(t, x) == multiset(InOrder(t))[x]
  {
    if t.Branch? {
      CountInOrder(t.left, x);
      CountInOrder(t.right, x);
    }
  }

  /** A bound on every element of a list bounds the structure built over it. */
  lemma {:induction false} BuildShapeBounds(s: seq<int>, b: int)
    ensures AllBelow(s, b) ==> AllAtMost(BuildShape(s), b)
    ensures AllAbove(s, b) ==> AllAtLeast(BuildShape(s), b)
    decreases |s|
  {
    if s != [] {
      var mid := (|s| - 1) / 2;
      BuildShapeSplit(s);
      HalvesBounded(s, mid, b);
      BuildShapeBounds(s[..mid], b);
      BuildShapeBounds(s[mid + 1..], b);
      assert AllBelow(s, b) ==> s[mid] <= b;
      assert AllAbove(s, b) ==> b <= s[mid];
    }
  }

  /** Over a sorted list `buildStructure` gives a search tree. */
  lemma {:induction false} BuildShapeOrdered(s: seq<int>)
    requires SortedBy(s, Ident)
    ensures Ordered(BuildShape(s))
    decreases |s|
  {
    if s != [] {
      var mid := (|s| - 1) / 2;
      SortedHalves(s, mid);
      BuildShapeOrdered(s[..mid]);
      BuildShapeOrdered(s[mid + 1..]);
      BuildShapeBounds(s[..mid], s[mid]);
      BuildShapeBounds(s[mid + 1..], s[mid]);
    }
  }

  function Ident(x: int): int { x }

  /** What `build` leaves behind: the structure over the sorted values with each
      value inserted once more. */
  function BuildTree(datapoints: seq<int>): Tree
  {
    var sorted := SortBy(datapoints, Ident);
    InsertAll(BuildShape(sorted), sorted)
  }

  /** After `build` the tree has two nodes per input value, every value occurs
      exactly twice as often as in the input, and the tree is in search-tree
      order. */
  lemma BuildTreeFacts(datapoints: seq<int>, x: int)
    ensures Size(BuildTree(datapoints)) == 2 * |datapoints|
    ensures Count(BuildTree(datapoints), x) == 2 * multiset(datapoints)[x]
    ensures Ordered(BuildTree(datapoints))
  {
    var sorted := SortBy(datapoints, Ident);
    SortByPerm(datapoints, Ident);
    SortBySorted(datapoints, Ident);
    var t := BuildShape(sorted);
    BuildShapeInOrder(sorted);
    CountInOrder(t, x);
    BuildShapeOrdered(sorted);
    InsertAllCounts(t, sorted, x);
  }

  ghost function ShapeOf(n: Node?): Tree
    reads n
  {
    if n == null then Nil else n.Shape
  }

  ghost function ReprOf(n: Node?): set<object>
    reads n
  {
    if n == null then {} else n.Repr
  }

  class Node {
    var leftChild: Node?
    var rightChild: Node?
    var value: int
    var height: int
    /** The nodes of the subtree rooted here. */
    ghost var Repr: set<object>
    /** The subtree rooted here, as a value. */
    ghost var Shape: Tree

    ghost predicate Valid()
      reads this, Repr
      decreases Repr
    {
      this in Repr && height == 0 &&
      (leftChild != null ==>
        leftChild in Repr && leftChild.Repr <= Repr && this !in leftChild.Repr && leftChild.Valid()) &&
      (rightChild != null ==>
        rightChild in Repr && rightChild.Repr <= Repr && this !in rightChild.Repr && rightChild.Valid()) &&
      (leftChild != null && rightChild != null ==> leftChild.Repr !! rightChild.Repr) &&
      Shape == Branch(ShapeOf(leftChild), value, ShapeOf(rightChild)) &&
      (leftChild != null ==> leftChild.Shape.Branch?) &&
      (rightChild != null ==> rightChild.Shape.Branch?)
    }

    /** `Node(value, leftC, rightC)`: a node of height 0 over the given
        children, which must be separate trees. */
    constructor (value: int, leftC: Node?, rightC: Node?)
      requires leftC != null ==> leftC.Valid()
      requires rightC != null ==> rightC.Valid()
      requires leftC != null && rightC != null ==> leftC.Repr !! rightC.Repr
      ensures Valid()
      ensures this.value == value && leftChild == leftC && rightChild == rightC
      ensures Repr == {this} + old(ReprOf(leftC)) + old(ReprOf(rightC))
      ensures Shape == Branch(old(ShapeOf(leftC)), value, old(ShapeOf(rightC)))
    {
      leftChild := leftC;
      rightChild := rightC;
      this.value := value;
      height := 0;
      Repr := {this} + ReprOf(leftC) + ReprOf(rightC);
      Shape := Branch(ShapeOf(leftC), value, ShapeOf(rightC));
    }

    /** A node is a leaf exactly when it has neither child. */
    predicate IsLeaf()
      reads this, Repr
      requires Valid()
      ensures IsLeaf() <==> Shape.left == Nil && Shape.right == Nil
    {
      leftChild == null && rightChild == null
    }

    /** `insert` below this node: hang `newNode` (with whatever hangs below it)
        at the first empty link on its search path. */
    method InsertBelow(newNode: Node)
      requires Valid() && newNode.Valid() && Repr !! newNode.Repr
      modifies Repr
      ensures Valid()
      ensures Repr == old(Repr) + newNode.Repr
      ensures Shape == Attach(old(Shape), old(newNode.Shape))
      decreases Repr, 1
    {
      assert newNode.Shape.value == newNode.value && Shape == Branch(Shape.left, value, Shape.right);
      if newNode.value > value {
        InsertRight(newNode);
      } else {
        InsertLeft(newNode);
      }
    }

    /** The right-hand branch of `insert`: recurse into the right child, or
        make `newNode` the right child when there is none. */
    method InsertRight(newNode: Node)
      requires Valid() && newNode.Valid() && Repr !! newNode.Repr
      modifies Repr
      ensures Valid()
      ensures Repr == old(Repr) + newNode.Repr && value == old(value)
      ensures Shape == Branch(old(Shape).left, value, Attach(old(Shape).right, old(newNode.Shape)))
      decreases Repr, 0
    {
      if rightChild != null {
        rightChild.InsertBelow(newNode);
      } else {
        rightChild := newNode;
      }
      Repr := Repr + newNode.Repr;
      Shape := Branch(ShapeOf(leftChild), value, ShapeOf(rightChild));
    }

    /** The left-hand branch of `insert`, taken when the new value is at most
        this node's. */
    method InsertLeft(newNode: Node)
      requires Valid() && newNode.Valid() && Repr !! newNode.Repr
      modifies Repr
      ensures Valid()
      ensures Repr == old(Repr) + newNode.Repr && value == old(value)
      ensures Shape == Branch(Attach(old(Shape).left, old(newNode.Shape)), value, old(Shape).right)
      decreases Repr, 0
    {
      if leftChild != null {
        leftChild.InsertBelow(newNode);
      } else {
        leftChild := newNode;
      }
      Repr := Repr + newNode.Repr;
      Shape := Branch(ShapeOf(leftChild), value, ShapeOf(rightChild));
    }
  }

  /** A node whose footprint nothing has touched keeps its invariant and shape. */
  twostate lemma StillValid(n: Node)
    requires old(n.Valid()) && unchanged(old(n.Repr))
    ensures n.Valid() && n.Repr == old(n.Repr) && n.Shape == old(n.Shape)
  {
  }

  class BBSTree {
    var root: Node?
    ghost var Repr: set<object>
    ghost var Shape: Tree

    ghost predicate Valid()
      reads this, Repr
    {
      this in Repr &&
      (root == null ==> Shape == Nil && Repr == {this}) &&
      (root != null ==>
        root in Repr && Repr == {this} + root.Repr && this !in root.Repr &&
        root.Valid() && Shape == root.Shape)
    }

    /** A tree over a non-empty list is built from it; otherwise it has no root. */
    constructor (datapoints: seq<int>)
      ensures Valid() && fresh(Repr)
      ensures Shape == if datapoints == [] then Nil else BuildTree(datapoints)
    {
      root := null;
      Repr := {this};
      Shape := Nil;
      new;
      if datapoints != [] {
        Build(datapoints);
      }
    }

    /** `buildStructure`: fresh nodes spelling out BuildShape(datapoints);
        an empty list gives no node. */
    static method BuildStructure(datapoints: seq<int>) returns (subroot: Node?)
      ensures subroot == null <==> datapoints == []
      ensures subroot != null ==>
        subroot.Valid() && fresh(subroot.Repr) && subroot.Shape == BuildShape(datapoints)
      decreases |datapoints|
    {
      if |datapoints| == 0 {
        return null;
      }
      var mid := (|datapoints| - 1) / 2;
      var leftpoints := datapoints[..mid];
      var rightpoints := datapoints[mid + 1..];
      BuildShapeSplit(datapoints);
      var left := BuildStructure(leftpoints);
      ghost var leftRepr := ReprOf(left);
      assert fresh(leftRepr);
      label built:
      var right := BuildStructure(rightpoints);
      if left != null {
        StillValid@built(left);
      }
      assert leftRepr !! ReprOf(right);
      ghost var leftShape, rightShape := ShapeOf(left), ShapeOf(right);
      assert leftShape == BuildShape(leftpoints) && rightShape == BuildShape(rightpoints);
      subroot := new Node(datapoints[mid], left, right);
      assert subroot.Shape == Branch(leftShape, datapoints[mid], rightShape);
      assert subroot.Repr == {subroot} + leftRepr + ReprOf(right);
    }

    /** `insert`: an empty tree takes `newNode` as its root; otherwise it is
        hung below the root. */
    method Insert(newNode: Node)
      requires Valid() && newNode.Valid() && Repr !! newNode.Repr
      modifies Repr
      ensures Valid()
      ensures old(root) == null ==> root == newNode
      ensures Shape == Attach(old(Shape), old(newNode.Shape))
      ensures Repr == old(Repr) + newNode.Repr
    {
      if root == null {
        root := newNode;
      } else {
        root.InsertBelow(newNode);
      }
      Repr := Repr + newNode.Repr;
      Shape := root.Shape;
    }

    /** `buildLeafs`: insert a new leaf for every value, in order. */
    method BuildLeafs(datapoints: seq<int>)
      requires Valid()
      modifies Repr
      ensures Valid() && fresh(Repr - old(Repr))
      ensures Shape == InsertAll(old(Shape), datapoints)
    {
      for i := 0 to |datapoints|
        invariant Valid() && fresh(Repr - old(Repr))
        invariant Shape == InsertAll(old(Shape), datapoints[..i])
      {
        var leaf := new Node(datapoints[i], null, null);
        Insert(leaf);
        assert datapoints[..i + 1][..i] == datapoints[..i];
      }
      assert datapoints[..|datapoints|] == datapoints;
    }

    /** `build`: sort, build the balanced structure, then add every value again
        as a leaf. */
    method Build(datapoints: seq<int>)
      requires Valid()
      modifies this
      ensures Valid() && fresh(Repr - {this})
      ensures Shape == BuildTree(datapoints)
    {
      var sorted := SortBy(datapoints, Ident);
      var top := BuildStructure(sorted);
      assert this !in ReprOf(top);
      label structured:
      root := top;
      Repr := {this} + ReprOf(top);
      Shape := ShapeOf(top);
      if top != null {
        StillValid@structured(top);
      }
      assert Valid() && fresh(Repr - {this});
      ghost var structure := Repr;
      BuildLeafs(sorted);
      assert Repr - {this} <= (Repr - structure) + (structure - {this});
      assert Shape == InsertAll(BuildShape(sorted), sorted);
    }
  }
}
