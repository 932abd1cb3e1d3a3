/** The pointer AVL tree of the sorted sets: nodes rewritten in place, with cached heights and sizes. */
module AvlTree {
  import opened ValueOrder
  import opened TreeShape

  class Node {
    var value: Value
    var left: Node?
    var right: Node?
    var height: int
    var subtreeSize: int
    ghost var Repr: set<Node>
    ghost var Shape: Tree

    constructor (v: Value)
      ensures Valid() && fresh(Repr)
      ensures Shape == Branch(Empty, v, Empty)
    {
      value := v;
      left, right := null, null;
      height, subtreeSize := 0, 1;
      Repr := {this};
      Shape := Branch(Empty, v, Empty);
    }

    /** Well formed: acyclic and unshared, and the cached height and subtree size are exact at every node. */
    ghost predicate Valid()
      reads this, Repr
      decreases Repr
    {
      && this in Repr
      && (left != null ==> left in Repr && left.Repr <= Repr && this !in left.Repr && left.Valid())
      && (right != null ==> right in Repr && right.Repr <= Repr && this !in right.Repr && right.Valid())
      && FootprintOf(left) !! FootprintOf(right)
      && Shape == Branch(ShapeOf(left), value, ShapeOf(right))
      && height == Height(Shape)
      && subtreeSize == Size(Shape)
    }

    function GetBalance(): (b: int)
      requires Valid()
      reads this, Repr
      ensures b == Balance(Shape)
    {
      assert ValidOrNull(left) && ValidOrNull(right);
      (if left == null then -1 else left.height) - (if right == null then -1 else right.height)
    }

    /** Assigns `left`, then `recompute_height` and `recompute_subtree_size`. */
    method SetLeft(l: Node?)
      requires ValidOrNull(l) && ValidOrNull(right) && Apart(this, l, right)
      modifies this
      ensures Valid() && value == old(value) && left == l && right == old(right)
      ensures Repr == {this} + FootprintOf(l) + FootprintOf(right)
      ensures Shape == Branch(ShapeOf(l), value, ShapeOf(right))
    {
      left := l;
      Recompute();
    }

    /** Assigns `right`, then `recompute_height` and `recompute_subtree_size`. */
    method SetRight(r: Node?)
      requires ValidOrNull(left) && ValidOrNull(r) && Apart(this, left, r)
      modifies this
      ensures Valid() && value == old(value) && left == old(left) && right == r
      ensures Repr == {this} + FootprintOf(left) + FootprintOf(r)
      ensures Shape == Branch(ShapeOf(left), value, ShapeOf(r))
    {
      right := r;
      Recompute();
    }

    /** `recompute_height` and `recompute_subtree_size`, with the ghost description brought up to date. */
    method Recompute()
      requires ValidOrNull(left) && ValidOrNull(right) && Apart(this, left, right)
      modifies `height, `subtreeSize, `Repr, `Shape
      ensures Valid()
      ensures Repr == {this} + FootprintOf(left) + FootprintOf(right)
      ensures Shape == Branch(ShapeOf(left), value, ShapeOf(right))
    {
      height := 1 + Max(if left == null then -1 else left.height, if right == null then -1 else right.height);
      subtreeSize := 1 + (if left == null then 0 else left.subtreeSize) + (if right == null then 0 else right.subtreeSize);
      Repr := {this} + FootprintOf(left) + FootprintOf(right);
      Shape := Branch(ShapeOf(left), value, ShapeOf(right));
    }
  }

  ghost function FootprintOf(n: Node?): set<Node>
    reads n
  {
    if n == null then {} else n.Repr
  }

  ghost function ShapeOf(n: Node?): Tree
    reads n
  {
    if n == null then Empty else n.Shape
  }

  ghost predicate ValidOrNull(n: Node?)
    reads n, FootprintOf(n)
  {
    n != null ==> n.Valid()
  }

  ghost predicate Apart(n: Node, l: Node?, r: Node?)
    reads l, r
  {
    && n !in FootprintOf(l) && n !in FootprintOf(r)
    && FootprintOf(l) !! FootprintOf(r)
  }

  /** Two valid, separate subtrees within the node's footprint; its own caches need not be right. */
  ghost predicate Rotatable(n: Node)
    reads n, n.left, n.right, FootprintOf(n.left), FootprintOf(n.right)
  {
    && ValidOrNull(n.left) && ValidOrNull(n.right) && Apart(n, n.left, n.right)
    && n.Repr >= {n} + FootprintOf(n.left) + FootprintOf(n.right)
  }

  /** Makes the left child the parent. Without a node or a left child, nothing changes. */
  method RightRotate(n1: Node?) returns (n2: Node?)
    requires n1 != null ==> Rotatable(n1)
    modifies FootprintOf(n1)
    ensures n1 == null || old(n1.left) == null ==> n2 == n1 && unchanged(old(FootprintOf(n1)))
    ensures n1 != null && old(n1.left) != null ==>
              && n2 != null && n2.Valid() && n2.Repr <= old(n1.Repr)
              && n2.Shape == RotateRight(old(Branch(ShapeOf(n1.left), n1.value, ShapeOf(n1.right))))
  {
    if n1 == null || n1.left == null {
      return n1;
    }
    n2 := n1.left;
    n1.SetLeft(n2.right);
    n2.SetRight(n1);
  }

  /** Makes the right child the parent. Without a node or a right child, nothing changes. */
  method LeftRotate(n1: Node?) returns (n2: Node?)
    requires n1 != null ==> Rotatable(n1)
    modifies FootprintOf(n1)
    ensures n1 == null || old(n1.right) == null ==> n2 == n1 && unchanged(old(FootprintOf(n1)))
    ensures n1 != null && old(n1.right) != null ==>
              && n2 != null && n2.Valid() && n2.Repr <= old(n1.Repr)
              && n2.Shape == RotateLeft(old(Branch(ShapeOf(n1.left), n1.value, ShapeOf(n1.right))))
  {
    if n1 == null || n1.right == null {
      return n1;
    }
    n2 := n1.right;
    n1.SetRight(n2.left);
    n2.SetLeft(n1);
  }

  /** The Left-Right case of `_rebalance`. */
  method LeftRightRotate(root: Node) returns (r: Node)
    requires root.Valid() && root.left != null && root.left.right != null
    modifies root.Repr
    ensures r.Valid() && r.Repr <= old(root.Repr)
    ensures r.Shape == RotateRight(Branch(RotateLeft(old(root.left.Shape)), old(root.value), old(root.Shape).right))
  {
    ghost var left, right := root.left.Repr, FootprintOf(root.right);
    var l := LeftRotate(root.left);
    assert l.Repr <= left;
    root.left := l;
    assert ValidOrNull(root.right) && l.Valid() && Apart(root, l, root.right);
    r := RightRotate(root);
  }

  /** The Right-Left case of `_rebalance`. */
  method RightLeftRotate(root: Node) returns (r: Node)
    requires root.Valid() && root.right != null && root.right.left != null
    modifies root.Repr
    ensures r.Valid() && r.Repr <= old(root.Repr)
    ensures r.Shape == RotateLeft(Branch(old(root.Shape).left, old(root.value), RotateRight(old(root.right.Shape))))
  {
    ghost var left, right := FootprintOf(root.left), root.right.Repr;
    var m := RightRotate(root.right);
    assert m.Repr <= right;
    root.right := m;
    assert ValidOrNull(root.left) && m.Valid() && Apart(root, root.left, m);
    r := LeftRotate(root);
  }

  method RebalanceNode(root: Node?) returns (r: Node?)
    requires ValidOrNull(root)
    modifies FootprintOf(root)
    ensures (r == null <==> root == null) && ValidOrNull(r) && FootprintOf(r) <= old(FootprintOf(root))
    ensures ShapeOf(r) == Rebalance(old(ShapeOf(root)))
  {
    if root == null {
      return root;
    }
    var balance := root.GetBalance();
    if balance > 1 && root.left != null && root.left.GetBalance() >= 0 {
      r := RightRotate(root);
    } else if balance < -1 && root.right != null && root.right.GetBalance() <= 0 {
      r := LeftRotate(root);
    } else if balance > 1 && root.left != null && root.left.GetBalance() < 0 {
      NegativeBalance(root.left.Shape);
      r := LeftRightRotate(root);
    } else if balance < -1 && root.right != null && root.right.GetBalance() > 0 {
      PositiveBalance(root.right.Shape);
      r := RightLeftRotate(root);
    } else {
      r := root;
    }
  }

  lemma NegativeBalance(t: Tree)
    requires Balance(t) < 0
    ensures t.Branch? && t.right.Branch?
  {
    HeightAtLeast(t.left);
    HeightAtLeast(t.right);
  }

  lemma PositiveBalance(t: Tree)
    requires Balance(t) > 0
    ensures t.Branch? && t.left.Branch?
  {
    HeightAtLeast(t.left);
    HeightAtLeast(t.right);
  }

  /** What follows the recursive calls: takes the new left subtree, recomputes, and rebalances. */
  method AttachLeft(root: Node, l: Node?) returns (r: Node)
    requires ValidOrNull(l) && ValidOrNull(root.right) && Apart(root, l, root.right)
    modifies {root} + FootprintOf(l) + FootprintOf(root.right)
    ensures r.Valid() && r.Repr <= old({root} + FootprintOf(l) + FootprintOf(root.right))
    ensures r.Shape == Rebalance(old(Branch(ShapeOf(l), root.value, ShapeOf(root.right))))
  {
    root.SetLeft(l);
    r := RebalanceNode(root);
  }

  /** The same with the new right subtree. */
  method AttachRight(root: Node, m: Node?) returns (r: Node)
    requires ValidOrNull(root.left) && ValidOrNull(m) && Apart(root, root.left, m)
    modifies {root} + FootprintOf(root.left) + FootprintOf(m)
    ensures r.Valid() && r.Repr <= old({root} + FootprintOf(root.left) + FootprintOf(m))
    ensures r.Shape == Rebalance(old(Branch(ShapeOf(root.left), root.value, ShapeOf(m))))
  {
    root.SetRight(m);
    r := RebalanceNode(root);
  }

  /** `_insert`: the subtree gains `v` and grows by at most one level. */
  method InsertNode(root: Node?, v: Value) returns (r: Node)
    requires ValidOrNull(root) && Avl(ShapeOf(root))
    modifies FootprintOf(root)
    ensures r.Valid() && Inserted(old(ShapeOf(root)), v, r.Shape)
    ensures fresh(r.Repr - old(FootprintOf(root)))
    decreases FootprintOf(root), 1
  {
    if root == null {
      r := new Node(v);
    } else if Less(v, root.value) {
      r := InsertLeft(root, v);
    } else if Less(root.value, v) {
      r := InsertRight(root, v);
    } else {
      InsertedHere(root.Shape, v);
      r := root;
    }
  }

  method InsertLeft(root: Node, v: Value) returns (r: Node)
    requires root.Valid() && Avl(root.Shape) && Less(v, root.value)
    modifies root.Repr
    ensures r.Valid() && Inserted(old(root.Shape), v, r.Shape)
    ensures fresh(r.Repr - old(root.Repr))
    decreases root.Repr, 0
  {
    ghost var t, right := root.Shape, FootprintOf(root.right);
    assert FootprintOf(root.left) < root.Repr;
    var l := InsertNode(root.left, v);
    assert root !in l.Repr && l.Repr !! right;
    assert ValidOrNull(root.right);
    InsertedLeft(t, v, l.Shape);
    r := AttachLeft(root, l);
  }

  method InsertRight(root: Node, v: Value) returns (r: Node)
    requires root.Valid() && Avl(root.Shape) && Less(root.value, v)
    modifies root.Repr
    ensures r.Valid() && Inserted(old(root.Shape), v, r.Shape)
    ensures fresh(r.Repr - old(root.Repr))
    decreases root.Repr, 0
  {
    ghost var t, left := root.Shape, FootprintOf(root.left);
    assert FootprintOf(root.right) < root.Repr;
    var m := InsertNode(root.right, v);
    assert root !in m.Repr && m.Repr !! left;
    assert ValidOrNull(root.left);
    InsertedRight(t, v, m.Shape);
    r := AttachRight(root, m);
  }

  /** `_erase`: the subtree loses `v`, reuses only its own nodes, and shrinks by at most one level. */
  method EraseNode(root: Node?, v: Value) returns (r: Node?)
    requires ValidOrNull(root) && Avl(ShapeOf(root))
    modifies FootprintOf(root)
    ensures ValidOrNull(r) && Erased(old(ShapeOf(root)), v, ShapeOf(r))
    ensures FootprintOf(r) <= old(FootprintOf(root))
    decreases FootprintOf(root), 1
  {
    if root == null {
      r := root;
    } else if Less(v, root.value) {
      r := EraseLeft(root, v);
    } else if Less(root.value, v) {
      r := EraseRight(root, v);
    } else if root.left != null && root.right != null {
      r := EraseBySuccessor(root, v);
    } else {
      r := EraseByLifting(root, v);
    }
  }

  /** A node with at most one child gives way to that child. */
  method EraseByLifting(root: Node, v: Value) returns (r: Node?)
    requires root.Valid() && Avl(root.Shape) && (root.left == null || root.right == null)
    requires !Less(v, root.value) && !Less(root.value, v)
    modifies root.Repr
    ensures ValidOrNull(r) && Erased(old(root.Shape), v, ShapeOf(r))
    ensures FootprintOf(r) <= old(root.Repr)
  {
    ErasedByLifting(root.Shape, v);
    r := if root.left == null then root.right else root.left;
    if r != null {
      assert r.Valid();
      r.Recompute();
      r := RebalanceNode(r);
    }
  }

  method EraseLeft(root: Node, v: Value) returns (r: Node?)
    requires root.Valid() && Avl(root.Shape) && Less(v, root.value)
    modifies root.Repr
    ensures ValidOrNull(r) && Erased(old(root.Shape), v, ShapeOf(r))
    ensures FootprintOf(r) <= old(root.Repr)
    decreases root.Repr, 0
  {
    ghost var t, right := root.Shape, FootprintOf(root.right);
    assert FootprintOf(root.left) < root.Repr;
    var l := EraseNode(root.left, v);
    assert root !in FootprintOf(l) && FootprintOf(l) !! right;
    assert ValidOrNull(root.right);
    ErasedLeft(t, v, ShapeOf(l));
    r := AttachLeft(root, l);
  }

  method EraseRight(root: Node, v: Value) returns (r: Node?)
    requires root.Valid() && Avl(root.Shape) && Less(root.value, v)
    modifies root.Repr
    ensures ValidOrNull(r) && Erased(old(root.Shape), v, ShapeOf(r))
    ensures FootprintOf(r) <= old(root.Repr)
    decreases root.Repr, 0
  {
    ghost var t, left := root.Shape, FootprintOf(root.left);
    assert FootprintOf(root.right) < root.Repr;
    var m := EraseNode(root.right, v);
    assert root !in FootprintOf(m) && FootprintOf(m) !! left;
    assert ValidOrNull(root.left);
    ErasedRight(t, v, ShapeOf(m));
    r := AttachRight(root, m);
  }

  /** Overwrites the value with the in-order successor's and erases that one on the right. */
  method EraseBySuccessor(root: Node, v: Value) returns (r: Node?)
    requires root.Valid() && Avl(root.Shape) && root.left != null && root.right != null
    requires !Less(v, root.value) && !Less(root.value, v)
    modifies root.Repr
    ensures ValidOrNull(r) && Erased(old(root.Shape), v, ShapeOf(r))
    ensures FootprintOf(r) <= old(root.Repr)
    decreases root.Repr, 0
  {
    ghost var t, left := root.Shape, root.left.Repr;
    assert FootprintOf(root.right) < root.Repr;
    var successor := FindSuccessor(root.right);
    root.value := successor.value;
    var m := EraseNode(root.right, successor.value);
    assert root !in FootprintOf(m) && FootprintOf(m) !! left;
    assert root.left.Valid();
    ErasedBySuccessor(t, v, ShapeOf(m));
    r := AttachRight(root, m);
  }

  /** The leftmost node of a subtree. */
  method FindSuccessor(n: Node) returns (successor: Node)
    requires n.Valid()
    ensures successor in n.Repr && successor.value == Leftmost(n.Shape)
  {
    successor := n;
    while successor.left != null
      invariant successor in n.Repr && successor.Valid()
      invariant successor.Repr <= n.Repr
      invariant Leftmost(successor.Shape) == Leftmost(n.Shape)
      decreases successor.Repr
    {
      successor := successor.left;
    }
  }

  /** `_rank` counts, along one path, all stored values that come before `v`. */
  function RankNode(n: Node?, v: Value): (k: int)
    requires ValidOrNull(n) && Ordered(ShapeOf(n))
    reads n, FootprintOf(n)
    ensures k == |Below(ShapeOf(n), v)|
    decreases FootprintOf(n)
  {
    if n == null then 0
    else
      BelowByBranch(n.Shape, v);
      Trichotomy(n.value, v);
      assert ValidOrNull(n.left);
      if Less(v, n.value) then RankNode(n.left, v)
      else if Less(n.value, v) then
        (if n.left == null then 0 else n.left.subtreeSize) + 1 + RankNode(n.right, v)
      else if n.left == null then 0 else n.left.subtreeSize
  }

  class AVLTree {
    var root: Node?
    ghost var Repr: set<object>

    /** Acyclic, unshared, strictly ordered, balanced, with exact caches. */
    ghost predicate Valid()
      reads this, Repr
    {
      && this in Repr
      && (root != null ==> root in Repr && root.Repr <= Repr && root.Valid())
      && Avl(ShapeOf(root))
    }

    ghost function Contents(): set<Value>
      requires Valid()
      reads this, Repr
    {
      Elems(ShapeOf(root))
    }

    constructor ()
      ensures Valid() && fresh(Repr)
      ensures Contents() == {}
    {
      root := null;
      Repr := {this};
    }

    method Insert(v: Value) returns (added: bool)
      requires Valid()
      modifies Repr
      ensures Valid() && fresh(Repr - old(Repr))
      ensures Contents() == old(Contents()) + {v}
      ensures added <==> v !in old(Contents())
    {
      var sizeBefore := if root == null then 0 else root.subtreeSize;
      ghost var before := ShapeOf(root);
      root := InsertNode(root, v);
      Repr := {this} + root.Repr;
      var sizeAfter := root.subtreeSize;
      SizeTellsChange(before, v, root.Shape);
      added := sizeAfter > sizeBefore;
    }

    method Erase(v: Value) returns (removed: bool)
      requires Valid()
      modifies Repr
      ensures Valid() && fresh(Repr - old(Repr))
      ensures Contents() == old(Contents()) - {v}
      ensures removed <==> v in old(Contents())
    {
      var sizeBefore := if root == null then 0 else root.subtreeSize;
      ghost var before := ShapeOf(root);
      root := EraseNode(root, v);
      Repr := {this} + FootprintOf(root);
      var sizeAfter := if root == null then 0 else root.subtreeSize;
      SizeTellsChange(before, v, ShapeOf(root));
      removed := sizeAfter < sizeBefore;
    }

    function Rank(v: Value): (k: int)
      requires Valid()
      reads this, Repr
      ensures k == |set x | x in Contents() && Less(x, v)|
    {
      RankNode(root, v)
    }
  }
}
