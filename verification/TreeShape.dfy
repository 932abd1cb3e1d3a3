/** Pure shapes of the AVL tree: what the pointer structure in `AvlTree` means. */
module TreeShape {
  import opened ValueOrder

  datatype Tree = Empty | Branch(left: Tree, value: Value, right: Tree)

  function Max(a: int, b: int): int {
    if a < b then b else a
  }

  /** A leaf has height 0, the empty tree -1. */
  function Height(t: Tree): int {
    match t
    case Empty => -1
    case Branch(l, _, r) => 1 + Max(Height(l), Height(r))
  }

  function Size(t: Tree): nat {
    match t
    case Empty => 0
    case Branch(l, _, r) => 1 + Size(l) + Size(r)
  }

  function Balance(t: Tree): int {
    match t
    case Empty => 0
    case Branch(l, _, r) => Height(l) - Height(r)
  }

  ghost function Elems(t: Tree): set<Value> {
    match t
    case Empty => {}
    case Branch(l, v, r) => Elems(l) + {v} + Elems(r)
  }

  ghost function InOrder(t: Tree): (s: seq<Value>)
    ensures |s| == Size(t)
  {
    match t
    case Empty => []
    case Branch(l, v, r) => InOrder(l) + [v] + InOrder(r)
  }

  ghost predicate AllBelow(s: set<Value>, v: Value) {
    forall x :: x in s ==> Less(x, v)
  }

  ghost predicate AllAbove(v: Value, s: set<Value>) {
    forall x :: x in s ==> Less(v, x)
  }

  ghost predicate Ordered(t: Tree) {
    match t
    case Empty => true
    case Branch(l, v, r) => Ordered(l) && Ordered(r) && AllBelow(Elems(l), v) && AllAbove(v, Elems(r))
  }

  ghost predicate Balanced(t: Tree) {
    match t
    case Empty => true
    case Branch(l, _, r) => Balanced(l) && Balanced(r) && -1 <= Balance(t) <= 1
  }

  /** Strictly ordered, and every node's balance is -1, 0 or 1. */
  ghost predicate Avl(t: Tree) {
    Ordered(t) && Balanced(t)
  }

  // ---------- Rotations ----------

  function RotateRight(t: Tree): Tree {
    if t.Branch? && t.left.Branch?
    then Branch(t.left.left, t.left.value, Branch(t.left.right, t.value, t.right))
    else t
  }

  function RotateLeft(t: Tree): Tree {
    if t.Branch? && t.right.Branch?
    then Branch(Branch(t.left, t.value, t.right.left), t.right.value, t.right.right)
    else t
  }

  lemma AboveThrough(a: Value, v: Value, s: set<Value>)
    requires Less(a, v) && AllAbove(v, s)
    ensures AllAbove(a, s)
  {
    LessIsStrictTotalOrder();
  }

  lemma BelowThrough(s: set<Value>, v: Value, b: Value)
    requires AllBelow(s, v) && Less(v, b)
    ensures AllBelow(s, b)
  {
    LessIsStrictTotalOrder();
  }

  lemma {:induction false} SameListing(l: Tree, x: Value, m: Tree, y: Value, r: Tree)
    ensures InOrder(Branch(Branch(l, x, m), y, r)) == InOrder(Branch(l, x, Branch(m, y, r)))
  {
    assert InOrder(Branch(l, x, m)) == InOrder(l) + [x] + InOrder(m);
    assert InOrder(Branch(m, y, r)) == InOrder(m) + [y] + InOrder(r);
  }

  /** A right rotation keeps the stored values and their in-order listing. */
  lemma {:induction false} RotateRightKeeps(l: Tree, x: Value, m: Tree, y: Value, r: Tree)
    ensures RotateRight(Branch(Branch(l, x, m), y, r)) == Branch(l, x, Branch(m, y, r))
    ensures Elems(Branch(Branch(l, x, m), y, r)) == Elems(Branch(l, x, Branch(m, y, r)))
    ensures InOrder(Branch(Branch(l, x, m), y, r)) == InOrder(Branch(l, x, Branch(m, y, r)))
    ensures Ordered(Branch(Branch(l, x, m), y, r)) ==> Ordered(Branch(l, x, Branch(m, y, r)))
  {
    SameListing(l, x, m, y, r);
    var before, inner := Branch(Branch(l, x, m), y, r), Branch(m, y, r);
    assert Elems(Branch(l, x, m)) == Elems(l) + {x} + Elems(m);
    assert Elems(inner) == Elems(m) + {y} + Elems(r);
    if Ordered(before) {
      assert Ordered(Branch(l, x, m));
      assert x in Elems(Branch(l, x, m));
      AboveThrough(x, y, Elems(r));
      assert Ordered(inner) && AllAbove(x, Elems(inner));
    }
  }

  /** A left rotation keeps the stored values and their in-order listing. */
  lemma {:induction false} RotateLeftKeeps(l: Tree, x: Value, m: Tree, y: Value, r: Tree)
    ensures RotateLeft(Branch(l, x, Branch(m, y, r))) == Branch(Branch(l, x, m), y, r)
    ensures Elems(Branch(l, x, Branch(m, y, r))) == Elems(Branch(Branch(l, x, m), y, r))
    ensures InOrder(Branch(l, x, Branch(m, y, r))) == InOrder(Branch(Branch(l, x, m), y, r))
    ensures Ordered(Branch(l, x, Branch(m, y, r))) ==> Ordered(Branch(Branch(l, x, m), y, r))
  {
    SameListing(l, x, m, y, r);
    var before, inner := Branch(l, x, Branch(m, y, r)), Branch(l, x, m);
    assert Elems(Branch(m, y, r)) == Elems(m) + {y} + Elems(r);
    assert Elems(inner) == Elems(l) + {x} + Elems(m);
    if Ordered(before) {
      assert Ordered(Branch(m, y, r));
      assert y in Elems(Branch(m, y, r));
      BelowThrough(Elems(l), x, y);
      assert Ordered(inner) && AllBelow(Elems(inner), y);
    }
  }

  /** The four cases of `_rebalance`. */
  function Rebalance(t: Tree): Tree {
    if t.Empty? then t
    else if Balance(t) > 1 && t.left.Branch? && Balance(t.left) >= 0 then RotateRight(t)
    else if Balance(t) < -1 && t.right.Branch? && Balance(t.right) <= 0 then RotateLeft(t)
    else if Balance(t) > 1 && t.left.Branch? && Balance(t.left) < 0 then
      RotateRight(Branch(RotateLeft(t.left), t.value, t.right))
    else if Balance(t) < -1 && t.right.Branch? && Balance(t.right) > 0 then
      RotateLeft(Branch(t.left, t.value, RotateRight(t.right)))
    else t
  }

  /**
   * One insertion or deletion below `t` leaves its balance within 2; `_rebalance` then restores
   * the invariant, keeps the stored values, and lowers the height by at most one.
   */
  lemma {:induction false} RebalanceRestores(t: Tree)
    requires t.Branch? && Ordered(t) && Balanced(t.left) && Balanced(t.right)
    requires -2 <= Balance(t) <= 2
    ensures Avl(Rebalance(t)) && Elems(Rebalance(t)) == Elems(t) && InOrder(Rebalance(t)) == InOrder(t)
    ensures Height(t) - 1 <= Height(Rebalance(t)) <= Height(t)
    ensures -1 <= Balance(t) <= 1 ==> Rebalance(t) == t
  {
    RebalanceKeepsContents(t);
    RebalanceHeights(t);
  }

  lemma {:induction false} RebalanceHeights(t: Tree)
    requires t.Branch? && Balanced(t.left) && Balanced(t.right)
    requires -2 <= Balance(t) <= 2
    ensures Balanced(Rebalance(t))
    ensures Height(t) - 1 <= Height(Rebalance(t)) <= Height(t)
    ensures -1 <= Balance(t) <= 1 ==> Rebalance(t) == t
  {
    HeightAtLeast(t.left);
    HeightAtLeast(t.right);
    if Balance(t) == 2 {
      RightRotationHeights(t);
    } else if Balance(t) == -2 {
      LeftRotationHeights(t);
    }
  }

  lemma {:induction false} HeightAtLeast(t: Tree)
    ensures Height(t) >= -1
    ensures t.Branch? <==> Height(t) >= 0
  {
    if t.Branch? {
      HeightAtLeast(t.left);
      HeightAtLeast(t.right);
    }
  }

  lemma {:induction false} RightRotationHeights(t: Tree)
    requires t.Branch? && Balanced(t.left) && Balanced(t.right) && Balance(t) == 2 && t.left.Branch?
    ensures Balanced(Rebalance(t)) && Height(t) - 1 <= Height(Rebalance(t)) <= Height(t)
  {
    var l, r := t.left, t.right;
    if Balance(l) < 0 {
      var m := l.right;
      HeightAtLeast(l.left);
      HeightAtLeast(m);
      assert RotateLeft(l) == Branch(Branch(l.left, l.value, m.left), m.value, m.right);
      var (p, q) := (Branch(l.left, l.value, m.left), Branch(m.right, t.value, r));
      assert Rebalance(t) == Branch(p, m.value, q);
      assert Balanced(p) && Balanced(q);
    } else {
      var q := Branch(l.right, t.value, r);
      assert Rebalance(t) == Branch(l.left, l.value, q);
      assert Balanced(q);
    }
  }

  lemma {:induction false} LeftRotationHeights(t: Tree)
    requires t.Branch? && Balanced(t.left) && Balanced(t.right) && Balance(t) == -2 && t.right.Branch?
    ensures Balanced(Rebalance(t)) && Height(t) - 1 <= Height(Rebalance(t)) <= Height(t)
  {
    var l, r := t.left, t.right;
    if Balance(r) > 0 {
      var m := r.left;
      HeightAtLeast(r.right);
      HeightAtLeast(m);
      assert RotateRight(r) == Branch(m.left, m.value, Branch(m.right, r.value, r.right));
      var (p, q) := (Branch(l, t.value, m.left), Branch(m.right, r.value, r.right));
      assert Rebalance(t) == Branch(p, m.value, q);
      assert Balanced(p) && Balanced(q);
    } else {
      var p := Branch(l, t.value, r.left);
      assert Rebalance(t) == Branch(p, r.value, r.right);
      assert Balanced(p);
    }
  }

  lemma {:induction false} RebalanceKeepsContents(t: Tree)
    requires t.Branch?
    ensures Elems(Rebalance(t)) == Elems(t) && InOrder(Rebalance(t)) == InOrder(t)
    ensures Ordered(t) ==> Ordered(Rebalance(t))
  {
    var (l, v, r) := (t.left, t.value, t.right);
    if Balance(t) > 1 && l.Branch? && Balance(l) >= 0 {
      RotateRightKeeps(l.left, l.value, l.right, v, r);
    } else if Balance(t) < -1 && r.Branch? && Balance(r) <= 0 {
      RotateLeftKeeps(l, v, r.left, r.value, r.right);
    } else if Balance(t) > 1 && l.Branch? && Balance(l) < 0 {
      var m := l.right;
      if m.Branch? {
        RotateLeftKeeps(l.left, l.value, m.left, m.value, m.right);
        RotateRightKeeps(Branch(l.left, l.value, m.left), m.value, m.right, v, r);
      } else {
        RotateRightKeeps(l.left, l.value, l.right, v, r);
      }
    } else if Balance(t) < -1 && r.Branch? && Balance(r) > 0 {
      var m := r.left;
      if m.Branch? {
        RotateRightKeeps(m.left, m.value, m.right, r.value, r.right);
        RotateLeftKeeps(l, v, m.left, m.value, Branch(m.right, r.value, r.right));
      } else {
        RotateLeftKeeps(l, v, r.left, r.value, r.right);
      }
    }
  }

  // ---------- Insertion and deletion below a root ----------

  /** What `_insert` promises of the shapes before and after. */
  ghost predicate Inserted(t: Tree, v: Value, t': Tree) {
    Avl(t') && Elems(t') == Elems(t) + {v} && Height(t) <= Height(t') <= Height(t) + 1
  }

  /** What `_erase` promises of the shapes before and after. */
  ghost predicate Erased(t: Tree, v: Value, t': Tree) {
    Avl(t') && Elems(t') == Elems(t) - {v} && Height(t) - 1 <= Height(t') <= Height(t)
  }

  lemma Irreflexive(v: Value)
    ensures !Less(v, v)
  {
    LessIsStrictTotalOrder();
  }

  lemma Asymmetric(a: Value, b: Value)
    requires Less(a, b)
    ensures !Less(b, a) && a != b
  {
    LessIsStrictTotalOrder();
  }

  lemma Trichotomy(a: Value, b: Value)
    ensures a == b || Less(a, b) || Less(b, a)
  {
    LessIsStrictTotalOrder();
  }

  lemma NotBothWays(v: Value, s: set<Value>)
    requires AllAbove(v, s)
    ensures forall x :: x in s ==> !Less(x, v)
    ensures v !in s
  {
    LessIsStrictTotalOrder();
  }

  lemma NotBothWays'(s: set<Value>, v: Value)
    requires AllBelow(s, v)
    ensures forall x :: x in s ==> !Less(v, x)
    ensures v !in s
  {
    LessIsStrictTotalOrder();
  }

  lemma InsertedLeft(t: Tree, v: Value, l: Tree)
    requires t.Branch? && Avl(t) && Less(v, t.value) && Inserted(t.left, v, l)
    ensures Inserted(t, v, Rebalance(Branch(l, t.value, t.right)))
  {
    RebalanceRestores(Branch(l, t.value, t.right));
  }

  lemma InsertedRight(t: Tree, v: Value, r: Tree)
    requires t.Branch? && Avl(t) && Less(t.value, v) && Inserted(t.right, v, r)
    ensures Inserted(t, v, Rebalance(Branch(t.left, t.value, r)))
  {
    RebalanceRestores(Branch(t.left, t.value, r));
  }

  lemma InsertedHere(t: Tree, v: Value)
    requires t.Branch? && Avl(t) && !Less(v, t.value) && !Less(t.value, v)
    ensures Inserted(t, v, t)
  {
    Trichotomy(v, t.value);
  }

  lemma ErasedLeft(t: Tree, v: Value, l: Tree)
    requires t.Branch? && Avl(t) && Less(v, t.value) && Erased(t.left, v, l)
    ensures Erased(t, v, Rebalance(Branch(l, t.value, t.right)))
  {
    AboveThrough(v, t.value, Elems(t.right));
    NotBothWays(v, Elems(t.right));
    Asymmetric(v, t.value);
    RebalanceRestores(Branch(l, t.value, t.right));
  }

  lemma ErasedRight(t: Tree, v: Value, r: Tree)
    requires t.Branch? && Avl(t) && Less(t.value, v) && Erased(t.right, v, r)
    ensures Erased(t, v, Rebalance(Branch(t.left, t.value, r)))
  {
    BelowThrough(Elems(t.left), t.value, v);
    NotBothWays'(Elems(t.left), v);
    Asymmetric(t.value, v);
    RebalanceRestores(Branch(t.left, t.value, r));
  }

  /** A node with at most one child gives way to that child. */
  lemma ErasedByLifting(t: Tree, v: Value)
    requires t.Branch? && Avl(t) && !Less(v, t.value) && !Less(t.value, v)
    ensures t.left.Empty? ==> Erased(t, v, t.right) && Rebalance(t.right) == t.right
    ensures t.right.Empty? ==> Erased(t, v, t.left) && Rebalance(t.left) == t.left
  {
    Trichotomy(v, t.value);
    NotBothWays(t.value, Elems(t.right));
    NotBothWays'(Elems(t.left), t.value);
    HeightAtLeast(t.left);
    HeightAtLeast(t.right);
  }

  /** A node with two children takes over its in-order successor, which is erased on the right. */
  lemma ErasedBySuccessor(t: Tree, v: Value, r: Tree)
    requires t.Branch? && t.right.Branch? && Avl(t) && !Less(v, t.value) && !Less(t.value, v)
    requires Erased(t.right, Leftmost(t.right), r)
    ensures Erased(t, v, Rebalance(Branch(t.left, Leftmost(t.right), r)))
  {
    var m := Leftmost(t.right);
    Trichotomy(v, t.value);
    LeftmostIsMinimum(t.right);
    NotBothWays(t.value, Elems(t.right));
    NotBothWays'(Elems(t.left), t.value);
    BelowThrough(Elems(t.left), t.value, m);
    RebalanceRestores(Branch(t.left, m, r));
  }

  function Leftmost(t: Tree): (v: Value)
    requires t.Branch?
    ensures v in Elems(t)
  {
    if t.left.Empty? then t.value else Leftmost(t.left)
  }

  lemma {:induction false} LeftmostIsMinimum(t: Tree)
    requires t.Branch? && Ordered(t)
    ensures AllAbove(Leftmost(t), Elems(t) - {Leftmost(t)})
  {
    if t.left.Branch? {
      LeftmostIsMinimum(t.left);
      AboveThrough(Leftmost(t.left), t.value, Elems(t.right));
    }
  }

  // ---------- Logarithmic depth ----------

  function Fib(n: nat): nat {
    if n < 2 then n else Fib(n - 1) + Fib(n - 2)
  }

  lemma {:induction false} FibMonotone(m: nat, n: nat)
    requires m <= n
    ensures Fib(m) <= Fib(n)
    decreases n - m
  {
    if m < n {
      FibMonotone(m + 1, n);
    }
  }

  /** A tree of height h holds at least Fib(h + 3) - 1 values. */
  lemma {:induction false} HeightIsLogarithmic(t: Tree)
    requires Balanced(t)
    ensures Height(t) >= -1 && Size(t) >= Fib(Height(t) + 3) - 1
  {
    if t.Branch? {
      HeightIsLogarithmic(t.left);
      HeightIsLogarithmic(t.right);
      FibCombine(Height(t), Height(t.left), Height(t.right));
    }
  }

  lemma FibCombine(h: int, l: int, r: int)
    requires l >= -1 && r >= -1 && -1 <= l - r <= 1 && h == 1 + Max(l, r)
    ensures Fib(h + 3) <= Fib(l + 3) + Fib(r + 3)
  {
    FibMonotone(h + 1, l + 3);
    FibMonotone(h + 1, r + 3);
  }

  // ---------- Rank ----------

  /** The stored values that come before `v`. */
  ghost function Below(t: Tree, v: Value): set<Value> {
    set x | x in Elems(t) && Less(x, v)
  }

  lemma {:induction false} SizeIsCardinality(t: Tree)
    requires Ordered(t)
    ensures |Elems(t)| == Size(t)
  {
    if t.Branch? {
      SizeIsCardinality(t.left);
      SizeIsCardinality(t.right);
      Disjoint3(Elems(t.left), t.value, Elems(t.right));
    }
  }

  /** The boolean results of `insert` and `erase` compare sizes only, and still tell exactly whether the set changed. */
  lemma {:induction false} SizeTellsChange(t: Tree, v: Value, t': Tree)
    requires Ordered(t)
    ensures Inserted(t, v, t') ==> (Size(t') > Size(t) <==> v !in Elems(t))
    ensures Erased(t, v, t') ==> (Size(t') < Size(t) <==> v in Elems(t))
  {
    SizeIsCardinality(t);
    if Inserted(t, v, t') {
      SizeIsCardinality(t');
      if v in Elems(t) { assert Elems(t) + {v} == Elems(t); }
    }
    if Erased(t, v, t') {
      SizeIsCardinality(t');
      if v !in Elems(t) { assert Elems(t) - {v} == Elems(t); }
    }
  }

  /** How `_rank` may skip a subtree: each of its three branches counts exactly the values before `v`. */
  lemma {:induction false} BelowByBranch(t: Tree, v: Value)
    requires t.Branch? && Ordered(t)
    ensures Less(v, t.value) ==> Below(t, v) == Below(t.left, v)
    ensures Less(t.value, v) ==> |Below(t, v)| == Size(t.left) + 1 + |Below(t.right, v)|
    ensures v == t.value ==> |Below(t, v)| == Size(t.left)
  {
    SizeIsCardinality(t.left);
    Irreflexive(v);
    if Less(v, t.value) || v == t.value {
      BelowOnTheLeft(t, v);
      if Less(v, t.value) { NotBothWays(v, {t.value}); }
    } else if Less(t.value, v) {
      BelowOnTheRight(t, v);
    }
  }

  lemma {:induction false} BelowOnTheLeft(t: Tree, v: Value)
    requires t.Branch? && Ordered(t) && (v == t.value || Less(v, t.value))
    ensures Below(t, v) == Below(t.left, v)
    ensures v == t.value ==> Below(t, v) == Elems(t.left)
  {
    NothingBelow(t.value, Elems(t.right), v);
  }

  lemma NothingBelow(root: Value, r: set<Value>, v: Value)
    requires AllAbove(root, r) && (v == root || Less(v, root))
    ensures forall x :: x in r || x == root ==> !Less(x, v)
  {
    if Less(v, root) { AboveThrough(v, root, r); }
    Irreflexive(v);
    NotBothWays(v, r);
    if Less(v, root) { NotBothWays(v, {root}); }
  }

  lemma {:induction false} BelowOnTheRight(t: Tree, v: Value)
    requires t.Branch? && Ordered(t) && Less(t.value, v)
    ensures |Below(t, v)| == |Elems(t.left)| + 1 + |Below(t.right, v)|
  {
    BelowThrough(Elems(t.left), t.value, v);
    assert Below(t, v) == Elems(t.left) + {t.value} + Below(t.right, v);
    Disjoint3(Elems(t.left), t.value, Below(t.right, v));
  }

  lemma Disjoint3(a: set<Value>, v: Value, b: set<Value>)
    requires AllBelow(a, v) && AllAbove(v, b)
    ensures a !! {v} && (a + {v}) !! b
    ensures |a + {v} + b| == |a| + 1 + |b|
  {
    LessIsStrictTotalOrder();
    assert a !! {v} && (a + {v}) !! b;
  }

  /** Position k of the in-order listing holds a stored value of rank k. */
  lemma {:induction false} RankOfPosition(t: Tree, k: nat)
    requires Ordered(t) && k < Size(t)
    ensures InOrder(t)[k] in Elems(t) && |Below(t, InOrder(t)[k])| == k
  {
    var v, n := InOrder(t)[k], Size(t.left);
    BelowByBranch(t, v);
    if k < n {
      assert v == InOrder(t.left)[k];
      RankOfPosition(t.left, k);
      assert Less(v, t.value);
    } else if k > n {
      assert v == InOrder(t.right)[k - n - 1];
      RankOfPosition(t.right, k - n - 1);
      assert Less(t.value, v);
    }
  }

  ghost predicate IsRank(t: Tree, k: nat) {
    exists x :: x in Elems(t) && |Below(t, x)| == k
  }

  /** On stored values, rank is an order-preserving bijection onto 0..Size-1. */
  lemma {:induction false} RankIsPosition(t: Tree)
    requires Ordered(t)
    ensures forall x :: x in Elems(t) ==> |Below(t, x)| < Size(t)
    ensures forall x, y {:trigger Less(x, y)} :: x in Elems(t) && y in Elems(t) ==>
              (Less(x, y) <==> |Below(t, x)| < |Below(t, y)|)
    ensures forall k: nat :: k < Size(t) ==> IsRank(t, k)
  {
    SizeIsCardinality(t);
    forall x | x in Elems(t) ensures |Below(t, x)| < Size(t) {
      Irreflexive(x);
      ProperSubsetIsSmaller(Below(t, x), Elems(t), x);
    }
    forall x, y | x in Elems(t) && y in Elems(t)
      ensures Less(x, y) <==> |Below(t, x)| < |Below(t, y)|
    {
      LowerRank(t, x, y);
      LowerRank(t, y, x);
      LessIsStrictTotalOrder();
    }
    forall k: nat | k < Size(t) ensures IsRank(t, k) {
      RankOfPosition(t, k);
    }
  }

  lemma {:induction false} LowerRank(t: Tree, x: Value, y: Value)
    requires x in Elems(t)
    ensures Less(x, y) ==> |Below(t, x)| < |Below(t, y)|
  {
    if Less(x, y) {
      Irreflexive(x);
      forall z | z in Below(t, x) ensures z in Below(t, y) {
        BelowThrough({z}, x, y);
      }
      ProperSubsetIsSmaller(Below(t, x), Below(t, y), x);
    }
  }

  lemma ProperSubsetIsSmaller<T>(a: set<T>, b: set<T>, x: T)
    requires a <= b && x in b && x !in a
    ensures |a| < |b|
  {
    assert |b| == |a| + |b - a|;
    assert x in b - a;
  }
}
