/**
  `scl.avltree`: a binary tree whose nodes carry an AVL balance factor (the
  height of the right subtree minus that of the left one). The tree only
  rewrites balance factors around the four rotations it inherits; it has no
  insertion of its own.
 */
module AVLTrees {
  import opened Util
  import opened Shapes
  import opened BinaryTrees

  /** The height of a subtree, 0 for an empty one. */
  function Height(s: Shape): nat {
    match s
    case Nil => 0
    case Node(l, _, r) => 1 + (if Height(l) < Height(r) then Height(r) else Height(l))
  }

  /** The balance factor of the top of `s`: right height minus left height. */
  function Balance(s: Shape): int
    requires s.Node?
  {
    Height(s.right) - Height(s.left)
  }

  /** The balance factors `rotate_left` writes on `node` and its right child, from the latter's old factor. */
  function LeftRule(rb: int): (int, int) {
    if rb == 0 then (1, -1) else (0, 0)
  }

  /** The balance factors `rotate_right` writes on `node` and its left child, from the latter's old factor. */
  function RightRule(lb: int): (int, int) {
    if lb == 0 then (-1, 1) else (0, 0)
  }

  /** The balance factors `rotate_right_then_left` writes on `x` and `z`, from the old factor of `y`. */
  function RightLeftRule(yb: int): (int, int) {
    if yb == 0 then (0, 0) else if yb > 0 then (-1, 0) else (0, 1)
  }

  /** The balance factors `rotate_left_then_right` writes on `x` and `z`, from the old factor of `y`. */
  function LeftRightRule(yb: int): (int, int) {
    if yb == 0 then (0, 0) else if yb < 0 then (1, 0) else (0, -1)
  }

  /**
    The rule of `rotate_left` is the AVL single rotation rule: on a subtree
    two levels heavier on the right whose right child leans right or not at
    all, it gives the true balance factors after the rotation.
   */
  lemma LeftRuleBalances(t: Shape)
    requires t.Node? && t.right.Node? && Balance(t) == 2 && 0 <= Balance(t.right) <= 1
    ensures LeftRule(Balance(t.right)) == (Balance(RotatedLeft(t).left), Balance(RotatedLeft(t)))
  {
    var lower := RotatedLeft(t).left;
    assert Height(lower) == 1 + Height(t.right.left);
  }

  /** The mirror of `LeftRuleBalances` for `rotate_right`. */
  lemma RightRuleBalances(t: Shape)
    requires t.Node? && t.left.Node? && Balance(t) == -2 && -1 <= Balance(t.left) <= 0
    ensures RightRule(Balance(t.left)) == (Balance(RotatedRight(t).right), Balance(RotatedRight(t)))
  {
    var lower := RotatedRight(t).right;
    assert Height(lower) == 1 + Height(t.left.right);
  }

  /**
    The rule of `rotate_right_then_left` is the AVL double rotation rule: on
    a subtree two levels heavier on the right whose right child `z` leans
    left, with `y` the left child of `z` balanced within one level, it gives
    the true balance factors of `x`, `z` and `y` after the rotation.
   */
  lemma RightLeftRuleBalances(t: Shape)
    requires t.Node? && t.right.Node? && t.right.left.Node?
    requires Balance(t) == 2 && Balance(t.right) == -1 && -1 <= Balance(t.right.left) <= 1
    ensures var r := RotatedRightLeft(t);
      && RightLeftRule(Balance(t.right.left)) == (Balance(r.left), Balance(r.right))
      && Balance(r) == 0
  {
  }

  /** The mirror of `RightLeftRuleBalances` for `rotate_left_then_right`. */
  lemma LeftRightRuleBalances(t: Shape)
    requires t.Node? && t.left.Node? && t.left.right.Node?
    requires Balance(t) == -2 && Balance(t.left) == 1 && -1 <= Balance(t.left.right) <= 1
    ensures var r := RotatedLeftRight(t);
      && LeftRightRule(Balance(t.left.right)) == (Balance(r.right), Balance(r.left))
      && Balance(r) == 0
  {
  }

  /**
    The canonical right-left case: `x` (1) has only a right child `z` (3),
    whose only child is its left child `y` (2). `x` has no left child.
   */
  lemma RightLeftCaseHasNoLeftChild()
    ensures var t := Node(Nil, 1, Node(Node(Nil, 2, Nil), 3, Nil));
      && Balance(t) == 2 && Balance(t.right) == -1 && Balance(t.right.left) == 0 && t.left.Nil?
  {
  }

  class AVLTree<V> {
    /** The binary tree `AVLTree` extends. */
    const tree: BinaryTree<V>
    /** `AVLNode.balance` of every node. */
    var balance: map<NodeId, int>

    /** Every node of the tree has a balance factor. */
    ghost predicate Valid()
      reads this, tree
    {
      tree.Valid() && balance.Keys == tree.value.Keys
    }

    /** Valid, with the parent links of the tree in place. */
    ghost predicate Linked()
      reads this, tree
    {
      Valid() && tree.Linked()
    }

    /** An empty tree with the given key function. */
    constructor (key: V -> int)
      ensures Linked() && fresh(tree) && tree.shape == Nil && tree.root == None && tree.key == key
      ensures balance == map[]
    {
      tree := new BinaryTree(key);
      balance := map[];
    }

    /** `AVLNode(v)`: a new node outside the tree, with balance factor 0. */
    method NewNode(v: V) returns (n: NodeId)
      requires Valid()
      modifies this, tree
      ensures Valid() && (old(Linked()) ==> Linked())
      ensures n !in old(balance) && balance == old(balance)[n := 0]
      ensures tree.value == old(tree.value)[n := v] && tree.shape == old(tree.shape)
    {
      n := tree.NewNode(v);
      balance := balance[n := 0];
    }

    /** The balance writes of a rotation: `a` on `n`, then `b` on `m`. */
    method SetBalances(n: NodeId, a: int, m: NodeId, b: int)
      requires n in balance && m in balance
      modifies this
      ensures balance == old(balance)[n := a][m := b] && balance.Keys == old(balance.Keys)
    {
      balance := balance[n := a][m := b];
    }

    /** The balance writes of a double rotation: `a` on `x`, `b` on `z`, then 0 on `y`. */
    method SetDoubleBalances(x: NodeId, a: int, z: NodeId, b: int, y: NodeId)
      requires x in balance && z in balance && y in balance
      modifies this
      ensures balance == old(balance)[x := a][z := b][y := 0] && balance.Keys == old(balance.Keys)
    {
      balance := balance[x := a][z := b];
      balance := balance[y := 0];
    }

    /**
      `rotate_left` at `n`, the top of the subtree `t` reached along `p`:
      the single rotation rule on `n` and its right child `m`, then the
      rotation `BinaryTree.rotate_left` does, which leaves `n.parent` stale.
     */
    method RotateLeft(n: NodeId, ghost p: Path, ghost t: Shape) returns (m: NodeId)
      requires Linked() && Plug(p, t) == tree.shape && t.Node? && t.id == n && t.right.Node?
      modifies this, tree
      ensures m == t.right.id && tree.shape == Plug(p, RotatedLeft(t))
      ensures m in old(balance) && balance == old(balance)[n := LeftRule(old(balance[m])).0][m := LeftRule(old(balance[m])).1]
      ensures Balance(t) == 2 && old(balance[m]) == Balance(t.right) && 0 <= Balance(t.right) <= 1 ==>
        balance[n] == Balance(RotatedLeft(t).left) && balance[m] == Balance(RotatedLeft(t))
      ensures Valid() && !tree.Linked() && InOrder(tree.shape) == old(InOrder(tree.shape)) && tree.value == old(tree.value)
    {
      Site(p, t, tree.left, tree.right, balance.Keys);
      var right := NonNull(tree.right[n]);
      assert right == t.right.id && right in balance && right != n;
      var rule := LeftRule(balance[right]);
      SetBalances(n, rule.0, right, rule.1);
      if Balance(t) == 2 && old(balance[right]) == Balance(t.right) && 0 <= Balance(t.right) <= 1 {
        LeftRuleBalances(t);
      }
      m := tree.RotateLeft(n, p, t);
    }

    /**
      `rotate_right` at `n`: the single rotation rule on `n` and its left
      child `m`, then the rotation `BinaryTree.rotate_right` does.
     */
    method RotateRight(n: NodeId, ghost p: Path, ghost t: Shape) returns (m: NodeId)
      requires Linked() && Plug(p, t) == tree.shape && t.Node? && t.id == n && t.left.Node?
      modifies this, tree
      ensures m == t.left.id && tree.shape == Plug(p, RotatedRight(t))
      ensures m in old(balance) && balance == old(balance)[n := RightRule(old(balance[m])).0][m := RightRule(old(balance[m])).1]
      ensures Balance(t) == -2 && old(balance[m]) == Balance(t.left) && -1 <= Balance(t.left) <= 0 ==>
        balance[n] == Balance(RotatedRight(t).right) && balance[m] == Balance(RotatedRight(t))
      ensures Linked() && InOrder(tree.shape) == old(InOrder(tree.shape)) && tree.value == old(tree.value)
    {
      Site(p, t, tree.left, tree.right, balance.Keys);
      var left := NonNull(tree.left[n]);
      assert left == t.left.id && left in balance && left != n;
      var rule := RightRule(balance[left]);
      SetBalances(n, rule.0, left, rule.1);
      if Balance(t) == -2 && old(balance[left]) == Balance(t.left) && -1 <= Balance(t.left) <= 0 {
        RightRuleBalances(t);
      }
      m := tree.RotateRight(n, p, t);
    }

    /**
      `rotate_right_then_left` as written: it takes `z` and `y` as `x.left`
      and `x.left.right`, the nodes of a left-right case, while the
      rotation it then runs restructures `x.right` and `x.right.left`. When
      `x` has no left child or that child no right child, the `nonnull`
      check fails (`None`) and nothing changes; otherwise the double rotation
      rule is applied to the wrong nodes.
     */
    method RotateRightThenLeft(x: NodeId, ghost p: Path, ghost t: Shape) returns (r: Option<NodeId>)
      requires Linked() && Plug(p, t) == tree.shape && t.Node? && t.id == x && t.right.Node? && t.right.left.Node?
      modifies this, tree
      ensures r.None? <==> !(t.left.Node? && t.left.right.Node?)
      ensures r.None? ==> balance == old(balance) && tree.shape == old(tree.shape) && Linked()
      ensures r.Some? ==> r.value == t.right.left.id && tree.shape == Plug(p, RotatedRightLeft(t))
      ensures r.Some? ==> var z, y := t.left.id, t.left.right.id;
        && y in old(balance)
        && balance == old(balance)[x := RightLeftRule(old(balance[y])).0][z := RightLeftRule(old(balance[y])).1][y := 0]
      ensures Linked() && InOrder(tree.shape) == old(InOrder(tree.shape)) && tree.value == old(tree.value)
    {
      Site(p, t, tree.left, tree.right, balance.Keys);
      if tree.left[x].None? {
        return None;
      }
      var z := tree.left[x].value;
      if tree.right[z].None? {
        return None;
      }
      var y := tree.right[z].value;
      assert z == t.left.id && y == t.left.right.id && y in balance;
      var rule := RightLeftRule(balance[y]);
      SetDoubleBalances(x, rule.0, z, rule.1, y);
      var top := tree.RotateRightThenLeft(x, p, t);
      r := Some(top);
    }

    /**
      `rotate_right_then_left` reading `z` and `y` as `x.right` and
      `x.right.left`, the nodes the rotation moves: the double rotation rule
      then gives the true balance factors of the rotated subtree.
     */
    method RotateRightThenLeftOnRight(x: NodeId, ghost p: Path, ghost t: Shape) returns (y: NodeId)
      requires Linked() && Plug(p, t) == tree.shape && t.Node? && t.id == x && t.right.Node? && t.right.left.Node?
      modifies this, tree
      ensures y == t.right.left.id && tree.shape == Plug(p, RotatedRightLeft(t))
      ensures var z := t.right.id;
        && y in old(balance)
        && balance == old(balance)[x := RightLeftRule(old(balance[y])).0][z := RightLeftRule(old(balance[y])).1][y := 0]
      ensures Balance(t) == 2 && Balance(t.right) == -1 && old(balance[y]) == Balance(t.right.left) && -1 <= Balance(t.right.left) <= 1 ==>
        var s := RotatedRightLeft(t);
        balance[x] == Balance(s.left) && balance[t.right.id] == Balance(s.right) && balance[y] == Balance(s)
      ensures Linked() && InOrder(tree.shape) == old(InOrder(tree.shape)) && tree.value == old(tree.value)
    {
      Site(p, t, tree.left, tree.right, balance.Keys);
      var z := NonNull(tree.right[x]);
      var y0 := NonNull(tree.left[z]);
      assert z == t.right.id && y0 == t.right.left.id && y0 in balance;
      var rule := RightLeftRule(balance[y0]);
      SetDoubleBalances(x, rule.0, z, rule.1, y0);
      if Balance(t) == 2 && Balance(t.right) == -1 && old(balance[y0]) == Balance(t.right.left) && -1 <= Balance(t.right.left) <= 1 {
        RightLeftRuleBalances(t);
      }
      y := tree.RotateRightThenLeft(x, p, t);
    }

    /**
      `rotate_left_then_right` at `x`, with `z` its left child and `y` the
      right child of `z`: the double rotation rule, then the rotation.
     */
    method RotateLeftThenRight(x: NodeId, ghost p: Path, ghost t: Shape) returns (y: NodeId)
      requires Linked() && Plug(p, t) == tree.shape && t.Node? && t.id == x && t.left.Node? && t.left.right.Node?
      modifies this, tree
      ensures y == t.left.right.id && tree.shape == Plug(p, RotatedLeftRight(t))
      ensures var z := t.left.id;
        && y in old(balance)
        && balance == old(balance)[x := LeftRightRule(old(balance[y])).0][z := LeftRightRule(old(balance[y])).1][y := 0]
      ensures Balance(t) == -2 && Balance(t.left) == 1 && old(balance[y]) == Balance(t.left.right) && -1 <= Balance(t.left.right) <= 1 ==>
        var s := RotatedLeftRight(t);
        balance[x] == Balance(s.right) && balance[t.left.id] == Balance(s.left) && balance[y] == Balance(s)
      ensures Linked() && InOrder(tree.shape) == old(InOrder(tree.shape)) && tree.value == old(tree.value)
    {
      Site(p, t, tree.left, tree.right, balance.Keys);
      var z := NonNull(tree.left[x]);
      var y0 := NonNull(tree.right[z]);
      assert z == t.left.id && y0 == t.left.right.id && y0 in balance;
      var rule := LeftRightRule(balance[y0]);
      SetDoubleBalances(x, rule.0, z, rule.1, y0);
      if Balance(t) == -2 && Balance(t.left) == 1 && old(balance[y0]) == Balance(t.left.right) && -1 <= Balance(t.left.right) <= 1 {
        LeftRightRuleBalances(t);
      }
      y := tree.RotateLeftThenRight(x, p, t);
    }
  }
}
