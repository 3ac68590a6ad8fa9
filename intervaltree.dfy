/**
  `scl.intervaltree`: a binary tree of intervals ordered by their stop, in
  which every node also caches `max`, the largest stop of its subtree. The
  cache is kept by the two single rotations and used to prune the search for
  overlapping intervals.
 */
module IntervalTrees {
  import opened Util
  import opened Shapes
  import opened BinaryTrees
  import opened Intervals

  /**
    Hanging a leaf at the end of the corrected descent, in the slot on the
    side its stop says, is placing it there.
   */
  lemma HungIsPlaced<D>(p: Path, t: Shape, value: map<NodeId, Interval<D>>, n: NodeId, k: int)
    requires Leads(p, value, k) && t.Node? && t.id in value
    requires k < value[t.id].stop ==> t.left == Nil
    requires k >= value[t.id].stop ==> t.right == Nil
    ensures Plug(p, Hung(t, n, k < value[t.id].stop)) == Placed(Plug(p, t), value, n, k)
  {
    assert Placed(t, value, n, k) == Hung(t, n, k < value[t.id].stop);
    PlugPlaced(p, t, value, n, k);
  }

  /**
    `add` on a tree whose root has the stop of the new interval and a right
    child: the descent of `get_add_hint` cannot leave the root, and the new
    leaf takes the place of the root's right subtree, which drops out of the
    tree.
   */
  lemma AddDropsRightChild(key: Interval<int> -> int)
    requires forall iv :: key(iv) == iv.stop
    ensures var value: map<NodeId, Interval<int>> := map[1 := Interval(0, 5, None), 2 := Interval(0, 7, None)];
      var t := Node(Nil, 1, Node(Nil, 2, Nil));
      && (forall n :: OnSearchPath(t, value, key, 5, n) ==> n == 1)
      && !(5 < value[1].stop)
      && Ids(Hung(t, 3, false)) == {1, 3} && 2 in Ids(t)
  {
    var t := Node(Nil, 1, Node(Nil, 2, Nil));
    assert Ids(Hung(t, 3, false)) == {1, 3} by {
      assert Ids(Node(Nil, 3, Nil)) == {3};
    }
  }

  /**
    `add` caches the new leaf's own stop but refreshes no ancestor: hanging
    [0, 9] under a root [0, 5] leaves the root caching 5.
   */
  lemma AddLeavesMaxStale()
    ensures var value: map<NodeId, Interval<int>> := map[1 := Interval(0, 5, None)];
      var max := map[1 := 5];
      var t := Node(Nil, 1, Nil);
      && Cached(t, value, max)
      && !Cached(Hung(t, 2, false), value[2 := Interval(0, 9, None)], max[2 := 9])
  {
    var value: map<NodeId, Interval<int>> := map[1 := Interval(0, 5, None), 2 := Interval(0, 9, None)];
    var s := Hung(Node(Nil, 1, Nil), 2, false);
    assert SubtreeMax(s, value) == 9;
  }

  /** A map that gains a fresh key gains one entry and the new value. */
  lemma Grown<K, V>(m: map<K, V>, k: K, v: V)
    requires k !in m
    ensures |m[k := v]| == |m| + 1 && m[k := v].Values == m.Values + {v}
  {
    assert m[k := v].Keys == m.Keys + {k};
    forall w | w in m.Values ensures w in m[k := v].Values {
      var j :| j in m && m[j] == w;
      assert m[k := v][j] == w;
    }
    assert m[k := v][k] == v;
  }

  /** A node new to both `value` and `max` leaves the caches of a tree without it right. */
  lemma CachedGrown<D>(s: Shape, value: map<NodeId, Interval<D>>, max: map<NodeId, int>, n: NodeId, v: Interval<D>)
    requires Cached(s, value, max) && n !in value
    ensures Cached(s, value[n := v], max[n := v.stop])
  {
    CachedKeys(s, value, max);
    CachedValueFrame(s, value, max, n, v);
    CachedFrame(s, value[n := v], max, max[n := v.stop]);
  }

  /**
    Hanging a fresh leaf with its own stop as cache into an empty slot of `t`:
    the two children of the new `t` and the subtrees off the path keep
    right caches.
   */
  lemma HangCaches<D>(p: Path, t: Shape, n: NodeId, onLeft: bool, value: map<NodeId, Interval<D>>, max: map<NodeId, int>)
    requires t.Node? && Cached(Plug(p, t), value, max) && Dropped(t, onLeft) == Nil
    requires n in value && n in max && max[n] == value[n].stop
    ensures var h := Hung(t, n, onLeft);
      Cached(h.left, value, max) && Cached(h.right, value, max) && PathCached(p, value, max)
  {
    CachedInside(p, t, value, max);
    CachedAlong(p, t, value, max);
    assert Ids(Node(Nil, n, Nil)) == {n};
  }

  /** The nodes `__init__` creates: the `i`-th one holds `values[i]`. */
  ghost function Stored<D>(values: seq<Interval<D>>): map<NodeId, Interval<D>>
  {
    map i | 0 <= i < |values| :: values[i]
  }

  /** The shape `add`-ing each of `values` in turn, without hints, to an empty tree gives. */
  ghost function Built<D>(values: seq<Interval<D>>, key: Interval<D> -> int): Shape
    decreases |values|
  {
    if values == [] then Nil
    else
      var init := values[..|values| - 1];
      Inserted(Built(init, key), Stored(init), key, |values| - 1, values[|values| - 1].stop)
  }

  /** Every value is stored. */
  lemma StoredHas<D>(values: seq<Interval<D>>)
    ensures forall j :: 0 <= j < |values| ==> values[j] in Stored(values).Values
  {
    forall j | 0 <= j < |values| ensures values[j] in Stored(values).Values {
      assert Stored(values)[j] == values[j];
    }
  }

  /** One more `add`: node `i` holding `values[i]` is inserted by its stop. */
  lemma BuiltStep<D>(values: seq<Interval<D>>, i: nat, key: Interval<D> -> int)
    requires i < |values|
    ensures Stored(values[..i + 1]) == Stored(values[..i])[i := values[i]]
    ensures Built(values[..i + 1], key) == Inserted(Built(values[..i], key), Stored(values[..i]), key, i, values[i].stop)
  {
    assert values[..i + 1][..i] == values[..i];
  }

  /** `IntervalTree`: the binary tree, the `max` of every node, and `_count`. */
  class IntervalTree<D(==,!new)> {
    /** The underlying `BinaryTree`, its nodes holding intervals. */
    const tree: BinaryTree<Interval<D>>
    /** `IntervalNode.max` of every node. */
    var max: map<NodeId, int>
    /** `IntervalTree._count`. */
    var count: nat

    /** The binary tree is valid, every node has a `max`, and nodes are ordered by stop. */
    ghost predicate Valid()
      reads this, tree
    {
      && tree.Valid()
      && max.Keys == tree.value.Keys
      && (forall iv :: tree.key(iv) == iv.stop)
    }

    /** Valid, and every node of the tree names its parent. */
    ghost predicate Linked()
      reads this, tree
    {
      Valid() && tree.Linked()
    }

    /** `IntervalTree.__init__`: an empty tree, then `add` of each interval in turn. */
    constructor (values: seq<Interval<D>>)
      ensures Linked() && count == |values| && |tree.value| == |values|
      ensures forall i :: 0 <= i < |values| ==> values[i] in tree.value.Values
      ensures tree.value == Stored(values) && tree.shape == Built(values, tree.key)
    {
      tree := new BinaryTree((iv: Interval<D>) => iv.stop);
      max := map[];
      count := 0;
      new;
      var i := 0;
      while i < |values|
        invariant 0 <= i <= |values|
        invariant Linked() && count == i && |tree.value| == i
        invariant tree.nextId == i && tree.value == Stored(values[..i]) && tree.shape == Built(values[..i], tree.key)
      {
        AddNext(values, i);
        i := i + 1;
      }
      assert values[..i] == values;
      StoredHas(values);
    }

    /** One pass of the loop of `__init__`: `add` of `values[i]` without a hint. */
    method AddNext(values: seq<Interval<D>>, i: nat)
      requires Linked() && i < |values| && |tree.value| == i
      requires tree.nextId == i && tree.value == Stored(values[..i]) && tree.shape == Built(values[..i], tree.key)
      modifies this, tree
      ensures Linked() && count == old(count) + 1 && |tree.value| == i + 1
      ensures tree.nextId == i + 1 && tree.value == Stored(values[..i + 1]) && tree.shape == Built(values[..i + 1], tree.key)
    {
      ghost var before := tree.value;
      var added, n;
      ghost var p: Path, t: Shape;
      added, n, p, t := Add(values[i], None);
      Grown(before, n, values[i]);
      BuiltStep(values, i, tree.key);
    }

    /** `IntervalNode.__init__`: a detached node whose `max` is its own stop. */
    method NewNode(v: Interval<D>) returns (n: NodeId)
      requires Valid()
      modifies this, tree
      ensures Valid() && (old(Linked()) ==> Linked())
      ensures n == old(tree.nextId) && tree.nextId == n + 1 && n !in old(tree.value)
      ensures tree.value == old(tree.value)[n := v] && max == old(max)[n := v.stop]
      ensures tree.parent == old(tree.parent)[n := None] && tree.left == old(tree.left)[n := None]
      ensures tree.right == old(tree.right)[n := None]
      ensures tree.root == old(tree.root) && tree.shape == old(tree.shape) && count == old(count)
    {
      n := tree.NewNode(v);
      max := max[n := v.stop];
    }

    /** `IntervalNode.update_max` of the top `n` of `t`: its `max` alone becomes `Refresh`. */
    method UpdateMax(n: NodeId, ghost p: Path, ghost t: Shape)
      requires Valid() && Plug(p, t) == tree.shape && t.Node? && t.id == n
      modifies this
      ensures n in tree.value && max == old(max)[n := Refresh(t, tree.value, old(max))]
      ensures Valid() && count == old(count)
    {
      Site(p, t, tree.left, tree.right, tree.value.Keys);
      var m := tree.value[n].stop;
      var l := tree.left[n];
      if l.Some? && max[l.value] > m {
        m := max[l.value];
      }
      var r := tree.right[n];
      if r.Some? && max[r.value] > m {
        m := max[r.value];
      }
      max := max[n := m];
    }

    /**
      `IntervalTree.rotate_left`: the binary rotation, then `update_max` of
      the old top and of the new one. The caches stay right; the stale
      parent link of the binary rotation stays too.
     */
    method RotateLeft(n: NodeId, ghost p: Path, ghost t: Shape) returns (m: NodeId)
      requires Linked() && Plug(p, t) == tree.shape && t.Node? && t.id == n && t.right.Node?
      modifies this, tree
      ensures m == t.right.id && tree.shape == Plug(p, RotatedLeft(t)) && Valid() && !tree.Linked()
      ensures tree.value == old(tree.value) && count == old(count)
      ensures var s := RotatedLeft(t);
        && n in tree.value && m in tree.value
        && var max1 := old(max)[n := Refresh(s.left, tree.value, old(max))];
           max == max1[m := Refresh(s, tree.value, max1)]
      ensures old(Cached(tree.shape, tree.value, max)) ==> Cached(tree.shape, tree.value, max)
    {
      Site(p, t, tree.left, tree.right, tree.value.Keys);
      var right := NonNull(tree.right[n]);
      ghost var cached := Cached(tree.shape, tree.value, max);
      ghost var max0 := max;
      var top := tree.RotateLeft(n, p, t);
      RefreshLowerLeft(n, right, p, RotatedLeft(t));
      m := right;
      if cached {
        RotatedLeftCached(p, t, tree.value, max0);
      }
    }

    /** `IntervalTree.rotate_right`, the mirror image of `RotateLeft`. */
    method RotateRight(n: NodeId, ghost p: Path, ghost t: Shape) returns (m: NodeId)
      requires Linked() && Plug(p, t) == tree.shape && t.Node? && t.id == n && t.left.Node?
      modifies this, tree
      ensures m == t.left.id && tree.shape == Plug(p, RotatedRight(t)) && Linked()
      ensures tree.value == old(tree.value) && count == old(count)
      ensures var s := RotatedRight(t);
        && n in tree.value && m in tree.value
        && var max1 := old(max)[n := Refresh(s.right, tree.value, old(max))];
           max == max1[m := Refresh(s, tree.value, max1)]
      ensures old(Cached(tree.shape, tree.value, max)) ==> Cached(tree.shape, tree.value, max)
    {
      Site(p, t, tree.left, tree.right, tree.value.Keys);
      var left := NonNull(tree.left[n]);
      ghost var cached := Cached(tree.shape, tree.value, max);
      ghost var max0 := max;
      var top := tree.RotateRight(n, p, t);
      RefreshLowerRight(n, left, p, RotatedRight(t));
      m := left;
      if cached {
        RotatedRightCached(p, t, tree.value, max0);
      }
    }

    /** The two `update_max` calls of `rotate_left`: the left child `n` of the top `m` of `s`, then `m`. */
    method RefreshLowerLeft(n: NodeId, m: NodeId, ghost p: Path, ghost s: Shape)
      requires Valid() && Plug(p, s) == tree.shape && s.Node? && s.id == m && s.left.Node? && s.left.id == n
      modifies this
      ensures Valid() && count == old(count) && n in tree.value && m in tree.value
      ensures var max1 := old(max)[n := Refresh(s.left, tree.value, old(max))];
        max == max1[m := Refresh(s, tree.value, max1)]
    {
      UpdateMax(n, LeftOf(p, m, s.right), s.left);
      UpdateMax(m, p, s);
    }

    /** The two `update_max` calls of `rotate_right`: the right child `n` of the top `m` of `s`, then `m`. */
    method RefreshLowerRight(n: NodeId, m: NodeId, ghost p: Path, ghost s: Shape)
      requires Valid() && Plug(p, s) == tree.shape && s.Node? && s.id == m && s.right.Node? && s.right.id == n
      modifies this
      ensures Valid() && count == old(count) && n in tree.value && m in tree.value
      ensures var max1 := old(max)[n := Refresh(s.right, tree.value, old(max))];
        max == max1[m := Refresh(s, tree.value, max1)]
    {
      UpdateMax(n, RightOf(s.left, m, p), s.right);
      UpdateMax(m, p, s);
    }

    /**
      `IntervalTree.rotate_right_then_left`, as written: the binary double
      rotation, which leaves every `max` as it was.
     */
    method RotateRightThenLeft(x: NodeId, ghost p: Path, ghost t: Shape) returns (y: NodeId)
      requires Linked() && Plug(p, t) == tree.shape && t.Node? && t.id == x && t.right.Node? && t.right.left.Node?
      modifies tree
      ensures y == t.right.left.id && tree.shape == Plug(p, RotatedRightLeft(t)) && Linked()
      ensures tree.value == old(tree.value) && max == old(max) && count == old(count)
    {
      y := tree.RotateRightThenLeft(x, p, t);
    }

    /** `IntervalTree.rotate_left_then_right`, as written: the binary double rotation, `max` untouched. */
    method RotateLeftThenRight(x: NodeId, ghost p: Path, ghost t: Shape) returns (y: NodeId)
      requires Linked() && Plug(p, t) == tree.shape && t.Node? && t.id == x && t.left.Node? && t.left.right.Node?
      modifies tree
      ensures y == t.left.right.id && tree.shape == Plug(p, RotatedLeftRight(t)) && Linked()
      ensures tree.value == old(tree.value) && max == old(max) && count == old(count)
    {
      y := tree.RotateLeftThenRight(x, p, t);
    }

    /** `update_max` of the left child `l`, the right child `r` and then the top `n` of `s`. */
    method RefreshTop(l: NodeId, n: NodeId, r: NodeId, ghost p: Path, ghost s: Shape)
      requires Valid() && Plug(p, s) == tree.shape && s.Node? && s.left.Node? && s.right.Node?
      requires s.left.id == l && s.id == n && s.right.id == r
      modifies this
      ensures Valid() && count == old(count)
      ensures l in tree.value && n in tree.value && r in tree.value
      ensures var max1 := old(max)[l := Refresh(s.left, tree.value, old(max))];
        var max2 := max1[r := Refresh(s.right, tree.value, max1)];
        max == max2[n := Refresh(s, tree.value, max2)]
    {
      UpdateMax(l, LeftOf(p, n, s.right), s.left);
      UpdateMax(r, RightOf(s.left, n, p), s.right);
      UpdateMax(n, p, s);
    }

    /**
      `rotate_right_then_left` as the single rotations do it: the binary
      double rotation, then `update_max` of the two nodes that end below the
      new top and of the top. The caches stay right.
     */
    method RotateRightThenLeftRefreshing(x: NodeId, ghost p: Path, ghost t: Shape) returns (y: NodeId)
      requires Linked() && Plug(p, t) == tree.shape && t.Node? && t.id == x && t.right.Node? && t.right.left.Node?
      modifies this, tree
      ensures y == t.right.left.id && tree.shape == Plug(p, RotatedRightLeft(t)) && Linked()
      ensures tree.value == old(tree.value) && count == old(count)
      ensures old(Cached(tree.shape, tree.value, max)) ==> Cached(tree.shape, tree.value, max)
    {
      Site(p, t, tree.left, tree.right, tree.value.Keys);
      var z := NonNull(tree.right[x]);
      ghost var cached := Cached(tree.shape, tree.value, max);
      ghost var max0 := max;
      y := tree.RotateRightThenLeft(x, p, t);
      RefreshTop(x, y, z, p, RotatedRightLeft(t));
      if cached {
        RotatedRightLeftCached(p, t, tree.value, max0);
      }
    }

    /** `rotate_left_then_right` refreshing the caches, the mirror image of `RotateRightThenLeftRefreshing`. */
    method RotateLeftThenRightRefreshing(x: NodeId, ghost p: Path, ghost t: Shape) returns (y: NodeId)
      requires Linked() && Plug(p, t) == tree.shape && t.Node? && t.id == x && t.left.Node? && t.left.right.Node?
      modifies this, tree
      ensures y == t.left.right.id && tree.shape == Plug(p, RotatedLeftRight(t)) && Linked()
      ensures tree.value == old(tree.value) && count == old(count)
      ensures old(Cached(tree.shape, tree.value, max)) ==> Cached(tree.shape, tree.value, max)
    {
      Site(p, t, tree.left, tree.right, tree.value.Keys);
      var z := NonNull(tree.left[x]);
      ghost var cached := Cached(tree.shape, tree.value, max);
      ghost var max0 := max;
      y := tree.RotateLeftThenRight(x, p, t);
      RefreshTop(z, y, x, p, RotatedLeftRight(t));
      if cached {
        RotatedLeftRightCached(p, t, tree.value, max0);
      }
    }

    /**
      `IntervalTree.get_add_hint`: the descent of the binary tree's hint with
      the stop as key. It is absent only for an empty tree, lies on the
      search path of the stop, and its slot on the side of the stop is free
      unless the stops are equal.
     */
    method GetAddHint(v: Interval<D>) returns (r: Option<NodeId>, ghost p: Path, ghost t: Shape)
      requires Valid()
      ensures r.None? <==> tree.root.None?
      ensures r.Some? ==> r.value in Ids(tree.shape) && OnSearchPath(tree.shape, tree.value, tree.key, v.stop, r.value)
      ensures r.Some? && v.stop < tree.value[r.value].stop ==> tree.left[r.value].None?
      ensures r.Some? && v.stop > tree.value[r.value].stop ==> tree.right[r.value].None?
      ensures r.Some? ==> Plug(p, t) == tree.shape && t.Node? && t.id == r.value && Fits(p, tree.value, tree.key, v.stop)
      ensures r.Some? && v.stop < tree.value[r.value].stop ==> t.left == Nil
      ensures r.Some? && v.stop > tree.value[r.value].stop ==> t.right == Nil
    {
      r, p, t := tree.GetAddHint(v);
    }

    /**
      `IntervalTree.add`: a new node for `v` becomes the root of an empty
      tree, or hangs under the hint (or the node `get_add_hint` finds) on
      the left when its stop is smaller and on the right otherwise, in place
      of whatever child was there. Only the new node's `max` is set. Without
      a hint the new shape is `Inserted`.
     */
    method Add(v: Interval<D>, hint: Option<NodeId>) returns (added: bool, n: NodeId, ghost p: Path, ghost t: Shape)
      requires Valid() && (hint.Some? ==> hint.value in Ids(tree.shape))
      modifies this, tree
      ensures Valid() && (old(Linked()) ==> Linked()) && added && count == old(count) + 1
      ensures n == old(tree.nextId) && tree.nextId == n + 1 && n !in old(tree.value)
      ensures tree.value == old(tree.value)[n := v] && max == old(max)[n := v.stop]
      ensures hint.None? ==> tree.shape == Inserted(old(tree.shape), old(tree.value), tree.key, n, v.stop)
      ensures old(tree.root).None? ==> tree.shape == Node(Nil, n, Nil)
      ensures old(tree.root).Some? ==>
        && t.Node? && Plug(p, t) == old(tree.shape) && t.id in old(tree.value)
        && var onLeft := v.stop < old(tree.value)[t.id].stop;
           && tree.shape == Plug(p, Hung(t, n, onLeft))
           && (hint.Some? ==> t.id == hint.value)
           && (hint.None? ==> OnSearchPath(old(tree.shape), old(tree.value), tree.key, v.stop, t.id))
           && (hint.None? && v.stop != old(tree.value)[t.id].stop ==> Dropped(t, onLeft) == Nil)
    {
      var parent := hint;
      if hint.None? {
        parent, p, t := GetAddHint(v);
        if parent.Some? {
          HungIsInserted(p, t, tree.value, tree.key, tree.nextId, v.stop);
        }
      } else {
        ghost var site := Locate(tree.shape, hint.value);
        p, t := site.0, site.1;
      }
      n := Attach(parent, v, p, t);
      added := true;
    }

    /**
      The rest of `add` once the parent is chosen: a new node for `v`
      becomes the root when there is no parent, and otherwise hangs under
      it, on the left when its stop is smaller and on the right otherwise,
      in place of whatever child was there.
     */
    method Attach(parent: Option<NodeId>, v: Interval<D>, ghost p: Path, ghost t: Shape) returns (n: NodeId)
      requires Valid() && (parent.None? ==> tree.root.None?)
      requires parent.Some? ==> Plug(p, t) == tree.shape && t.Node? && t.id == parent.value
      modifies this, tree
      ensures Valid() && (old(Linked()) ==> Linked()) && count == old(count) + 1
      ensures n == old(tree.nextId) && tree.nextId == n + 1 && n !in old(tree.value)
      ensures tree.value == old(tree.value)[n := v] && max == old(max)[n := v.stop]
      ensures parent.None? ==> tree.shape == Node(Nil, n, Nil)
      ensures parent.Some? ==>
        && t.id in old(tree.value) && t.id in old(tree.left) && t.id in old(tree.right)
        && var onLeft := v.stop < old(tree.value)[t.id].stop;
           && tree.shape == Plug(p, Hung(t, n, onLeft))
           && (Dropped(t, onLeft) == Nil <==> if onLeft then old(tree.left)[t.id] == None else old(tree.right)[t.id] == None)
    {
      if parent.None? {
        n := PlantNew(v);
      } else {
        n := HangNew(parent.value, v, p, t);
      }
    }

    /** `self._root = IntervalNode(value)` and the count. */
    method PlantNew(v: Interval<D>) returns (n: NodeId)
      requires Valid() && tree.root.None?
      modifies this, tree
      ensures Linked() && count == old(count) + 1
      ensures n == old(tree.nextId) && tree.nextId == n + 1 && n !in old(tree.value) && tree.value == old(tree.value)[n := v] && max == old(max)[n := v.stop]
      ensures tree.shape == Node(Nil, n, Nil)
    {
      n := NewNode(v);
      count := count + 1;
      tree.PlantRoot(n);
    }

    /** A new node for `v` hung under `q`, on the side of its stop, and the count. */
    method HangNew(q: NodeId, v: Interval<D>, ghost p: Path, ghost t: Shape) returns (n: NodeId)
      requires Valid() && Plug(p, t) == tree.shape && t.Node? && t.id == q
      modifies this, tree
      ensures Valid() && (old(Linked()) ==> Linked()) && count == old(count) + 1
      ensures n == old(tree.nextId) && tree.nextId == n + 1 && n !in old(tree.value)
      ensures tree.value == old(tree.value)[n := v] && max == old(max)[n := v.stop]
      ensures q in old(tree.value) && q in old(tree.left) && q in old(tree.right)
      ensures var onLeft := v.stop < old(tree.value)[q].stop;
        && tree.shape == Plug(p, Hung(t, n, onLeft))
        && (Dropped(t, onLeft) == Nil <==> if onLeft then old(tree.left)[q] == None else old(tree.right)[q] == None)
    {
      Site(p, t, tree.left, tree.right, tree.value.Keys);
      n := NewNode(v);
      count := count + 1;
      var onLeft := v.stop < tree.value[q].stop;
      tree.Hang(q, n, onLeft, p, t);
    }

    /**
      `IntervalTree.addi`: `add` of the interval built from its parts,
      without a hint; `n` is the node it creates.
     */
    method Addi(start: int, stop: int, data: Option<D>) returns (ghost n: NodeId)
      requires Valid()
      modifies this, tree
      ensures Valid() && (old(Linked()) ==> Linked()) && count == old(count) + 1
      ensures n == old(tree.nextId) && tree.nextId == n + 1 && n !in old(tree.value)
      ensures tree.value == old(tree.value)[n := Interval(start, stop, data)] && max == old(max)[n := stop]
      ensures tree.shape == Inserted(old(tree.shape), old(tree.value), tree.key, n, stop)
    {
      var added, m;
      ghost var p: Path, t: Shape;
      added, m, p, t := Add(Interval(start, stop, data), None);
      n := m;
    }

    /**
      `IntervalTree.overlapping`: the pruned descent to a node overlapping
      `q`, then that node's interval and those of its in-order successors up
      to and including the first one that does not overlap `q`.
     */
    method Overlapping(q: Interval<D>) returns (r: seq<Interval<D>>)
      requires Linked()
      ensures r == Overlapped(tree.shape, tree.value, max, q)
    {
      var x := Descent(q);
      r := [];
      if x.Some? {
        r := RunFrom(x.value, q);
      }
    }

    /** The first loop of `overlapping`: down to the left child while its `max` reaches `q`, else right. */
    method Descent(q: Interval<D>) returns (x: Option<NodeId>)
      requires Valid()
      ensures x == Descend(tree.shape, tree.value, max, q)
    {
      ghost var s := tree.shape;
      x := tree.root;
      ghost var t := s;
      while x.Some? && !Overlaps(tree.value[x.value], q)
        invariant Links(t, tree.left, tree.right) && Ids(t) <= Ids(s) && x == RootId(t)
        invariant Descend(t, tree.value, max, q) == Descend(s, tree.value, max, q)
        decreases t
      {
        var l := tree.left[x.value];
        assert t.left.Node? ==> t.left.id in Ids(t.left);
        if l.Some? && max[l.value] >= q.start {
          x, t := l, t.left;
        } else {
          x, t := tree.right[x.value], t.right;
        }
      }
    }

    /**
      The second loop of `overlapping`: the intervals of `x` and its in-order
      successors, up to and including the first that does not overlap `q`.
     */
    method RunFrom(x: NodeId, q: Interval<D>) returns (r: seq<Interval<D>>)
      requires Linked() && x in Ids(tree.shape)
      ensures forall i :: 0 <= i < |From(InOrder(tree.shape), x)| ==> From(InOrder(tree.shape), x)[i] in tree.value
      ensures r == Run(From(InOrder(tree.shape), x), tree.value, q)
    {
      ghost var s := tree.shape;
      ghost var o := InOrder(s);
      DistinctNoDup(s);
      InOrderIds(s);
      FromInTree(s, tree.value, x);
      ghost var start := From(o, x);
      ghost var rest := start;
      var y := Some(x);
      r := [];
      while y.Some?
        invariant y.Some? ==> y.value in Ids(s) && rest == From(o, y.value)
        invariant y.None? ==> rest == []
        invariant forall i :: 0 <= i < |rest| ==> rest[i] in tree.value
        invariant r + Run(rest, tree.value, q) == Run(start, tree.value, q)
        decreases |rest|
      {
        var iv := tree.value[y.value];
        FromStep(o, y.value);
        RunStep(r, rest, tree.value, q);
        r := r + [iv];
        if !Overlaps(iv, q) {
          break;
        }
        ghost var here := y.value;
        y := tree.Next(y.value);
        SuccessorIn(o, here);
        assert y.Some? ==> y.value in o;
        rest := rest[1..];
      }
    }

    /**
      Every interval of the tree that overlaps `q`, in order: the walk of
      `overlapping` without the pruning and without stopping early.
     */
    method OverlappingAll(q: Interval<D>) returns (r: seq<Interval<D>>)
      requires Linked()
      ensures forall i :: 0 <= i < |InOrder(tree.shape)| ==> InOrder(tree.shape)[i] in tree.value
      ensures r == OverlapsIn(InOrder(tree.shape), tree.value, q)
    {
      ghost var o := InOrder(tree.shape);
      InOrderIds(tree.shape);
      DistinctNoDup(tree.shape);
      forall i | 0 <= i < |o| ensures o[i] in tree.value {
        assert o[i] in Ids(tree.shape);
      }
      r := [];
      if tree.root.None? {
        return;
      }
      var first := tree.GetLeftmost(tree.root.value, tree.shape);
      var x := Some(first);
      ghost var i := 0;
      while x.Some?
        invariant 0 <= i <= |o| && (x.Some? <==> i < |o|) && (x.Some? ==> x.value == o[i])
        invariant r == OverlapsIn(o[..i], tree.value, q)
        decreases |o| - i
      {
        var iv := tree.value[x.value];
        if Overlaps(iv, q) {
          r := r + [iv];
        }
        OverlapsInSnoc(o, i, tree.value, q);
        SuccessorIndex(o, i);
        x := tree.Next(x.value);
        i := i + 1;
      }
      assert o[..i] == o;
    }

    /**
      `IntervalTree.__contains__`, as written: only an interval probe can be
      found, by a search on its stop that goes left past smaller stops.
     */
    method Contains(x: Probe<D>) returns (b: bool)
      requires Valid()
      ensures b <==> (x.IntervalProbe? &&
        var f := ContainsStop(tree.shape, tree.value, x.interval.stop);
        f.Some? && tree.value[f.value] == x.interval)
    {
      if !x.IntervalProbe? {
        return false;
      }
      var k := x.interval.stop;
      var node := tree.root;
      ghost var t := tree.shape;
      while node.Some?
        invariant Links(t, tree.left, tree.right) && Ids(t) <= Ids(tree.shape) && node == RootId(t)
        invariant ContainsStop(t, tree.value, k) == ContainsStop(tree.shape, tree.value, k)
        decreases t
      {
        var stop := tree.value[node.value].stop;
        if stop < k {
          node, t := tree.left[node.value], t.left;
        } else if stop > k {
          node, t := tree.right[node.value], t.right;
        } else {
          break;
        }
      }
      b := node.Some? && tree.value[node.value] == x.interval;
    }

    /**
      `__contains__` with the search turned the right way: left past larger
      stops, and right past smaller ones and past an equal stop that holds
      another interval. On a search tree on `stop` it answers true exactly for
      the intervals some node holds.
     */
    method ContainsSearching(x: Probe<D>) returns (b: bool)
      requires Valid()
      ensures b <==> x.IntervalProbe? && SearchInterval(tree.shape, tree.value, x.interval).Some?
      ensures Ordered(tree.shape, tree.value) ==>
        (b <==> x.IntervalProbe? && exists m :: m in Ids(tree.shape) && tree.value[m] == x.interval)
    {
      if !x.IntervalProbe? {
        return false;
      }
      var k := x.interval.stop;
      var node := tree.root;
      ghost var t := tree.shape;
      while node.Some?
        invariant Links(t, tree.left, tree.right) && Ids(t) <= Ids(tree.shape) && node == RootId(t)
        invariant SearchInterval(t, tree.value, x.interval) == SearchInterval(tree.shape, tree.value, x.interval)
        decreases t
      {
        var stop := tree.value[node.value].stop;
        if stop > k {
          node, t := tree.left[node.value], t.left;
        } else if stop < k || tree.value[node.value] != x.interval {
          node, t := tree.right[node.value], t.right;
        } else {
          break;
        }
      }
      b := node.Some?;
      if Ordered(tree.shape, tree.value) {
        forall m | m in Ids(tree.shape) && tree.value[m] == x.interval
          ensures SearchInterval(tree.shape, tree.value, x.interval).Some?
        {
          SearchIntervalComplete(tree.shape, tree.value, x.interval, m);
        }
      }
    }

    /** `IntervalTree.__len__`: the number of intervals added. */
    method Len() returns (r: nat)
      ensures r == count
    {
      r := count;
    }

    /** `IntervalTree.discard`: removal is not implemented. */
    method Discard(v: Interval<D>) returns (r: Unsupported)
      ensures r == NotImplemented
    {
      r := NotImplemented;
    }

    /**
      The node under which `add` can hang `v` without displacing anything:
      the descent goes right past equal stops as well, so the slot on the
      side `add` picks is always free. The node is found at the end of the
      path `p` that descent follows, heading the subtree `t`.
     */
    method FreeSlot(v: Interval<D>) returns (r: Option<NodeId>, ghost p: Path, ghost t: Shape)
      requires Valid()
      ensures r.None? <==> tree.root.None?
      ensures r.Some? ==> r.value in Ids(tree.shape) && r.value in tree.value
      ensures r.Some? ==> Plug(p, t) == tree.shape && t.Node? && t.id == r.value && Leads(p, tree.value, v.stop)
      ensures r.Some? && v.stop < tree.value[r.value].stop ==> tree.left[r.value].None? && t.left == Nil
      ensures r.Some? && v.stop >= tree.value[r.value].stop ==> tree.right[r.value].None? && t.right == Nil
    {
      r := tree.root;
      p, t := AtRoot, tree.shape;
      while r.Some?
        invariant Links(t, tree.left, tree.right) && Ids(t) <= Ids(tree.shape) && r == RootId(t)
        invariant Plug(p, t) == tree.shape && Leads(p, tree.value, v.stop)
        invariant r.None? ==> t == tree.shape
        decreases t
      {
        var stop := tree.value[r.value].stop;
        if tree.left[r.value].Some? && v.stop < stop {
          r, p, t := tree.left[r.value], LeftOf(p, r.value, t.right), t.left;
        } else if tree.right[r.value].Some? && v.stop >= stop {
          r, p, t := tree.right[r.value], RightOf(t.left, r.value, p), t.right;
        } else {
          break;
        }
      }
    }

    /**
      `update_max` of `x` and then of each of its ancestors up to the root:
      when every subtree hanging off that path has right caches, the whole
      tree ends with right caches.
     */
    method RefreshUp(x: NodeId, ghost p: Path, ghost t: Shape)
      requires Linked() && Plug(p, t) == tree.shape && t.Node? && t.id == x
      requires Cached(t.left, tree.value, max) && Cached(t.right, tree.value, max) && PathCached(p, tree.value, max)
      modifies this
      ensures Linked() && Cached(tree.shape, tree.value, max) && count == old(count)
    {
      var y := Some(x);
      ghost var px, tx := p, t;
      while y.Some?
        invariant Linked() && count == old(count)
        invariant y.Some? ==> && Plug(px, tx) == tree.shape && tx.Node? && tx.id == y.value
                              && Cached(tx.left, tree.value, max) && Cached(tx.right, tree.value, max)
                              && PathCached(px, tree.value, max)
        invariant y.None? ==> Cached(tree.shape, tree.value, max)
        decreases y.Some?, px
      {
        var z := y.value;
        ghost var max0 := max;
        Context(px, tx, tree.root, tree.left, tree.right, tree.parent);
        PlugIds(px, tx);
        UpdateMax(z, px, tx);
        CachedRefresh(tx, tree.value, max0);
        PathCachedFrame(px, tree.value, max0, z, max[z], tree.value[z], false);
        y := tree.parent[z];
        if !px.AtRoot? {
          px, tx := px.up, Up(px, tx);
        }
      }
    }

    /**
      `add` as it is evidently meant: the new node hangs in a free slot, so
      no subtree is lost and the tree gains exactly the new node, and the
      caches of its ancestors are refreshed, so they all stay right.
     */
    method AddRefreshing(v: Interval<D>) returns (n: NodeId)
      requires Linked() && Cached(tree.shape, tree.value, max)
      modifies this, tree
      ensures Linked() && Cached(tree.shape, tree.value, max) && count == old(count) + 1
      ensures n !in old(tree.value) && tree.value == old(tree.value)[n := v]
      ensures tree.shape == Placed(old(tree.shape), old(tree.value), n, v.stop)
      ensures Ids(tree.shape) == old(Ids(tree.shape)) + {n}
      ensures Ordered(old(tree.shape), old(tree.value)) ==> Ordered(tree.shape, tree.value)
    {
      ghost var shape0 := tree.shape;
      var parent, p, t := FreeSlot(v);
      ghost var value0, max0 := tree.value, max;
      n := NewNode(v);
      count := count + 1;
      CachedGrown(tree.shape, value0, max0, n, v);
      if parent.None? {
        tree.PlantRoot(n);
        assert Ids(tree.shape) == {n};
      } else {
        var q := parent.value;
        var onLeft := v.stop < tree.value[q].stop;
        HungIsPlaced(p, t, value0, n, v.stop);
        HangRefreshing(q, n, onLeft, p, t);
      }
      if Ordered(shape0, value0) {
        PlacedOrdered(shape0, value0, n, v);
      }
    }

    /**
      Hanging the fresh node `n` in the free slot of `q` on side `onLeft`,
      then refreshing `q` and its ancestors: the tree gains `n` and nothing
      else, and its caches stay right.
     */
    method HangRefreshing(q: NodeId, n: NodeId, onLeft: bool, ghost p: Path, ghost t: Shape)
      requires Linked() && Plug(p, t) == tree.shape && t.Node? && t.id == q && Cached(tree.shape, tree.value, max)
      requires n in tree.value && n !in Ids(tree.shape) && tree.left[n] == None && tree.right[n] == None
      requires max[n] == tree.value[n].stop
      requires q in tree.left && q in tree.right
      requires if onLeft then tree.left[q] == None else tree.right[q] == None
      modifies this, tree
      ensures Linked() && Cached(tree.shape, tree.value, max) && count == old(count)
      ensures tree.value == old(tree.value) && Ids(tree.shape) == old(Ids(tree.shape)) + {n}
      ensures tree.shape == Plug(p, Hung(t, n, onLeft))
    {
      Site(p, t, tree.left, tree.right, tree.value.Keys);
      assert Dropped(t, onLeft) == Nil;
      HangIds(p, t, n, onLeft);
      HangCaches(p, t, n, onLeft, tree.value, max);
      tree.Hang(q, n, onLeft, p, t);
      RefreshUp(q, p, Hung(t, n, onLeft));
    }
  }
}
