/**
  The value-level theory of `scl.intervaltree`: closed intervals and their
  overlap test, the largest `stop` of a subtree that a node's `max` field
  caches, the order of a tree keyed by `stop`, and the searches the tree's
  loops perform, as functions on shapes.
 */
module Intervals {
  import opened Util
  import opened Shapes

  /** `Interval`: the closed range from `start` to `stop`, with optional data. */
  datatype Interval<D> = Interval(start: int, stop: int, data: Option<D>)

  /** The argument of `__contains__`: an `Interval`, or anything else. */
  datatype Probe<D> = IntervalProbe(interval: Interval<D>) | OtherProbe

  /** `Interval.overlaps`: closed ranges, so touching ends overlap. */
  predicate Overlaps<D>(a: Interval<D>, b: Interval<D>) {
    a.stop >= b.start && a.start <= b.stop
  }

  /** The point `x` lies in `a`. */
  predicate Holds<D>(a: Interval<D>, x: int) {
    a.start <= x <= a.stop
  }

  lemma OverlapsSymmetric<D>(a: Interval<D>, b: Interval<D>)
    ensures Overlaps(a, b) <==> Overlaps(b, a)
  {
  }

  /** For intervals that are not empty, overlapping means sharing a point. */
  lemma OverlapsShared<D>(a: Interval<D>, b: Interval<D>)
    requires a.start <= a.stop && b.start <= b.stop
    ensures Overlaps(a, b) <==> exists x :: Holds(a, x) && Holds(b, x)
  {
    if Overlaps(a, b) {
      var x := if a.start < b.start then b.start else a.start;
      assert Holds(a, x) && Holds(b, x);
    }
  }

  function Larger(a: int, b: int): int {
    if a < b then b else a
  }

  /** The largest `stop` in the subtree `s`. */
  ghost function SubtreeMax<D>(s: Shape, value: map<NodeId, Interval<D>>): int
    requires s.Node? && Ids(s) <= value.Keys
  {
    var m := value[s.id].stop;
    var m' := if s.left.Node? then Larger(m, SubtreeMax(s.left, value)) else m;
    if s.right.Node? then Larger(m', SubtreeMax(s.right, value)) else m'
  }

  /** `SubtreeMax` is the maximum of the stops of the subtree: a bound that one of them meets. */
  lemma {:induction false} SubtreeMaxIsMax<D>(s: Shape, value: map<NodeId, Interval<D>>)
    requires s.Node? && Ids(s) <= value.Keys
    ensures forall n :: n in Ids(s) ==> value[n].stop <= SubtreeMax(s, value)
    ensures exists n :: n in Ids(s) && value[n].stop == SubtreeMax(s, value)
  {
    var top := s.id;
    var w := top;
    if s.left.Node? {
      SubtreeMaxIsMax(s.left, value);
      var u :| u in Ids(s.left) && value[u].stop == SubtreeMax(s.left, value);
      if value[w].stop < value[u].stop {
        w := u;
      }
    }
    if s.right.Node? {
      SubtreeMaxIsMax(s.right, value);
      var u :| u in Ids(s.right) && value[u].stop == SubtreeMax(s.right, value);
      if value[w].stop < value[u].stop {
        w := u;
      }
    }
    assert w in Ids(s) && value[w].stop == SubtreeMax(s, value);
  }

  /** The top of `s`, if any, caches the largest stop of `s`. */
  ghost predicate CachedAt<D>(s: Shape, value: map<NodeId, Interval<D>>, max: map<NodeId, int>) {
    s.Node? ==> s.id in max && Ids(s) <= value.Keys && max[s.id] == SubtreeMax(s, value)
  }

  /** Every node of `s` caches the largest stop of its subtree. */
  ghost predicate Cached<D>(s: Shape, value: map<NodeId, Interval<D>>, max: map<NodeId, int>) {
    match s
    case Nil => true
    case Node(l, _, r) => CachedAt(s, value, max) && Cached(l, value, max) && Cached(r, value, max)
  }

  /** The caches of `s` depend on the `max` of its own nodes only. */
  lemma {:induction false} CachedFrame<D>(s: Shape, value: map<NodeId, Interval<D>>, max: map<NodeId, int>, max': map<NodeId, int>)
    requires Cached(s, value, max)
    requires forall n :: n in Ids(s) && n in max ==> n in max' && max'[n] == max[n]
    ensures Cached(s, value, max')
  {
    if s.Node? {
      CachedFrame(s.left, value, max, max');
      CachedFrame(s.right, value, max, max');
    }
  }

  /** The subtree at the end of a path of a tree with right caches has right caches. */
  lemma {:induction false} CachedInside<D>(p: Path, t: Shape, value: map<NodeId, Interval<D>>, max: map<NodeId, int>)
    requires Cached(Plug(p, t), value, max)
    ensures Cached(t, value, max)
  {
    match p
    case AtRoot =>
    case LeftOf(up, n, r) =>
      CachedInside(up, Node(t, n, r), value, max);
    case RightOf(l, n, up) =>
      CachedInside(up, Node(l, n, t), value, max);
  }

  /**
    Replacing a subtree by a rearrangement with right caches and the same
    largest stop keeps every cache of the tree right, when the nodes along
    the path keep their `max`.
   */
  lemma {:induction false} CachedPlug<D>(p: Path, t: Shape, t': Shape, value: map<NodeId, Interval<D>>, max: map<NodeId, int>, max': map<NodeId, int>)
    requires t.Node? && t'.Node? && Ids(t') == Ids(t)
    requires Cached(Plug(p, t), value, max) && Cached(t', value, max')
    requires SubtreeMax(t', value) == SubtreeMax(t, value)
    requires forall n :: n in PathIds(p) && n in max ==> n in max' && max'[n] == max[n]
    ensures Cached(Plug(p, t'), value, max')
  {
    match p
    case AtRoot =>
    case LeftOf(up, n, r) =>
      CachedInside(up, Node(t, n, r), value, max);
      CachedFrame(r, value, max, max');
      CachedPlug(up, Node(t, n, r), Node(t', n, r), value, max, max');
    case RightOf(l, n, up) =>
      CachedInside(up, Node(l, n, t), value, max);
      CachedFrame(l, value, max, max');
      CachedPlug(up, Node(l, n, t), Node(l, n, t'), value, max, max');
  }

  /**
    `IntervalNode.update_max`: the node's own stop, replaced by the left
    child's cached maximum when that is larger, then by the right child's
    when that is larger still. The result bounds all three and is one of
    them.
   */
  function Refresh<D>(s: Shape, value: map<NodeId, Interval<D>>, max: map<NodeId, int>): (r: int)
    requires s.Node? && s.id in value
    ensures value[s.id].stop <= r
    ensures s.left.Node? && s.left.id in max ==> max[s.left.id] <= r
    ensures s.right.Node? && s.right.id in max ==> max[s.right.id] <= r
    ensures || r == value[s.id].stop
            || (s.left.Node? && s.left.id in max && r == max[s.left.id])
            || (s.right.Node? && s.right.id in max && r == max[s.right.id])
  {
    var m := value[s.id].stop;
    var m := if s.left.Node? && s.left.id in max && max[s.left.id] > m then max[s.left.id] else m;
    if s.right.Node? && s.right.id in max && max[s.right.id] > m then max[s.right.id] else m
  }

  /** Refreshing a node whose children cache their maxima caches the node's own. */
  lemma RefreshCaches<D>(s: Shape, value: map<NodeId, Interval<D>>, max: map<NodeId, int>)
    requires s.Node? && s.id in max && Ids(s) <= value.Keys
    requires CachedAt(s.left, value, max) && CachedAt(s.right, value, max)
    ensures CachedAt(s, value, max[s.id := Refresh(s, value, max)])
  {
    var max' := max[s.id := Refresh(s, value, max)];
    assert Refresh(s, value, max) == SubtreeMax(s, value);
  }

  /** The largest stop of a subtree does not depend on how its nodes are arranged by a rotation. */
  lemma RotatedLeftMax<D>(t: Shape, value: map<NodeId, Interval<D>>)
    requires t.Node? && t.right.Node? && Ids(t) <= value.Keys
    ensures SubtreeMax(RotatedLeft(t), value) == SubtreeMax(t, value)
  {
    var s := RotatedLeft(t);
    assert Ids(s.left) <= Ids(t);
  }

  lemma RotatedRightMax<D>(t: Shape, value: map<NodeId, Interval<D>>)
    requires t.Node? && t.left.Node? && Ids(t) <= value.Keys
    ensures SubtreeMax(RotatedRight(t), value) == SubtreeMax(t, value)
  {
    var s := RotatedRight(t);
    assert Ids(s.right) <= Ids(t);
  }

  lemma RotatedRightLeftMax<D>(t: Shape, value: map<NodeId, Interval<D>>)
    requires t.Node? && t.right.Node? && t.right.left.Node? && Ids(t) <= value.Keys
    ensures SubtreeMax(RotatedRightLeft(t), value) == SubtreeMax(t, value)
  {
    var u := Node(t.left, t.id, RotatedRight(t.right));
    RotatedRightMax(t.right, value);
    assert SubtreeMax(u, value) == SubtreeMax(t, value);
    RotatedLeftMax(u, value);
  }

  lemma RotatedLeftRightMax<D>(t: Shape, value: map<NodeId, Interval<D>>)
    requires t.Node? && t.left.Node? && t.left.right.Node? && Ids(t) <= value.Keys
    ensures SubtreeMax(RotatedLeftRight(t), value) == SubtreeMax(t, value)
  {
    var u := Node(RotatedLeft(t.left), t.id, t.right);
    RotatedLeftMax(t.left, value);
    assert SubtreeMax(u, value) == SubtreeMax(t, value);
    RotatedRightMax(u, value);
  }

  /** Refreshing a node whose two subtrees have right caches gives the whole subtree right caches. */
  lemma CachedRefresh<D>(s: Shape, value: map<NodeId, Interval<D>>, max: map<NodeId, int>)
    requires s.Node? && s.id in max && Ids(s) <= value.Keys && s.id !in Ids(s.left) && s.id !in Ids(s.right)
    requires Cached(s.left, value, max) && Cached(s.right, value, max)
    ensures Cached(s, value, max[s.id := Refresh(s, value, max)])
  {
    var max' := max[s.id := Refresh(s, value, max)];
    RefreshCaches(s, value, max);
    CachedFrame(s.left, value, max, max');
    CachedFrame(s.right, value, max, max');
  }

  /** A rearrangement with right caches and the same largest stop goes back into a tree with right caches. */
  lemma Replug<D>(p: Path, t: Shape, s: Shape, value: map<NodeId, Interval<D>>, max: map<NodeId, int>, max': map<NodeId, int>)
    requires t.Node? && s.Node? && Ids(s) == Ids(t) && Ids(t) <= value.Keys && SubtreeMax(s, value) == SubtreeMax(t, value)
    requires Distinct(Plug(p, t)) && Cached(Plug(p, t), value, max) && Cached(s, value, max')
    requires forall k :: k in max && k !in Ids(t) ==> k in max' && max'[k] == max[k]
    ensures Cached(Plug(p, s), value, max')
  {
    PlugDistinct(p, t);
    CachedPlug(p, t, s, value, max, max');
  }

  /**
    `IntervalTree.rotate_left`: after the rotation, refreshing the old top
    and then the new one leaves every cache of the tree right when all were
    right before.
   */
  lemma RotatedLeftCached<D>(p: Path, t: Shape, value: map<NodeId, Interval<D>>, max: map<NodeId, int>)
    requires t.Node? && t.right.Node? && Ids(t) <= value.Keys
    requires Distinct(Plug(p, t)) && Cached(Plug(p, t), value, max)
    ensures var s := RotatedLeft(t);
      var max1 := max[t.id := Refresh(s.left, value, max)];
      Cached(Plug(p, s), value, max1[t.right.id := Refresh(s, value, max1)])
  {
    var s := RotatedLeft(t);
    var max1 := max[t.id := Refresh(s.left, value, max)];
    var max2 := max1[t.right.id := Refresh(s, value, max1)];
    CachedInside(p, t, value, max);
    CachedKeys(t, value, max);
    PlugDistinct(p, t);
    RotatedLeftDistinct(t);
    assert Cached(t.right, value, max);
    CachedRefresh(s.left, value, max);
    CachedFrame(s.right, value, max, max1);
    CachedRefresh(s, value, max1);
    RotatedLeftMax(t, value);
    Replug(p, t, s, value, max, max2);
  }

  /** `IntervalTree.rotate_right`, the mirror image of `RotatedLeftCached`. */
  lemma RotatedRightCached<D>(p: Path, t: Shape, value: map<NodeId, Interval<D>>, max: map<NodeId, int>)
    requires t.Node? && t.left.Node? && Ids(t) <= value.Keys
    requires Distinct(Plug(p, t)) && Cached(Plug(p, t), value, max)
    ensures var s := RotatedRight(t);
      var max1 := max[t.id := Refresh(s.right, value, max)];
      Cached(Plug(p, s), value, max1[t.left.id := Refresh(s, value, max1)])
  {
    var s := RotatedRight(t);
    var max1 := max[t.id := Refresh(s.right, value, max)];
    var max2 := max1[t.left.id := Refresh(s, value, max1)];
    CachedInside(p, t, value, max);
    CachedKeys(t, value, max);
    PlugDistinct(p, t);
    RotatedRightDistinct(t);
    assert Cached(t.left, value, max);
    CachedRefresh(s.right, value, max);
    CachedFrame(s.left, value, max, max1);
    CachedRefresh(s, value, max1);
    RotatedRightMax(t, value);
    Replug(p, t, s, value, max, max2);
  }

  /**
    A double rotation leaves a top `s` with two children whose four subtrees
    kept their caches; refreshing the left child, the right child and then
    the top gives `s` right caches.
   */
  lemma DoubleRotatedCached<D>(s: Shape, value: map<NodeId, Interval<D>>, max: map<NodeId, int>)
    requires s.Node? && s.left.Node? && s.right.Node? && Ids(s) <= value.Keys && Ids(s) <= max.Keys && Distinct(s)
    requires Cached(s.left.left, value, max) && Cached(s.left.right, value, max)
    requires Cached(s.right.left, value, max) && Cached(s.right.right, value, max)
    ensures var max1 := max[s.left.id := Refresh(s.left, value, max)];
      var max2 := max1[s.right.id := Refresh(s.right, value, max1)];
      Cached(s, value, max2[s.id := Refresh(s, value, max2)])
  {
    var max1 := max[s.left.id := Refresh(s.left, value, max)];
    var max2 := max1[s.right.id := Refresh(s.right, value, max1)];
    CachedRefresh(s.left, value, max);
    CachedFrame(s.right.left, value, max, max1);
    CachedFrame(s.right.right, value, max, max1);
    CachedRefresh(s.right, value, max1);
    CachedFrame(s.left, value, max1, max2);
    CachedRefresh(s, value, max2);
  }

  /** Every node of a subtree with right caches has a cache. */
  lemma {:induction false} CachedKeys<D>(s: Shape, value: map<NodeId, Interval<D>>, max: map<NodeId, int>)
    requires Cached(s, value, max)
    ensures Ids(s) <= max.Keys
  {
    if s.Node? {
      CachedKeys(s.left, value, max);
      CachedKeys(s.right, value, max);
    }
  }

  /** `rotate_right_then_left` followed by refreshing the two lower nodes and then the top. */
  lemma RotatedRightLeftCached<D>(p: Path, t: Shape, value: map<NodeId, Interval<D>>, max: map<NodeId, int>)
    requires t.Node? && t.right.Node? && t.right.left.Node? && Ids(t) <= value.Keys
    requires Distinct(Plug(p, t)) && Cached(Plug(p, t), value, max)
    ensures var s := RotatedRightLeft(t);
      var max1 := max[t.id := Refresh(s.left, value, max)];
      var max2 := max1[t.right.id := Refresh(s.right, value, max1)];
      Cached(Plug(p, s), value, max2[t.right.left.id := Refresh(s, value, max2)])
  {
    var s := RotatedRightLeft(t);
    var max1 := max[t.id := Refresh(s.left, value, max)];
    var max2 := max1[t.right.id := Refresh(s.right, value, max1)];
    CachedInside(p, t, value, max);
    CachedKeys(t, value, max);
    PlugDistinct(p, t);
    RotatedRightLeftDistinct(t);
    assert Cached(t.right, value, max) && Cached(t.right.left, value, max);
    DoubleRotatedCached(s, value, max);
    RotatedRightLeftMax(t, value);
    Replug(p, t, s, value, max, max2[t.right.left.id := Refresh(s, value, max2)]);
  }

  /** `rotate_left_then_right` followed by refreshing the two lower nodes and then the top. */
  lemma RotatedLeftRightCached<D>(p: Path, t: Shape, value: map<NodeId, Interval<D>>, max: map<NodeId, int>)
    requires t.Node? && t.left.Node? && t.left.right.Node? && Ids(t) <= value.Keys
    requires Distinct(Plug(p, t)) && Cached(Plug(p, t), value, max)
    ensures var s := RotatedLeftRight(t);
      var max1 := max[t.left.id := Refresh(s.left, value, max)];
      var max2 := max1[t.id := Refresh(s.right, value, max1)];
      Cached(Plug(p, s), value, max2[t.left.right.id := Refresh(s, value, max2)])
  {
    var s := RotatedLeftRight(t);
    var max1 := max[t.left.id := Refresh(s.left, value, max)];
    var max2 := max1[t.id := Refresh(s.right, value, max1)];
    CachedInside(p, t, value, max);
    CachedKeys(t, value, max);
    PlugDistinct(p, t);
    RotatedLeftRightDistinct(t);
    assert Cached(t.left, value, max) && Cached(t.left.right, value, max);
    DoubleRotatedCached(s, value, max);
    RotatedLeftRightMax(t, value);
    Replug(p, t, s, value, max, max2[t.left.right.id := Refresh(s, value, max2)]);
  }

  /**
    A double rotation that keeps every `max` as it was leaves the new top
    with the cache of its old, smaller subtree: [0, 2] rises above [0, 3]
    and still caches 2.
   */
  lemma DoubleRotationStale()
    ensures var value: map<NodeId, Interval<int>> := map[1 := Interval(0, 1, None), 2 := Interval(0, 2, None), 3 := Interval(0, 3, None)];
      var max := map[1 := 3, 2 := 2, 3 := 3];
      var t := Node(Nil, 1, Node(Node(Nil, 2, Nil), 3, Nil));
      var u := Node(Node(Nil, 3, Node(Nil, 2, Nil)), 1, Nil);
      && Cached(t, value, max) && !Cached(RotatedRightLeft(t), value, max)
      && Cached(u, value, max) && !Cached(RotatedLeftRight(u), value, max)
  {
    var value: map<NodeId, Interval<int>> := map[1 := Interval(0, 1, None), 2 := Interval(0, 2, None), 3 := Interval(0, 3, None)];
    var max := map[1 := 3, 2 := 2, 3 := 3];
    var t := Node(Nil, 1, Node(Node(Nil, 2, Nil), 3, Nil));
    assert Ids(t) == {1, 2, 3};
    var s := RotatedRightLeft(t);
    assert s == Node(Node(Nil, 1, Nil), 2, Node(Nil, 3, Nil));
    assert SubtreeMax(s, value) == 3;
  }

  /** The caches of `s` do not depend on the value of a node outside `s`. */
  lemma {:induction false} CachedValueFrame<D>(s: Shape, value: map<NodeId, Interval<D>>, max: map<NodeId, int>, n: NodeId, v: Interval<D>)
    requires Cached(s, value, max) && n !in Ids(s)
    ensures Cached(s, value[n := v], max)
  {
    if s.Node? {
      SubtreeMaxFrame(s, value, n, v);
      CachedValueFrame(s.left, value, max, n, v);
      CachedValueFrame(s.right, value, max, n, v);
    }
  }

  lemma {:induction false} SubtreeMaxFrame<D>(s: Shape, value: map<NodeId, Interval<D>>, n: NodeId, v: Interval<D>)
    requires s.Node? && Ids(s) <= value.Keys && n !in Ids(s)
    ensures SubtreeMax(s, value[n := v]) == SubtreeMax(s, value)
  {
    if s.left.Node? {
      SubtreeMaxFrame(s.left, value, n, v);
    }
    if s.right.Node? {
      SubtreeMaxFrame(s.right, value, n, v);
    }
  }

  /** The subtrees hanging off the path `p` have right caches. */
  ghost predicate PathCached<D>(p: Path, value: map<NodeId, Interval<D>>, max: map<NodeId, int>) {
    match p
    case AtRoot => true
    case LeftOf(up, _, r) => Cached(r, value, max) && PathCached(up, value, max)
    case RightOf(l, _, up) => Cached(l, value, max) && PathCached(up, value, max)
  }

  /** In a tree with right caches, the subtrees hanging off any path have right caches. */
  lemma {:induction false} CachedAlong<D>(p: Path, t: Shape, value: map<NodeId, Interval<D>>, max: map<NodeId, int>)
    requires Cached(Plug(p, t), value, max)
    ensures PathCached(p, value, max)
  {
    match p
    case AtRoot =>
    case LeftOf(up, n, r) =>
      CachedAlong(up, Node(t, n, r), value, max);
      CachedInside(up, Node(t, n, r), value, max);
    case RightOf(l, n, up) =>
      CachedAlong(up, Node(l, n, t), value, max);
      CachedInside(up, Node(l, n, t), value, max);
  }

  /** `PathCached` survives a change of `max` or of the value of a node off the path's subtrees. */
  lemma {:induction false} PathCachedFrame<D>(p: Path, value: map<NodeId, Interval<D>>, max: map<NodeId, int>, n: NodeId, m: int, v: Interval<D>, newValue: bool)
    requires PathCached(p, value, max) && n !in PathIds(p)
    ensures newValue ==> PathCached(p, value[n := v], max)
    ensures !newValue ==> PathCached(p, value, max[n := m])
  {
    match p
    case AtRoot =>
    case LeftOf(up, _, r) =>
      PathCachedFrame(up, value, max, n, m, v, newValue);
      if newValue {
        CachedValueFrame(r, value, max, n, v);
      } else {
        CachedFrame(r, value, max, max[n := m]);
      }
    case RightOf(l, _, up) =>
      PathCachedFrame(up, value, max, n, m, v, newValue);
      if newValue {
        CachedValueFrame(l, value, max, n, v);
      } else {
        CachedFrame(l, value, max, max[n := m]);
      }
  }

  /**
    The tree is a search tree on `stop` the way `add` builds it: stops in the
    left subtree of a node are smaller than its own, those in the right
    subtree at least as large.
   */
  ghost predicate Ordered<D>(s: Shape, value: map<NodeId, Interval<D>>) {
    match s
    case Nil => true
    case Node(l, n, r) =>
      && Ids(s) <= value.Keys
      && (forall m :: m in Ids(l) ==> value[m].stop < value[n].stop)
      && (forall m :: m in Ids(r) ==> value[n].stop <= value[m].stop)
      && Ordered(l, value) && Ordered(r, value)
  }

  /** Where the search of `__contains__` for stop `k` ends, as written: it goes left past smaller stops. */
  ghost function ContainsStop<D>(s: Shape, value: map<NodeId, Interval<D>>, k: int): (r: Option<NodeId>)
    requires Ids(s) <= value.Keys
    ensures r.Some? ==> r.value in Ids(s) && value[r.value].stop == k
  {
    match s
    case Nil => None
    case Node(l, n, r) =>
      if value[n].stop < k then ContainsStop(l, value, k)
      else if value[n].stop > k then ContainsStop(r, value, k)
      else Some(n)
  }

  /** The search for stop `k` in a search tree on `stop`: left past larger stops, right past smaller ones. */
  ghost function SearchStop<D>(s: Shape, value: map<NodeId, Interval<D>>, k: int): (r: Option<NodeId>)
    requires Ids(s) <= value.Keys
    ensures r.Some? ==> r.value in Ids(s) && value[r.value].stop == k
  {
    match s
    case Nil => None
    case Node(l, n, r) =>
      if value[n].stop > k then SearchStop(l, value, k)
      else if value[n].stop < k then SearchStop(r, value, k)
      else Some(n)
  }

  /**
    In a search tree on `stop`, the search finds the node holding `k` when no
    other node has that stop.
   */
  lemma {:induction false} SearchStopComplete<D>(s: Shape, value: map<NodeId, Interval<D>>, k: int, n: NodeId)
    requires Ordered(s, value) && n in Ids(s) && value[n].stop == k
    requires forall m :: m in Ids(s) && value[m].stop == k ==> m == n
    ensures SearchStop(s, value, k) == Some(n)
  {
    if s.id != n {
      if n in Ids(s.left) {
        SearchStopComplete(s.left, value, k, n);
      } else {
        SearchStopComplete(s.right, value, k, n);
      }
    }
  }

  /**
    The search of `__contains__` for the interval `x` as it is meant to work:
    by stop as `SearchStop` does, and past a node with the same stop but
    another interval on to the right, where `add` puts equal stops.
   */
  ghost function SearchInterval<D>(s: Shape, value: map<NodeId, Interval<D>>, x: Interval<D>): (r: Option<NodeId>)
    requires Ids(s) <= value.Keys
    ensures r.Some? ==> r.value in Ids(s) && value[r.value] == x
  {
    match s
    case Nil => None
    case Node(l, n, r) =>
      if value[n].stop > x.stop then SearchInterval(l, value, x)
      else if value[n].stop < x.stop then SearchInterval(r, value, x)
      else if value[n] == x then Some(n)
      else SearchInterval(r, value, x)
  }

  /**
    In a search tree on `stop`, the search finds `x` whenever some node holds
    it, however many other nodes share its stop.
   */
  lemma {:induction false} SearchIntervalComplete<D>(s: Shape, value: map<NodeId, Interval<D>>, x: Interval<D>, n: NodeId)
    requires Ordered(s, value) && n in Ids(s) && value[n] == x
    ensures SearchInterval(s, value, x).Some?
  {
    var m := s.id;
    if value[m].stop > x.stop {
      assert n in Ids(s.left);
      SearchIntervalComplete(s.left, value, x, n);
    } else if value[m].stop < x.stop {
      assert n in Ids(s.right);
      SearchIntervalComplete(s.right, value, x, n);
    } else if value[m] != x {
      assert n in Ids(s.right);
      SearchIntervalComplete(s.right, value, x, n);
    }
  }

  /** A node outside the value map can be given a value without disturbing the order of `s`. */
  lemma {:induction false} OrderedFresh<D>(s: Shape, value: map<NodeId, Interval<D>>, n: NodeId, v: Interval<D>)
    requires Ordered(s, value) && n !in value
    ensures Ordered(s, value[n := v])
  {
    if s.Node? {
      OrderedFresh(s.left, value, n, v);
      OrderedFresh(s.right, value, n, v);
    }
  }

  /**
    The descent for stop `k` of the corrected `add` goes down the path `p`:
    left past larger stops, right past the others, equal ones included.
   */
  ghost predicate Leads<D>(p: Path, value: map<NodeId, Interval<D>>, k: int) {
    match p
    case AtRoot => true
    case LeftOf(up, m, _) => m in value && k < value[m].stop && Leads(up, value, k)
    case RightOf(_, m, up) => m in value && value[m].stop <= k && Leads(up, value, k)
  }

  /**
    Where the corrected `add` puts the new node `n` with stop `k`: at the end
    of that descent, as a leaf in the slot it reaches.
   */
  ghost function Placed<D>(s: Shape, value: map<NodeId, Interval<D>>, n: NodeId, k: int): Shape
  {
    match s
    case Nil => Node(Nil, n, Nil)
    case Node(l, m, r) =>
      if m !in value then s
      else if k < value[m].stop then Node(Placed(l, value, n, k), m, r)
      else Node(l, m, Placed(r, value, n, k))
  }

  /** Placing `n` below the end of a path the descent follows places it in the whole tree. */
  lemma {:induction false} PlugPlaced<D>(p: Path, x: Shape, value: map<NodeId, Interval<D>>, n: NodeId, k: int)
    requires Leads(p, value, k)
    ensures Plug(p, Placed(x, value, n, k)) == Placed(Plug(p, x), value, n, k)
  {
    match p
    case AtRoot =>
    case LeftOf(up, m, r) =>
      PlugPlaced(up, Node(x, m, r), value, n, k);
    case RightOf(l, m, up) =>
      PlugPlaced(up, Node(l, m, x), value, n, k);
  }

  /** Placing loses no node: the tree gains exactly `n`. */
  lemma {:induction false} PlacedIds<D>(s: Shape, value: map<NodeId, Interval<D>>, n: NodeId, k: int)
    requires Ids(s) <= value.Keys
    ensures Ids(Placed(s, value, n, k)) == Ids(s) + {n}
  {
    match s
    case Nil =>
    case Node(l, m, r) =>
      if k < value[m].stop {
        PlacedIds(l, value, n, k);
      } else {
        PlacedIds(r, value, n, k);
      }
  }

  /** Placing a fresh node with its interval keeps a search tree on `stop` a search tree. */
  lemma {:induction false} PlacedOrdered<D>(s: Shape, value: map<NodeId, Interval<D>>, n: NodeId, v: Interval<D>)
    requires Ordered(s, value) && n !in value
    ensures Ordered(Placed(s, value, n, v.stop), value[n := v])
  {
    match s
    case Nil =>
      var value' := value[n := v];
      assert Placed(s, value, n, v.stop) == Node(Nil, n, Nil);
      assert Ids(Node(Nil, n, Nil)) == {n} && Ordered(Nil, value');
    case Node(l, m, r) =>
      OrderedFresh(l, value, n, v);
      OrderedFresh(r, value, n, v);
      if v.stop < value[m].stop {
        PlacedOrdered(l, value, n, v);
        PlacedIds(l, value, n, v.stop);
      } else {
        PlacedOrdered(r, value, n, v);
        PlacedIds(r, value, n, v.stop);
      }
  }

  /**
    The search as written misses an interval of a search tree built by `add`:
    [0, 2] goes to the right of [0, 1], and the search for stop 2 turns left
    at [0, 1].
   */
  lemma ContainsStopMisses()
    ensures var value: map<NodeId, Interval<int>> := map[1 := Interval(0, 1, None), 2 := Interval(0, 2, None)];
      var s := Node(Nil, 1, Node(Nil, 2, Nil));
      && Ordered(s, value) && 2 in Ids(s) && value[2].stop == 2
      && ContainsStop(s, value, 2).None? && SearchStop(s, value, 2) == Some(2)
  {
    var value: map<NodeId, Interval<int>> := map[1 := Interval(0, 1, None), 2 := Interval(0, 2, None)];
    var s := Node(Nil, 1, Node(Nil, 2, Nil));
    assert Ids(s.right) == {2};
    assert Ordered(s, value);
  }

  /**
    Where the pruned descent of `overlapping` for `q` stops: the first node
    overlapping `q`, going left when the left child's cached `max` reaches
    `q.start` and right otherwise; none when it runs off the tree.
   */
  ghost function Descend<D>(s: Shape, value: map<NodeId, Interval<D>>, max: map<NodeId, int>, q: Interval<D>): (r: Option<NodeId>)
    requires Ids(s) <= value.Keys && Ids(s) <= max.Keys
    ensures r.Some? ==> r.value in Ids(s) && Overlaps(value[r.value], q)
  {
    match s
    case Nil => None
    case Node(l, n, r) =>
      if Overlaps(value[n], q) then Some(n)
      else if l.Node? && (assert l.id in Ids(l); max[l.id] >= q.start) then Descend(l, value, max, q)
      else Descend(r, value, max, q)
  }

  /**
    The descent is not complete for a tree keyed by `stop`, even with right
    caches and in order: for [5, 6] it turns left at [7, 8] towards [7, 7],
    and misses [5, 9] on the right.
   */
  lemma DescendMisses()
    ensures var value: map<NodeId, Interval<int>> := map[1 := Interval(7, 8, None), 2 := Interval(7, 7, None), 3 := Interval(5, 9, None)];
      var max := map[1 := 9, 2 := 7, 3 := 9];
      var s := Node(Node(Nil, 2, Nil), 1, Node(Nil, 3, Nil));
      var q := Interval(5, 6, None);
      && Ordered(s, value) && Cached(s, value, max)
      && 3 in Ids(s) && Overlaps(value[3], q) && Descend(s, value, max, q).None?
  {
    var value: map<NodeId, Interval<int>> := map[1 := Interval(7, 8, None), 2 := Interval(7, 7, None), 3 := Interval(5, 9, None)];
    var s := Node(Node(Nil, 2, Nil), 1, Node(Nil, 3, Nil));
    assert Ids(s.left) == {2} && Ids(s.right) == {3};
    assert Ordered(s, value);
  }

  /** The part of `o` from `x` on; empty when `x` is absent. */
  ghost function From(o: seq<NodeId>, x: NodeId): seq<NodeId> {
    if o == [] then [] else if o[0] == x then o else From(o[1..], x)
  }

  /** Moving to the successor of `x` drops `x` from the front of `From(o, x)`. */
  lemma {:induction false} FromStep(o: seq<NodeId>, x: NodeId)
    requires NoDup(o) && x in o
    ensures From(o, x) != [] && From(o, x)[0] == x
    ensures Successor(o, x).None? <==> From(o, x)[1..] == []
    ensures Successor(o, x).Some? ==> From(o, Successor(o, x).value) == From(o, x)[1..]
  {
    var o' := o[1..];
    if o[0] == x {
      if |o| >= 2 {
        assert o[0] != o[1];
        assert From(o', o[1]) == o';
      }
    } else {
      assert NoDup(o') by {
        forall i, j | 0 <= i < j < |o'| ensures o'[i] != o'[j] {
          assert o'[i] == o[i + 1] && o'[j] == o[j + 1];
        }
      }
      var k :| 0 <= k < |o| && o[k] == x;
      assert o'[k - 1] == x;
      FromStep(o', x);
      if Successor(o, x).Some? {
        var y := Successor(o, x).value;
        SuccessorIn(o', x);
        var j :| 0 <= j < |o'| && o'[j] == y;
        assert o[j + 1] == y;
      }
    }
  }

  /** A successor is an element of the sequence. */
  lemma {:induction false} SuccessorIn(o: seq<NodeId>, x: NodeId)
    ensures Successor(o, x).Some? ==> Successor(o, x).value in o
  {
    if |o| >= 2 && o[0] != x {
      SuccessorIn(o[1..], x);
    }
  }

  /** `From(o, x)` is a suffix of `o`. */
  lemma {:induction false} FromSuffix(o: seq<NodeId>, x: NodeId)
    ensures |From(o, x)| <= |o| && From(o, x) == o[|o| - |From(o, x)|..]
    ensures x in o ==> From(o, x) != []
  {
    if o != [] && o[0] != x {
      FromSuffix(o[1..], x);
      assert o[1..][|o[1..]| - |From(o[1..], x)|..] == o[|o| - |From(o, x)|..];
      if x in o {
        var i :| 0 <= i < |o| && o[i] == x;
        assert o[1..][i - 1] == x;
      }
    }
  }

  /** Every node of `From(o, x)` is one of `o`. */
  lemma FromIn(o: seq<NodeId>, x: NodeId)
    ensures forall i :: 0 <= i < |From(o, x)| ==> From(o, x)[i] in o
  {
    FromSuffix(o, x);
    forall i | 0 <= i < |From(o, x)| ensures From(o, x)[i] in o {
      assert o[|o| - |From(o, x)| + i] == From(o, x)[i];
    }
  }

  /** The successor in `o` of the element at `i` is the element at `i + 1`. */
  lemma SuccessorIndex(o: seq<NodeId>, i: nat)
    requires NoDup(o) && i < |o|
    ensures Successor(o, o[i]) == if i + 1 < |o| then Some(o[i + 1]) else None
  {
    assert o == o[..i] + [o[i]] + o[i + 1..];
    NoDupSplit(o[..i], o[i], o[i + 1..]);
    SuccessorAt(o[..i], o[i], o[i + 1..]);
  }

  /**
    What the second loop of `overlapping` yields from the nodes `s`: each
    interval in turn, stopping right after the first one that does not
    overlap `q`.
   */
  ghost function Run<D>(s: seq<NodeId>, value: map<NodeId, Interval<D>>, q: Interval<D>): seq<Interval<D>>
    requires forall i :: 0 <= i < |s| ==> s[i] in value
  {
    if s == [] then []
    else [value[s[0]]] + (if Overlaps(value[s[0]], q) then Run(s[1..], value, q) else [])
  }

  /**
    The run is the intervals of a prefix of `s` in order; every one but the
    last overlaps `q`, and the run ends early exactly at a non-overlapping
    interval.
   */
  lemma {:induction false} RunIsPrefix<D>(s: seq<NodeId>, value: map<NodeId, Interval<D>>, q: Interval<D>)
    requires forall i :: 0 <= i < |s| ==> s[i] in value
    ensures var r := Run(s, value, q);
      && |r| <= |s| && (s != [] ==> r != [])
      && (forall i :: 0 <= i < |r| ==> r[i] == value[s[i]])
      && (forall i :: 0 <= i < |r| - 1 ==> Overlaps(r[i], q))
      && (|r| < |s| ==> !Overlaps(r[|r| - 1], q))
  {
    if s != [] && Overlaps(value[s[0]], q) {
      RunIsPrefix(s[1..], value, q);
    }
  }

  /** One step of the run: the first node's interval, then the rest of the run if it overlapped. */
  lemma RunStep<D>(r: seq<Interval<D>>, s: seq<NodeId>, value: map<NodeId, Interval<D>>, q: Interval<D>)
    requires s != [] && forall i :: 0 <= i < |s| ==> s[i] in value
    ensures forall i :: 0 <= i < |s[1..]| ==> s[1..][i] in value
    ensures r + Run(s, value, q)
      == (r + [value[s[0]]]) + (if Overlaps(value[s[0]], q) then Run(s[1..], value, q) else [])
  {
  }

  /**
    What `overlapping` yields: nothing when the pruned descent runs off the
    tree, otherwise the run along the in-order successors from where it
    stopped.
   */
  ghost function Overlapped<D>(s: Shape, value: map<NodeId, Interval<D>>, max: map<NodeId, int>, q: Interval<D>): seq<Interval<D>>
    requires Ids(s) <= value.Keys && Ids(s) <= max.Keys
  {
    match Descend(s, value, max, q)
    case None => []
    case Some(x) =>
      FromInTree(s, value, x);
      Run(From(InOrder(s), x), value, q)
  }

  /** The nodes from `x` on in the in-order walk of `s` all have values. */
  lemma FromInTree<D>(s: Shape, value: map<NodeId, Interval<D>>, x: NodeId)
    requires Ids(s) <= value.Keys
    ensures forall i :: 0 <= i < |From(InOrder(s), x)| ==> From(InOrder(s), x)[i] in value
  {
    InOrderIds(s);
    FromIn(InOrder(s), x);
    forall i | 0 <= i < |From(InOrder(s), x)| ensures From(InOrder(s), x)[i] in value {
      var k := From(InOrder(s), x)[i];
      assert k in InOrder(s);
      assert k in Ids(s);
    }
  }

  /**
    `overlapping` yields nothing exactly when the descent finds no
    overlapping node. Otherwise it yields, in order, the intervals of the
    first nodes of the in-order walk from the node the descent found: the
    first one overlaps `q`, every one but the last overlaps `q`, and it
    ends before the walk does only at an interval that does not overlap `q`.
   */
  lemma OverlappedRun<D>(s: Shape, value: map<NodeId, Interval<D>>, max: map<NodeId, int>, q: Interval<D>)
    requires Ids(s) <= value.Keys && Ids(s) <= max.Keys
    ensures var r := Overlapped(s, value, max, q);
      var d := Descend(s, value, max, q);
      && (r == [] <==> d.None?)
      && (d.Some? ==>
            var o := InOrder(s);
            var j := |o| - |From(o, d.value)|;
            0 <= j < |o| && o[j] == d.value && RunAt(o, j, r, value, q))
  {
    InOrderIds(s);
    match Descend(s, value, max, q)
    case None =>
    case Some(x) =>
      FromInTree(s, value, x);
      assert Overlapped(s, value, max, q) == Run(From(InOrder(s), x), value, q);
      RunAlong(InOrder(s), value, q, x);
  }

  /**
    `r` is what the run yields from position `j` of `o`: the intervals of
    the nodes from there on, in order; the first and all but the last
    overlap `q`, and it ends before `o` does only at one that does not.
   */
  ghost predicate RunAt<D>(o: seq<NodeId>, j: int, r: seq<Interval<D>>, value: map<NodeId, Interval<D>>, q: Interval<D>) {
    && r != [] && 0 <= j && j + |r| <= |o|
    && (forall i :: 0 <= i < |r| ==> o[j + i] in value && r[i] == value[o[j + i]])
    && Overlaps(r[0], q)
    && (forall i :: 0 <= i < |r| - 1 ==> Overlaps(r[i], q))
    && (j + |r| < |o| ==> !Overlaps(r[|r| - 1], q))
  }

  /** The run from `x` on starts at the position of `x` in `o`, when `x`'s interval overlaps `q`. */
  lemma RunAlong<D>(o: seq<NodeId>, value: map<NodeId, Interval<D>>, q: Interval<D>, x: NodeId)
    requires x in o && x in value && Overlaps(value[x], q)
    requires forall i :: 0 <= i < |From(o, x)| ==> From(o, x)[i] in value
    ensures var j := |o| - |From(o, x)|;
      0 <= j < |o| && o[j] == x && RunAt(o, j, Run(From(o, x), value, q), value, q)
  {
    FromSuffix(o, x);
    FromHead(o, x);
    var f := From(o, x);
    RunOfSuffix(o, |o| - |f|, f, value, q);
  }

  /** The run over the nodes of `o` from position `j` on, when the first of them overlaps `q`. */
  lemma RunOfSuffix<D>(o: seq<NodeId>, j: nat, f: seq<NodeId>, value: map<NodeId, Interval<D>>, q: Interval<D>)
    requires j < |o| && f == o[j..] && o[j] in value && Overlaps(value[o[j]], q)
    requires forall i :: 0 <= i < |f| ==> f[i] in value
    ensures RunAt(o, j, Run(f, value, q), value, q)
  {
    RunIsPrefix(f, value, q);
    var r := Run(f, value, q);
    assert r[0] == value[f[0]];
    forall i | 0 <= i < |r| ensures o[j + i] in value && r[i] == value[o[j + i]] {
      assert f[i] == o[j + i];
    }
  }

  /** `From(o, x)` starts with `x` when `x` is in `o`. */
  lemma {:induction false} FromHead(o: seq<NodeId>, x: NodeId)
    requires x in o
    ensures From(o, x) != [] && From(o, x)[0] == x
  {
    if o[0] != x {
      var i :| 0 <= i < |o| && o[i] == x;
      assert o[1..][i - 1] == x;
      FromHead(o[1..], x);
    }
  }

  /**
    The run yields the interval that ends it even though that interval does
    not overlap the query: on [0, 1] followed by [2, 3], the query [1, 1]
    gets both, while only [0, 1] overlaps it.
   */
  lemma OverlappedYieldsNonOverlapping()
    ensures var value: map<NodeId, Interval<int>> := map[1 := Interval(0, 1, None), 2 := Interval(2, 3, None)];
      var max := map[1 := 3, 2 := 3];
      var s := Node(Nil, 1, Node(Nil, 2, Nil));
      var q := Interval(1, 1, None);
      && Ordered(s, value) && Cached(s, value, max)
      && Overlapped(s, value, max, q) == [value[1], value[2]] && !Overlaps(value[2], q)
  {
    var value: map<NodeId, Interval<int>> := map[1 := Interval(0, 1, None), 2 := Interval(2, 3, None)];
    var max := map[1 := 3, 2 := 3];
    var s := Node(Nil, 1, Node(Nil, 2, Nil));
    var q := Interval(1, 1, None);
    assert Ordered(s, value) by {
      assert Ids(s.right) == {2};
    }
    assert Descend(s, value, max, q) == Some(1);
    assert From(InOrder(s), 1) == [1, 2] by {
      assert InOrder(s.right) == [2];
    }
    assert Run([1, 2], value, q) == [value[1], value[2]] by {
      assert [1, 2][1..] == [2];
      assert Run([2], value, q) == [value[2]];
    }
  }

  /** The intervals of the nodes `o` that overlap `q`, in order. */
  ghost function OverlapsIn<D>(o: seq<NodeId>, value: map<NodeId, Interval<D>>, q: Interval<D>): seq<Interval<D>>
    requires forall i :: 0 <= i < |o| ==> o[i] in value
  {
    if o == [] then []
    else
      var last := value[o[|o| - 1]];
      OverlapsIn(o[..|o| - 1], value, q) + (if Overlaps(last, q) then [last] else [])
  }

  /** `OverlapsIn` of one more node adds that node's interval when it overlaps `q`. */
  lemma OverlapsInSnoc<D>(o: seq<NodeId>, i: nat, value: map<NodeId, Interval<D>>, q: Interval<D>)
    requires i < |o| && forall j :: 0 <= j < |o| ==> o[j] in value
    ensures OverlapsIn(o[..i + 1], value, q)
      == OverlapsIn(o[..i], value, q) + (if Overlaps(value[o[i]], q) then [value[o[i]]] else [])
  {
    assert o[..i + 1][..i] == o[..i];
  }

  /** An interval is in `OverlapsIn` exactly when it overlaps `q` and belongs to one of the nodes. */
  lemma {:induction false} OverlapsInExactly<D>(o: seq<NodeId>, value: map<NodeId, Interval<D>>, q: Interval<D>, iv: Interval<D>)
    requires forall i :: 0 <= i < |o| ==> o[i] in value
    ensures iv in OverlapsIn(o, value, q) <==> Overlaps(iv, q) && exists i :: 0 <= i < |o| && value[o[i]] == iv
  {
    if o != [] {
      var o' := o[..|o| - 1];
      OverlapsInExactly(o', value, q, iv);
      if Overlaps(iv, q) && exists i :: 0 <= i < |o| && value[o[i]] == iv {
        var i :| 0 <= i < |o| && value[o[i]] == iv;
        if i < |o| - 1 {
          assert o'[i] == o[i];
        }
      }
      if iv in OverlapsIn(o', value, q) {
        var i :| 0 <= i < |o'| && value[o'[i]] == iv;
        assert o[i] == o'[i];
      }
    }
  }
}
