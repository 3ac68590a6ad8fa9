/**
  `scl.tree` and `scl.binarytree`: a binary tree of node objects linked by
  `left`, `right` and `parent` fields, with a root and a key function.

  Node objects are handles (`NodeId`); the fields of all nodes live in maps
  of the tree, so that a method changing a node's field reassigns one entry
  of one map. The ghost `shape` is the tree the links spell out. Nodes that
  were created but are not (or no longer) in the tree keep their entries.
 */
module BinaryTrees {
  import opened Util
  import opened Shapes

  /** The path `p` sends key `k` down to its end: left past larger keys, right past smaller ones. */
  ghost predicate Fits<V>(p: Path, value: map<NodeId, V>, key: V -> int, k: int) {
    match p
    case AtRoot => true
    case LeftOf(up, n, _) => n in value && k < key(value[n]) && Fits(up, value, key, k)
    case RightOf(_, n, up) => n in value && k > key(value[n]) && Fits(up, value, key, k)
  }

  /**
    The descent of `get_add_hint` for key `k` may pass `n` on its way down
    `s`: `n` is the top of `s`, or `k` is smaller than the top's key and `n`
    is to the left, or larger and `n` is to the right.
   */
  ghost predicate OnSearchPath<V>(s: Shape, value: map<NodeId, V>, key: V -> int, k: int, n: NodeId) {
    && s.Node? && s.id in value
    && (|| s.id == n
        || (k < key(value[s.id]) && OnSearchPath(s.left, value, key, k, n))
        || (k > key(value[s.id]) && OnSearchPath(s.right, value, key, k, n)))
  }

  lemma {:induction false} FitsOnSearchPath<V>(p: Path, t: Shape, value: map<NodeId, V>, key: V -> int, k: int, n: NodeId)
    requires Fits(p, value, key, k) && OnSearchPath(t, value, key, k, n)
    ensures OnSearchPath(Plug(p, t), value, key, k, n)
  {
    match p
    case AtRoot =>
    case LeftOf(up, m, r) =>
      FitsOnSearchPath(up, Node(t, m, r), value, key, k, n);
    case RightOf(l, m, up) =>
      FitsOnSearchPath(up, Node(l, m, t), value, key, k, n);
  }

  /** Links of a tree survive giving a node outside it empty fields. */
  lemma Detached(s: Shape, left: LinkMap, right: LinkMap, parent: LinkMap, n: NodeId)
    requires n !in Ids(s) && Links(s, left, right)
    ensures Links(s, left[n := None], right[n := None])
    ensures Parents(s, parent, None) ==> Parents(s, parent[n := None], None)
  {
    LinksFrame(s, left, right, left[n := None], right[n := None]);
    if Parents(s, parent, None) {
      ParentsFrame(s, parent, parent[n := None], None);
    }
  }

  /** The handles on the stack of `__iter__` head the subtrees in `pending`, all within `ids`. */
  ghost predicate Stacked(stack: seq<NodeId>, pending: seq<Shape>, left: LinkMap, right: LinkMap, ids: set<NodeId>) {
    && |stack| == |pending|
    && forall i :: 0 <= i < |stack| ==>
         pending[i].Node? && pending[i].id == stack[i] && Links(pending[i], left, right) && Ids(pending[i]) <= ids
  }

  lemma Pop(stack: seq<NodeId>, pending: seq<Shape>, left: LinkMap, right: LinkMap, ids: set<NodeId>)
    requires Stacked(stack, pending, left, right, ids) && stack != []
    ensures Stacked(stack[..|stack| - 1], pending[..|pending| - 1], left, right, ids)
    ensures var t := pending[|pending| - 1];
      && t.Node? && t.id == stack[|stack| - 1] && Links(t, left, right) && Ids(t) <= ids
      && Links(t.left, left, right) && Ids(t.left) <= ids && Links(t.right, left, right) && Ids(t.right) <= ids
    ensures Pending(pending) == StackOrder(pending[|pending| - 1]) + Pending(pending[..|pending| - 1])
  {
  }

  lemma Push(stack: seq<NodeId>, pending: seq<Shape>, t: Shape, left: LinkMap, right: LinkMap, ids: set<NodeId>)
    requires Stacked(stack, pending, left, right, ids)
    requires t.Node? && Links(t, left, right) && Ids(t) <= ids
    ensures Stacked(stack + [t.id], pending + [t], left, right, ids)
    ensures Pending(pending + [t]) == StackOrder(t) + Pending(pending)
  {
    var stack', pending' := stack + [t.id], pending + [t];
    forall i | 0 <= i < |stack'|
      ensures pending'[i].Node? && pending'[i].id == stack'[i] && Links(pending'[i], left, right) && Ids(pending'[i]) <= ids
    {
      if i < |stack| {
        assert pending'[i] == pending[i] && stack'[i] == stack[i];
      }
    }
    assert pending'[..|pending|] == pending;
  }

  /** The subtrees `__iter__` pushes for the top `t`: its left child, then its right child. */
  ghost function Children(t: Shape): seq<Shape>
    requires t.Node?
  {
    (if t.left.Node? then [t.left] else []) + (if t.right.Node? then [t.right] else [])
  }

  /** The handles of those subtrees, in the same order. */
  ghost function ChildIds(t: Shape): seq<NodeId>
    requires t.Node?
  {
    (if t.left.Node? then [t.left.id] else []) + (if t.right.Node? then [t.right.id] else [])
  }

  /** The handles among the links `l` and `r`, left before right. */
  function Kids(l: Option<NodeId>, r: Option<NodeId>): seq<NodeId> {
    (if l.Some? then [l.value] else []) + (if r.Some? then [r.value] else [])
  }

  /** Appending two pieces one after the other appends their concatenation. */
  lemma Appended<T>(a: seq<T>, b: seq<T>, c: seq<T>)
    ensures a + (b + c) == a + b + c
  {
  }

  /**
    One turn of the loop of `__iter__`: the top subtree is popped, its
    handle is the next visited, and its children take its place.
   */
  lemma Advance(stack: seq<NodeId>, pending: seq<Shape>, left: LinkMap, right: LinkMap, ids: set<NodeId>)
    requires Stacked(stack, pending, left, right, ids) && stack != []
    ensures var n := |stack| - 1; var t := pending[n];
      && t.Node? && t.id == stack[n] && t.id in left && t.id in right
      && ChildIds(t) == Kids(left[t.id], right[t.id])
      && Stacked(stack[..n] + ChildIds(t), pending[..n] + Children(t), left, right, ids)
      && Pending(pending) == [t.id] + Pending(pending[..n] + Children(t))
  {
    var n := |stack| - 1;
    var t := pending[n];
    Pop(stack, pending, left, right, ids);
    var s0, p0 := stack[..n], pending[..n];
    var rest := Pending(p0);
    StackOrderStep(t, rest);
    var ls, li := (if t.left.Node? then [t.left] else []), (if t.left.Node? then [t.left.id] else []);
    var rs, ri := (if t.right.Node? then [t.right] else []), (if t.right.Node? then [t.right.id] else []);
    Appended(p0, ls, rs);
    Appended(s0, li, ri);
    if t.left.Node? {
      Push(s0, p0, t.left, left, right, ids);
    } else {
      assert p0 + ls == p0 && s0 + li == s0;
    }
    assert Pending(p0 + ls) == StackOrder(t.left) + rest;
    if t.right.Node? {
      Push(s0 + li, p0 + ls, t.right, left, right, ids);
    } else {
      assert p0 + ls + rs == p0 + ls && s0 + li + ri == s0 + li;
    }
    assert Pending(p0 + ls + rs) == StackOrder(t.right) + Pending(p0 + ls);
  }

  /** `root`, `left` and `right` spell out the tree `s`, in which no node occurs twice. */
  ghost predicate Spells(s: Shape, root: Option<NodeId>, left: LinkMap, right: LinkMap) {
    root == RootId(s) && Links(s, left, right) && Distinct(s)
  }

  /** Replacing the subtree `t` by a rearrangement `t'` of it keeps the nodes, their order and the root's place. */
  lemma Rotated(p: Path, t: Shape, t': Shape)
    requires t.Node? && t'.Node? && Ids(t') == Ids(t) && InOrder(t') == InOrder(t)
    ensures Ids(Plug(p, t')) == Ids(Plug(p, t)) == PathIds(p) + Ids(t)
    ensures InOrder(Plug(p, t')) == InOrder(Plug(p, t))
    ensures !p.AtRoot? ==> RootId(Plug(p, t')) == RootId(Plug(p, t))
    ensures p.AtRoot? ==> RootId(Plug(p, t')) == Some(t'.id)
  {
    PlugIds(p, t);
    PlugIds(p, t');
    PlugInOrder(p, t);
    PlugInOrder(p, t');
    if !p.AtRoot? {
      PlugRoot(p, t, t');
    }
  }

  /** The fields a rotation reads and writes. */
  datatype Fields = Fields(root: Option<NodeId>, left: LinkMap, right: LinkMap, parent: LinkMap)

  /** The subtree `t` with the leaf `n` as its left (`onLeft`) or right child, in place of the child there. */
  function Hung(t: Shape, n: NodeId, onLeft: bool): Shape
    requires t.Node?
  {
    if onLeft then Node(Node(Nil, n, Nil), t.id, t.right) else Node(t.left, t.id, Node(Nil, n, Nil))
  }

  /** The child of `t` that hanging a leaf on the given side puts out of the tree. */
  function Dropped(t: Shape, onLeft: bool): Shape
    requires t.Node?
  {
    if onLeft then t.left else t.right
  }

  /**
    What `add` without a hint makes of `s`: a leaf `n` where the descent of
    `get_add_hint` for the key `k` stops, on the left when `k` is smaller
    than that node's key and on the right otherwise, in place of whatever
    subtree was there.
   */
  ghost function Inserted<V>(s: Shape, value: map<NodeId, V>, key: V -> int, n: NodeId, k: int): Shape
  {
    match s
    case Nil => Node(Nil, n, Nil)
    case Node(l, m, r) =>
      if m !in value then s
      else if k < key(value[m]) then Node(Inserted(l, value, key, n, k), m, r)
      else if k > key(value[m]) then Node(l, m, Inserted(r, value, key, n, k))
      else Node(l, m, Node(Nil, n, Nil))
  }

  /** Inserting below the end of a path the descent for `k` follows inserts into the whole tree. */
  lemma {:induction false} PlugInserted<V>(p: Path, x: Shape, value: map<NodeId, V>, key: V -> int, n: NodeId, k: int)
    requires Fits(p, value, key, k)
    ensures Plug(p, Inserted(x, value, key, n, k)) == Inserted(Plug(p, x), value, key, n, k)
  {
    match p
    case AtRoot =>
    case LeftOf(up, m, r) =>
      PlugInserted(up, Node(x, m, r), value, key, n, k);
    case RightOf(l, m, up) =>
      PlugInserted(up, Node(l, m, x), value, key, n, k);
  }

  /**
    Hanging `n` under the node where the descent for `k` stops, on the side
    of `k`, is `Inserted`: the descent's path fits `k`, and the slot on the
    side of `k` is empty unless the keys are equal.
   */
  lemma HungIsInserted<V>(p: Path, t: Shape, value: map<NodeId, V>, key: V -> int, n: NodeId, k: int)
    requires Fits(p, value, key, k) && t.Node? && t.id in value
    requires k < key(value[t.id]) ==> t.left == Nil
    requires k > key(value[t.id]) ==> t.right == Nil
    ensures Plug(p, Hung(t, n, k < key(value[t.id]))) == Inserted(Plug(p, t), value, key, n, k)
  {
    assert Inserted(t, value, key, n, k) == Hung(t, n, k < key(value[t.id]));
    PlugInserted(p, t, value, key, n, k);
  }

  /** When no node of `s` has the key `k`, `Inserted` loses nothing: it gains exactly `n`. */
  lemma {:induction false} InsertedKeeps<V>(s: Shape, value: map<NodeId, V>, key: V -> int, n: NodeId, k: int)
    requires forall m :: m in Ids(s) ==> m in value && key(value[m]) != k
    ensures Ids(Inserted(s, value, key, n, k)) == Ids(s) + {n}
  {
    match s
    case Nil =>
    case Node(l, m, r) =>
      if k < key(value[m]) {
        InsertedKeeps(l, value, key, n, k);
      } else {
        InsertedKeeps(r, value, key, n, k);
      }
  }

  /** Hanging a detached node under the top of `t` gains `n` and loses the subtree that was on that side. */
  lemma HangIds(p: Path, t: Shape, n: NodeId, onLeft: bool)
    requires t.Node? && Distinct(Plug(p, t)) && n !in Ids(Plug(p, t))
    ensures Ids(Plug(p, Hung(t, n, onLeft))) + Ids(Dropped(t, onLeft)) == Ids(Plug(p, t)) + {n}
    ensures Ids(Dropped(t, onLeft)) !! Ids(Plug(p, Hung(t, n, onLeft)))
  {
    PlugIds(p, t);
    PlugIds(p, Hung(t, n, onLeft));
    PlugDistinct(p, t);
    assert Ids(Node(Nil, n, Nil)) == {n};
    if onLeft {
      assert Ids(Hung(t, n, onLeft)) == {n} + {t.id} + Ids(t.right);
    } else {
      assert Ids(Hung(t, n, onLeft)) == Ids(t.left) + {t.id} + {n};
    }
  }

  /** The subtree with the leaf hung under its top is linked and distinct in the new maps. */
  lemma HangLocal(t: Shape, n: NodeId, onLeft: bool, left: LinkMap, right: LinkMap, left': LinkMap, right': LinkMap)
    requires t.Node? && Links(t, left, right) && Distinct(t) && n !in Ids(t)
    requires n in left' && n in right' && left'[n] == None && right'[n] == None
    requires left' == (if onLeft then left[t.id := Some(n)] else left)
    requires right' == (if onLeft then right else right[t.id := Some(n)])
    ensures Links(Hung(t, n, onLeft), left', right') && Distinct(Hung(t, n, onLeft))
    ensures Ids(Hung(t, n, onLeft)) <= Ids(t) + {n}
  {
    var kept := if onLeft then t.right else t.left;
    assert Links(kept, left, right) && Distinct(kept) && t.id !in Ids(kept) && n !in Ids(kept);
    LinksFrame(kept, left, right, left', right');
  }

  /** Hanging a detached node under the top of `t` keeps the child links, the root and the distinctness of the tree. */
  lemma HangLinks(p: Path, t: Shape, n: NodeId, onLeft: bool, f: Fields)
    requires t.Node? && Spells(Plug(p, t), f.root, f.left, f.right)
    requires n !in Ids(Plug(p, t)) && n in f.left && n in f.right && f.left[n] == None && f.right[n] == None
    ensures var left' := if onLeft then f.left[t.id := Some(n)] else f.left;
      var right' := if onLeft then f.right else f.right[t.id := Some(n)];
      Spells(Plug(p, Hung(t, n, onLeft)), f.root, left', right')
  {
    var q := t.id;
    var t' := Hung(t, n, onLeft);
    var left' := if onLeft then f.left[q := Some(n)] else f.left;
    var right' := if onLeft then f.right else f.right[q := Some(n)];
    LinkContext(p, t, f.root, f.left, f.right);
    PlugIds(p, t);
    assert n !in Ids(t) && n !in PathIds(p);
    HangLocal(t, n, onLeft, f.left, f.right, left', right');
    PathLinksFrame(p, Some(q), f.left, f.right, left', right');
    PlugLinks(p, t', left', right');
    PlugDistinct(p, t');
    if !p.AtRoot? {
      PlugRoot(p, t, t');
    }
  }

  /** Hanging a detached node under the top of `t` and naming its parent keeps the parent links. */
  lemma HangParents(p: Path, t: Shape, n: NodeId, onLeft: bool, parent: LinkMap)
    requires t.Node? && Distinct(Plug(p, t)) && Parents(Plug(p, t), parent, None) && n !in Ids(Plug(p, t))
    ensures Parents(Plug(p, Hung(t, n, onLeft)), parent[n := Some(t.id)], None)
  {
    var parent' := parent[n := Some(t.id)];
    PlugParents(p, t, parent);
    PlugIds(p, t);
    PlugDistinct(p, t);
    var kept := if onLeft then t.right else t.left;
    assert Parents(t, parent, ParentId(p)) && Ids(kept) <= Ids(t) && n !in Ids(t) && n !in PathIds(p);
    assert Parents(kept, parent, Some(t.id));
    ParentsFrame(kept, parent, parent', Some(t.id));
    assert Parents(Node(Nil, n, Nil), parent', Some(t.id));
    PathParentsFrame(p, parent, parent');
    PlugParents(p, Hung(t, n, onLeft), parent');
  }

  /**
    What a rotation at the top `n` of the subtree `t`, reached along `p`,
    finds in the fields of a linked tree: whether `n` is the root, its parent,
    and on which side of the parent it hangs.
   */
  lemma Surroundings(p: Path, t: Shape, f: Fields)
    requires t.Node? && Spells(Plug(p, t), f.root, f.left, f.right) && Parents(Plug(p, t), f.parent, None)
    ensures Links(t, f.left, f.right) && Distinct(t) && Ids(t) <= Ids(Plug(p, t))
    ensures t.id in f.parent && f.parent[t.id] == ParentId(p) && (f.root == Some(t.id) <==> p.AtRoot?)
    ensures !p.AtRoot? ==> p.id in f.left && p.id in f.right && p.id !in Ids(t)
    ensures !p.AtRoot? ==> (f.left[p.id] == Some(t.id) <==> p.LeftOf?)
  {
    Context(p, t, f.root, f.left, f.right, f.parent);
    PlugIds(p, t);
  }

  /**
    The `if node == self._root ... else` step of every rotation: `m` takes
    the place of `n`, as the root or in the child slot of the parent of `n`
    that held it.
   */
  function Reattach(f: Fields, n: NodeId, m: NodeId, ghost p: Path): (r: Fields)
    requires n in f.parent && (f.root == Some(n) <==> p.AtRoot?) && f.parent[n] == ParentId(p)
    requires !p.AtRoot? ==> p.id in f.left && p.id in f.right && (f.left[p.id] == Some(n) <==> p.LeftOf?)
    ensures r == Fields(if p.AtRoot? then Some(m) else f.root, AttachLeft(p, f.left, m), AttachRight(p, f.right, m), f.parent)
  {
    if f.root == Some(n) then f.(root := Some(m))
    else
      var q := NonNull(f.parent[n]);
      if f.left[q] == Some(n) then f.(left := f.left[q := Some(m)]) else f.(right := f.right[q := Some(m)])
  }

  /** What `rotate_left` writes, from the fields `f` it finds at the top `n` of `t`, reached along `p`. */
  ghost predicate RotatedLeftFields(p: Path, t: Shape, f: Fields, f': Fields)
    requires t.Node? && t.right.Node?
  {
    var n, m := t.id, t.right.id;
    && f'.root == (if p.AtRoot? then Some(m) else f.root)
    && f'.left == AttachLeft(p, f.left, m)[m := Some(n)]
    && f'.right == AttachRight(p, f.right, m)[n := RootId(t.right.left)]
    && f'.parent == Reparent(f.parent[m := ParentId(p)], RootId(t.right.left), n)
  }

  /**
    The fields `rotate_left` writes, in its order: the right child `m` of `n`
    takes its place, inherits its parent, and gets `n` as its left child; `n`
    takes over the old left subtree of `m`. `n.parent` is not written.
   */
  function RotateLeftFields(f: Fields, n: NodeId, ghost p: Path, ghost t: Shape): (r: Fields)
    requires t.Node? && t.id == n && t.right.Node? && Links(t, f.left, f.right) && Distinct(t)
    requires n in f.parent && (f.root == Some(n) <==> p.AtRoot?) && f.parent[n] == ParentId(p)
    requires !p.AtRoot? ==> p.id in f.left && p.id in f.right && p.id !in Ids(t)
    requires !p.AtRoot? ==> (f.left[p.id] == Some(n) <==> p.LeftOf?)
    ensures RotatedLeftFields(p, t, f, r)
  {
    var m := NonNull(f.right[n]);
    assert Links(t.right, f.left, f.right) && m in Ids(t);
    var f := Reattach(f, n, m, p);
    var f := f.(parent := f.parent[m := f.parent[n]]);
    var f := f.(right := f.right[n := f.left[m]]);
    var f := if f.left[m].Some? then f.(parent := f.parent[f.left[m].value := Some(n)]) else f;
    f.(left := f.left[m := Some(n)])
  }

  /** The child links `rotate_left` leaves spell out the rotated tree, with the same nodes in the same order. */
  lemma RotateLeftSpells(p: Path, t: Shape, f: Fields, f': Fields)
    requires t.Node? && t.right.Node? && Spells(Plug(p, t), f.root, f.left, f.right)
    requires RotatedLeftFields(p, t, f, f')
    ensures Spells(Plug(p, RotatedLeft(t)), f'.root, f'.left, f'.right)
    ensures Ids(Plug(p, RotatedLeft(t))) == Ids(Plug(p, t)) && InOrder(Plug(p, RotatedLeft(t))) == InOrder(Plug(p, t))
  {
    RotateLeftLinks(p, t, f.left, f.right);
    Rotated(p, t, RotatedLeft(t));
  }

  /** `rotate_left` writes only slots of nodes of the tree: no field gains or loses an entry. */
  lemma RotateLeftKeys(p: Path, t: Shape, f: Fields, f': Fields)
    requires t.Node? && t.right.Node? && Ids(t) <= f.left.Keys && (!p.AtRoot? ==> p.id in f.left.Keys)
    requires f.left.Keys == f.right.Keys && f.left.Keys == f.parent.Keys
    requires RotatedLeftFields(p, t, f, f')
    ensures f'.left.Keys == f.left.Keys && f'.right.Keys == f.right.Keys && f'.parent.Keys == f.parent.Keys
  {
    var b := t.right.left;
    assert b.Node? ==> b.id in Ids(b);
    assert Ids(b) <= Ids(t.right) <= Ids(t);
  }

  /** Pointing `k` at `v` commutes with re-hanging a child other than `k`. */
  lemma ReparentUpdate(parent: LinkMap, c: Option<NodeId>, n: NodeId, k: NodeId, v: Option<NodeId>)
    requires c.Some? ==> c.value != k
    ensures Reparent(parent, c, n)[k := v] == Reparent(parent[k := v], c, n)
  {
  }

  /**
    The parent links `rotate_left` leaves: as written, with `n.parent` still
    naming the node above the rotation, they do not describe the rotated
    tree; with `n.parent` re-pointed to `m` they do.
   */
  lemma RotateLeftParentLinks(p: Path, t: Shape, f: Fields, f': Fields)
    requires t.Node? && t.right.Node? && Spells(Plug(p, t), f.root, f.left, f.right) && Parents(Plug(p, t), f.parent, None)
    requires RotatedLeftFields(p, t, f, f')
    ensures !Parents(Plug(p, RotatedLeft(t)), f'.parent, None)
    ensures Parents(Plug(p, RotatedLeft(t)), f'.parent[t.id := Some(t.right.id)], None)
  {
    var n, m, b := t.id, t.right.id, t.right.left;
    RotateLeftParents(p, t, f.parent);
    PlugDistinct(p, t);
    assert Distinct(t.right);
    assert b.Node? ==> b.id in Ids(b) && b.id in Ids(t.right);
    ReparentUpdate(f.parent[m := ParentId(p)], RootId(b), n, n, Some(m));
  }

  /**
    What the stale link of `rotate_left` shows through `root()`: after a left
    rotation at the root of the tree, the walk along `parent` from the old
    root stops at once, so `root()` of that node is the node itself, while
    the tree's root is now its old right child.
   */
  lemma RotatedRootOwnRoot(t: Shape, f: Fields, f': Fields)
    requires t.Node? && t.right.Node? && Distinct(t) && t.id in f.parent && f.parent[t.id] == None
    requires RotatedLeftFields(AtRoot, t, f, f')
    ensures Ancestry(f'.parent, [t.id]) && f'.root == Some(t.right.id) && t.right.id != t.id
  {
    var n, m, b := t.id, t.right.id, t.right.left;
    assert m in Ids(t.right) && n !in Ids(t.right);
    assert b.Node? ==> b.id in Ids(t.right);
  }

  /** What `rotate_right` writes, from the fields `f` it finds at the top `n` of `t`, reached along `p`. */
  ghost predicate RotatedRightFields(p: Path, t: Shape, f: Fields, f': Fields)
    requires t.Node? && t.left.Node?
  {
    var n, m := t.id, t.left.id;
    && f'.root == (if p.AtRoot? then Some(m) else f.root)
    && f'.left == AttachLeft(p, f.left, m)[n := RootId(t.left.right)]
    && f'.right == AttachRight(p, f.right, m)[m := Some(n)]
    && f'.parent == Reparent(f.parent[m := ParentId(p)][n := Some(m)], RootId(t.left.right), n)
  }

  /**
    The fields `rotate_right` writes, in its order: the left child `m` of `n`
    takes its place, inherits its parent, and gets `n` as its right child;
    `n` takes over the old right subtree of `m` and names `m` as its parent.
   */
  function RotateRightFields(f: Fields, n: NodeId, ghost p: Path, ghost t: Shape): (r: Fields)
    requires t.Node? && t.id == n && t.left.Node? && Links(t, f.left, f.right) && Distinct(t)
    requires n in f.parent && (f.root == Some(n) <==> p.AtRoot?) && f.parent[n] == ParentId(p)
    requires !p.AtRoot? ==> p.id in f.left && p.id in f.right && p.id !in Ids(t)
    requires !p.AtRoot? ==> (f.left[p.id] == Some(n) <==> p.LeftOf?)
    ensures RotatedRightFields(p, t, f, r)
  {
    var m := NonNull(f.left[n]);
    assert Links(t.left, f.left, f.right) && m in Ids(t);
    var f := Reattach(f, n, m, p);
    var f := f.(parent := f.parent[m := f.parent[n]]);
    var f := f.(parent := f.parent[n := Some(m)]);
    var f := f.(left := f.left[n := f.right[m]]);
    var f := if f.right[m].Some? then f.(parent := f.parent[f.right[m].value := Some(n)]) else f;
    f.(right := f.right[m := Some(n)])
  }

  /** The child links `rotate_right` leaves spell out the rotated tree, with the same nodes in the same order. */
  lemma RotateRightSpells(p: Path, t: Shape, f: Fields, f': Fields)
    requires t.Node? && t.left.Node? && Spells(Plug(p, t), f.root, f.left, f.right)
    requires RotatedRightFields(p, t, f, f')
    ensures Spells(Plug(p, RotatedRight(t)), f'.root, f'.left, f'.right)
    ensures Ids(Plug(p, RotatedRight(t))) == Ids(Plug(p, t)) && InOrder(Plug(p, RotatedRight(t))) == InOrder(Plug(p, t))
  {
    RotateRightLinks(p, t, f.left, f.right);
    Rotated(p, t, RotatedRight(t));
  }

  /** `rotate_right` writes only slots of nodes of the tree: no field gains or loses an entry. */
  lemma RotateRightKeys(p: Path, t: Shape, f: Fields, f': Fields)
    requires t.Node? && t.left.Node? && Ids(t) <= f.left.Keys && (!p.AtRoot? ==> p.id in f.left.Keys)
    requires f.left.Keys == f.right.Keys && f.left.Keys == f.parent.Keys
    requires RotatedRightFields(p, t, f, f')
    ensures f'.left.Keys == f.left.Keys && f'.right.Keys == f.right.Keys && f'.parent.Keys == f.parent.Keys
  {
    var b := t.left.right;
    assert b.Node? ==> b.id in Ids(b);
    assert Ids(b) <= Ids(t.left) <= Ids(t);
  }

  /** What `rotate_right_then_left` writes at `x`, with `z` its right child and `y` the left child of `z`. */
  ghost predicate RotatedRightLeftFields(p: Path, t: Shape, f: Fields, f': Fields)
    requires t.Node? && t.right.Node? && t.right.left.Node?
  {
    var x, z, y := t.id, t.right.id, t.right.left.id;
    var t2, t3 := RootId(t.right.left.left), RootId(t.right.left.right);
    && f'.root == (if p.AtRoot? then Some(y) else f.root)
    && f'.left == AttachLeft(p, f.left[z := t3], y)[y := Some(x)]
    && f'.right == AttachRight(p, f.right[y := Some(z)][x := t2], y)
    && f'.parent == Reparent(Reparent(f.parent, t3, z)[z := Some(y)], t2, x)[y := ParentId(p)][x := Some(y)]
  }

  /**
    The fields `rotate_right_then_left` writes, in its order: `z` takes over
    the right subtree `t3` of `y` and hangs below `y`, `x` takes over its left
    subtree `t2`, and `y` takes the place of `x` with `x` as its left child.
   */
  function RotateRightThenLeftFields(f: Fields, x: NodeId, ghost p: Path, ghost t: Shape): (r: Fields)
    requires t.Node? && t.id == x && t.right.Node? && t.right.left.Node? && Links(t, f.left, f.right) && Distinct(t)
    requires x in f.parent && (f.root == Some(x) <==> p.AtRoot?) && f.parent[x] == ParentId(p)
    requires !p.AtRoot? ==> p.id in f.left && p.id in f.right && p.id !in Ids(t)
    requires !p.AtRoot? ==> (f.left[p.id] == Some(x) <==> p.LeftOf?)
    ensures RotatedRightLeftFields(p, t, f, r)
  {
    var z := NonNull(f.right[x]);
    assert Links(t.right, f.left, f.right) && Links(t.right.left, f.left, f.right);
    var y := NonNull(f.left[z]);
    var t2, t3 := f.left[y], f.right[y];
    assert Distinct(t.right) && Distinct(t.right.left);
    assert t2.Some? ==> t2.value in Ids(t.right.left.left) && t2.value in Ids(t.right);
    assert t3.Some? ==> t3.value in Ids(t.right.left.right) && t3.value in Ids(t.right);
    var f := f.(left := f.left[z := t3]);
    var f := if t3.Some? then f.(parent := f.parent[t3.value := Some(z)]) else f;
    var f := f.(right := f.right[y := Some(z)]);
    var f := f.(parent := f.parent[z := Some(y)]);
    var f := f.(right := f.right[x := t2]);
    var f := if t2.Some? then f.(parent := f.parent[t2.value := Some(x)]) else f;
    var f := Reattach(f, x, y, p);
    var f := f.(left := f.left[y := Some(x)]);
    var f := f.(parent := f.parent[y := f.parent[x]]);
    f.(parent := f.parent[x := Some(y)])
  }

  /** The child links `rotate_right_then_left` leaves spell out the rotated tree, with the same nodes in the same order. */
  lemma RotateRightThenLeftSpells(p: Path, t: Shape, f: Fields, f': Fields)
    requires t.Node? && t.right.Node? && t.right.left.Node? && Spells(Plug(p, t), f.root, f.left, f.right)
    requires RotatedRightLeftFields(p, t, f, f')
    ensures Spells(Plug(p, RotatedRightLeft(t)), f'.root, f'.left, f'.right)
    ensures Ids(Plug(p, RotatedRightLeft(t))) == Ids(Plug(p, t)) && InOrder(Plug(p, RotatedRightLeft(t))) == InOrder(Plug(p, t))
  {
    RotateRightLeftLinks(p, t, f.left, f.right);
    Rotated(p, t, RotatedRightLeft(t));
  }

  /** `rotate_right_then_left` writes only slots of nodes of the tree: no field gains or loses an entry. */
  lemma RotateRightThenLeftSlots(p: Path, t: Shape, f: Fields, f': Fields)
    requires t.Node? && t.right.Node? && t.right.left.Node?
    requires var t2, t3 := RootId(t.right.left.left), RootId(t.right.left.right);
      && t.id in f.left && t.right.id in f.left && t.right.left.id in f.left && (!p.AtRoot? ==> p.id in f.left)
      && (t2.Some? ==> t2.value in f.left) && (t3.Some? ==> t3.value in f.left)
    requires f.left.Keys == f.right.Keys && f.left.Keys == f.parent.Keys
    requires RotatedRightLeftFields(p, t, f, f')
    ensures f'.left.Keys == f.left.Keys && f'.right.Keys == f.right.Keys && f'.parent.Keys == f.parent.Keys
  {
  }
  /** The same, for a tree whose nodes all have entries. */
  lemma RotateRightThenLeftKeys(p: Path, t: Shape, f: Fields, f': Fields)
    requires t.Node? && t.right.Node? && t.right.left.Node? && Ids(t) <= f.left.Keys && (!p.AtRoot? ==> p.id in f.left)
    requires f.left.Keys == f.right.Keys && f.left.Keys == f.parent.Keys
    requires RotatedRightLeftFields(p, t, f, f')
    ensures f'.left.Keys == f.left.Keys && f'.right.Keys == f.right.Keys && f'.parent.Keys == f.parent.Keys
  {
    var b, c := t.right.left.left, t.right.left.right;
    assert b.Node? ==> b.id in Ids(b);
    assert c.Node? ==> c.id in Ids(c);
    assert Ids(b) + Ids(c) <= Ids(t.right.left) <= Ids(t.right) <= Ids(t);
    RotateRightThenLeftSlots(p, t, f, f');
  }



  /** What `rotate_left_then_right` writes at `x`, with `z` its left child and `y` the right child of `z`. */
  ghost predicate RotatedLeftRightFields(p: Path, t: Shape, f: Fields, f': Fields)
    requires t.Node? && t.left.Node? && t.left.right.Node?
  {
    var x, z, y := t.id, t.left.id, t.left.right.id;
    var t2, t3 := RootId(t.left.right.left), RootId(t.left.right.right);
    && f'.root == (if p.AtRoot? then Some(y) else f.root)
    && f'.left == AttachLeft(p, f.left[y := Some(z)][x := t3], y)
    && f'.right == AttachRight(p, f.right[z := t2], y)[y := Some(x)]
    && f'.parent == Reparent(Reparent(f.parent, t2, z)[z := Some(y)], t3, x)[y := ParentId(p)][x := Some(y)]
  }

  /**
    The fields `rotate_left_then_right` writes, in its order: `z` takes over
    the left subtree `t2` of `y` and hangs below `y`, `x` takes over its right
    subtree `t3`, and `y` takes the place of `x` with `x` as its right child.
   */
  function RotateLeftThenRightFields(f: Fields, x: NodeId, ghost p: Path, ghost t: Shape): (r: Fields)
    requires t.Node? && t.id == x && t.left.Node? && t.left.right.Node? && Links(t, f.left, f.right) && Distinct(t)
    requires x in f.parent && (f.root == Some(x) <==> p.AtRoot?) && f.parent[x] == ParentId(p)
    requires !p.AtRoot? ==> p.id in f.left && p.id in f.right && p.id !in Ids(t)
    requires !p.AtRoot? ==> (f.left[p.id] == Some(x) <==> p.LeftOf?)
    ensures RotatedLeftRightFields(p, t, f, r)
  {
    var z := NonNull(f.left[x]);
    assert Links(t.left, f.left, f.right) && Links(t.left.right, f.left, f.right);
    var y := NonNull(f.right[z]);
    var t2, t3 := f.left[y], f.right[y];
    assert Distinct(t.left) && Distinct(t.left.right);
    assert t2.Some? ==> t2.value in Ids(t.left.right.left) && t2.value in Ids(t.left);
    assert t3.Some? ==> t3.value in Ids(t.left.right.right) && t3.value in Ids(t.left);
    var f := f.(right := f.right[z := t2]);
    var f := if t2.Some? then f.(parent := f.parent[t2.value := Some(z)]) else f;
    var f := f.(left := f.left[y := Some(z)]);
    var f := f.(parent := f.parent[z := Some(y)]);
    var f := f.(left := f.left[x := t3]);
    var f := if t3.Some? then f.(parent := f.parent[t3.value := Some(x)]) else f;
    var f := Reattach(f, x, y, p);
    var f := f.(right := f.right[y := Some(x)]);
    var f := f.(parent := f.parent[y := f.parent[x]]);
    f.(parent := f.parent[x := Some(y)])
  }

  /** The child links `rotate_left_then_right` leaves spell out the rotated tree, with the same nodes in the same order. */
  lemma RotateLeftThenRightSpells(p: Path, t: Shape, f: Fields, f': Fields)
    requires t.Node? && t.left.Node? && t.left.right.Node? && Spells(Plug(p, t), f.root, f.left, f.right)
    requires RotatedLeftRightFields(p, t, f, f')
    ensures Spells(Plug(p, RotatedLeftRight(t)), f'.root, f'.left, f'.right)
    ensures Ids(Plug(p, RotatedLeftRight(t))) == Ids(Plug(p, t)) && InOrder(Plug(p, RotatedLeftRight(t))) == InOrder(Plug(p, t))
  {
    RotateLeftRightLinks(p, t, f.left, f.right);
    Rotated(p, t, RotatedLeftRight(t));
  }

  /** `rotate_left_then_right` writes only slots of nodes of the tree: no field gains or loses an entry. */
  lemma RotateLeftThenRightSlots(p: Path, t: Shape, f: Fields, f': Fields)
    requires t.Node? && t.left.Node? && t.left.right.Node?
    requires var t2, t3 := RootId(t.left.right.left), RootId(t.left.right.right);
      && t.id in f.left && t.left.id in f.left && t.left.right.id in f.left && (!p.AtRoot? ==> p.id in f.left)
      && (t2.Some? ==> t2.value in f.left) && (t3.Some? ==> t3.value in f.left)
    requires f.left.Keys == f.right.Keys && f.left.Keys == f.parent.Keys
    requires RotatedLeftRightFields(p, t, f, f')
    ensures f'.left.Keys == f.left.Keys && f'.right.Keys == f.right.Keys && f'.parent.Keys == f.parent.Keys
  {
  }
  /** The same, for a tree whose nodes all have entries. */
  lemma RotateLeftThenRightKeys(p: Path, t: Shape, f: Fields, f': Fields)
    requires t.Node? && t.left.Node? && t.left.right.Node? && Ids(t) <= f.left.Keys && (!p.AtRoot? ==> p.id in f.left)
    requires f.left.Keys == f.right.Keys && f.left.Keys == f.parent.Keys
    requires RotatedLeftRightFields(p, t, f, f')
    ensures f'.left.Keys == f.left.Keys && f'.right.Keys == f.right.Keys && f'.parent.Keys == f.parent.Keys
  {
    var b, c := t.left.right.left, t.left.right.right;
    assert b.Node? ==> b.id in Ids(b);
    assert c.Node? ==> c.id in Ids(c);
    assert Ids(b) + Ids(c) <= Ids(t.left.right) <= Ids(t.left) <= Ids(t);
    RotateLeftThenRightSlots(p, t, f, f');
  }

  /** Where a subtree sits in a tree: its nodes are in the tree and its links are those of the tree. */
  lemma Site(p: Path, t: Shape, left: LinkMap, right: LinkMap, ids: set<NodeId>)
    requires Links(Plug(p, t), left, right) && Distinct(Plug(p, t)) && Ids(Plug(p, t)) <= ids
    ensures Links(t, left, right) && Distinct(t) && Ids(t) <= ids
  {
    PlugLinks(p, t, left, right);
    PlugDistinct(p, t);
    PlugIds(p, t);
  }

  /**
    `chain` is the walk along `parent` links from its first node: each node's
    parent is the next one, and the last node has none. Such a walk exists
    exactly when following the links from the first node ends.
   */
  ghost predicate Ancestry(parent: LinkMap, chain: seq<NodeId>)
    decreases |chain|
  {
    && |chain| >= 1 && chain[0] in parent
    && if |chain| == 1 then parent[chain[0]] == None
       else parent[chain[0]] == Some(chain[1]) && Ancestry(parent, chain[1..])
  }

  class BinaryTree<V> {
    /** `Tree._root`. */
    var root: Option<NodeId>
    /** `Node.value` of every node. */
    var value: map<NodeId, V>
    /** `Node.parent` of every node. */
    var parent: LinkMap
    /** `BinaryNode.left` of every node. */
    var left: LinkMap
    /** `BinaryNode.right` of every node. */
    var right: LinkMap
    /** Every handle below this one has been handed out. */
    var nextId: NodeId
    /** `BinaryTree._get_key`. */
    const key: V -> int
    ghost var shape: Shape

    /** The child links spell out `shape`, whose nodes all exist, and the root is its top. */
    ghost predicate Valid()
      reads this
    {
      && value.Keys == parent.Keys && value.Keys == left.Keys && value.Keys == right.Keys
      && (forall n :: n in value ==> n < nextId)
      && Ids(shape) <= value.Keys
      && Spells(shape, root, left, right)
    }

    /** Valid, and every node of the tree names its parent (the root none). */
    ghost predicate Linked()
      reads this
    {
      Valid() && Parents(shape, parent, None)
    }

    /** `Tree.__init__` and `BinaryTree.__init__`: an empty tree with the given key function. */
    constructor (key: V -> int)
      ensures Linked() && shape == Nil && root == None && this.key == key
      ensures value == map[] && parent == map[] && left == map[] && right == map[] && nextId == 0
    {
      root := None;
      value := map[];
      parent := map[];
      left := map[];
      right := map[];
      nextId := 0;
      this.key := key;
      shape := Nil;
    }

    /** `BinaryNode(v)`: a new node holding `v`, with no parent and no children, outside the tree. */
    method NewNode(v: V) returns (n: NodeId)
      requires Valid()
      modifies this
      ensures Valid() && (old(Linked()) ==> Linked())
      ensures n == old(nextId) && n !in old(value) && nextId == old(nextId) + 1
      ensures value == old(value)[n := v]
      ensures parent == old(parent)[n := None] && left == old(left)[n := None] && right == old(right)[n := None]
      ensures root == old(root) && shape == old(shape)
    {
      n := nextId;
      Detached(shape, left, right, parent, n);
      nextId, value, parent, left, right :=
        nextId + 1, value[n := v], parent[n := None], left[n := None], right[n := None];
    }

    /**
      `Node.root`: following `parent` links from `n` until a node without a
      parent, whatever the links are, as long as that walk (`chain`) ends. A
      node with no parent, such as a detached one, is its own root; in a tree
      whose parent links are consistent, the walk from any node of the tree
      ends at the tree's root.
     */
    method Root(n: NodeId, ghost chain: seq<NodeId>) returns (r: NodeId)
      requires Ancestry(parent, chain) && chain[0] == n
      ensures r == chain[|chain| - 1] && r in parent && parent[r] == None
      ensures parent[n] == None ==> r == n
      ensures Linked() && n in Ids(shape) ==> root == Some(r)
    {
      ghost var linked := Linked() && n in Ids(shape);
      ghost var p: Path, t: Shape := AtRoot, Nil;
      if linked {
        var pt := Locate(shape, n);
        p, t := pt.0, pt.1;
        Context(p, t, root, left, right, parent);
      }
      r := n;
      ghost var rest := chain;
      while parent[r].Some?
        invariant Ancestry(parent, rest) && r == rest[0] && rest[|rest| - 1] == chain[|chain| - 1]
        invariant linked ==> Plug(p, t) == shape && t.Node? && t.id == r && r in parent && parent[r] == ParentId(p)
        decreases |rest|
      {
        r := parent[r].value;
        rest := rest[1..];
        if linked {
          t, p := Up(p, t), p.up;
          Context(p, t, root, left, right, parent);
        }
      }
      if linked {
        Context(p, t, root, left, right, parent);
      }
    }

    /** `BinaryNode.get_leftmost`: the first node, in order, of the subtree `t` headed by `n`. */
    method GetLeftmost(n: NodeId, ghost t: Shape) returns (r: NodeId)
      requires t.Node? && t.id == n && Links(t, left, right)
      ensures r == Leftmost(t) && r in left && left[r] == None
    {
      r := n;
      ghost var u := t;
      while left[r].Some?
        invariant u.Node? && u.id == r && Links(u, left, right) && Leftmost(u) == Leftmost(t)
        decreases u
      {
        r := left[r].value;
        u := u.left;
      }
    }

    /** `BinaryNode.get_rightmost`: the last node, in order, of the subtree `t` headed by `n`. */
    method GetRightmost(n: NodeId, ghost t: Shape) returns (r: NodeId)
      requires t.Node? && t.id == n && Links(t, left, right)
      ensures r == Rightmost(t) && r in right && right[r] == None
    {
      r := n;
      ghost var u := t;
      while right[r].Some?
        invariant u.Node? && u.id == r && Links(u, left, right) && Rightmost(u) == Rightmost(t)
        decreases u
      {
        r := right[r].value;
        u := u.right;
      }
    }

    /** `BinaryNode.next`: the node after `n` in the in-order walk of the tree, if any. */
    method Next(n: NodeId) returns (r: Option<NodeId>)
      requires Linked() && n in Ids(shape)
      ensures r == Successor(InOrder(shape), n)
    {
      ghost var pt := Locate(shape, n);
      ghost var p, t := pt.0, pt.1;
      Context(p, t, root, left, right, parent);
      if right[n].Some? {
        var m := GetLeftmost(right[n].value, t.right);
        SuccessorBelow(p, t);
        return Some(m);
      }
      var node := n;
      ghost var u := t;
      while parent[node].Some?
        invariant Plug(p, u) == shape && u.Node? && u.id == node
        invariant InOrder(u) != [] && InOrder(u)[|InOrder(u)| - 1] == n
        invariant node in parent && parent[node] == ParentId(p)
        invariant !p.AtRoot? ==> p.id in right && (right[p.id] == Some(node) <==> p.RightOf?)
        decreases p
      {
        if Some(node) != right[parent[node].value] {
          break;
        }
        node := parent[node].value;
        u, p := Up(p, u), p.up;
        Context(p, u, root, left, right, parent);
      }
      SuccessorAbove(p, u, n);
      r := parent[node];
    }

    /** `BinaryNode.prev`: the node before `n` in the in-order walk of the tree, if any. */
    method Prev(n: NodeId) returns (r: Option<NodeId>)
      requires Linked() && n in Ids(shape)
      ensures r == Predecessor(InOrder(shape), n)
    {
      ghost var pt := Locate(shape, n);
      ghost var p, t := pt.0, pt.1;
      Context(p, t, root, left, right, parent);
      if left[n].Some? {
        var m := GetRightmost(left[n].value, t.left);
        PredecessorBelow(p, t);
        return Some(m);
      }
      var node := n;
      ghost var u := t;
      while parent[node].Some?
        invariant Plug(p, u) == shape && u.Node? && u.id == node
        invariant InOrder(u) != [] && InOrder(u)[0] == n
        invariant node in parent && parent[node] == ParentId(p)
        invariant !p.AtRoot? ==> p.id in left && (left[p.id] == Some(node) <==> p.LeftOf?)
        decreases p
      {
        if Some(node) != left[parent[node].value] {
          break;
        }
        node := parent[node].value;
        u, p := Up(p, u), p.up;
        Context(p, u, root, left, right, parent);
      }
      PredecessorAbove(p, u, n);
      r := parent[node];
    }

    /**
      `get_add_hint`: the node under which a value with the key of `v` belongs.
      It is absent only for an empty tree; the descent reaches it, and the
      child slot on the side of the key is free unless the keys are equal.
     */
    method GetAddHint(v: V) returns (r: Option<NodeId>, ghost p: Path, ghost t: Shape)
      requires Valid()
      ensures r.None? <==> root.None?
      ensures r.Some? ==> r.value in Ids(shape) && OnSearchPath(shape, value, key, key(v), r.value)
      ensures r.Some? && key(v) < key(value[r.value]) ==> left[r.value].None?
      ensures r.Some? && key(v) > key(value[r.value]) ==> right[r.value].None?
      ensures r.Some? ==> Plug(p, t) == shape && t.Node? && t.id == r.value && Fits(p, value, key, key(v))
      ensures r.Some? && key(v) < key(value[r.value]) ==> t.left == Nil
      ensures r.Some? && key(v) > key(value[r.value]) ==> t.right == Nil
    {
      var k := key(v);
      r := root;
      p, t := AtRoot, shape;
      while r.Some?
        invariant Plug(p, t) == shape && r == RootId(t) && Fits(p, value, key, k)
        invariant Links(t, left, right) && Ids(t) <= Ids(shape)
        invariant r.None? ==> p.AtRoot?
        decreases t
      {
        var nodeKey := key(value[r.value]);
        if left[r.value].Some? && k < nodeKey {
          r := left[r.value];
          p, t := LeftOf(p, t.id, t.right), t.left;
        } else if right[r.value].Some? && k > nodeKey {
          r := right[r.value];
          p, t := RightOf(t.left, t.id, p), t.right;
        } else {
          break;
        }
      }
      if r.Some? {
        FitsOnSearchPath(p, t, value, key, k, r.value);
      }
    }

    /**
      `self._root = node` of `IntervalTree.add` on an empty tree: the
      detached node `n` becomes the whole tree.
     */
    method PlantRoot(n: NodeId)
      requires Valid() && root.None? && n in value && left[n] == None && right[n] == None && parent[n] == None
      modifies this
      ensures root == Some(n) && shape == Node(Nil, n, Nil) && Linked()
      ensures left == old(left) && right == old(right) && parent == old(parent)
      ensures value == old(value) && nextId == old(nextId)
    {
      root, shape := Some(n), Node(Nil, n, Nil);
    }

    /**
      `parent.left = node` or `parent.right = node`, then `node.parent =
      parent`, of `IntervalTree.add`: the detached node `n` hangs under the
      top `q` of `t`, in place of whatever child `q` had on that side.
     */
    method Hang(q: NodeId, n: NodeId, onLeft: bool, ghost p: Path, ghost t: Shape)
      requires Valid() && Plug(p, t) == shape && t.Node? && t.id == q
      requires n in value && n !in Ids(shape) && left[n] == None && right[n] == None
      modifies this
      ensures shape == Plug(p, Hung(t, n, onLeft)) && Valid() && (old(Linked()) ==> Linked())
      ensures left == (if onLeft then old(left)[q := Some(n)] else old(left))
      ensures right == (if onLeft then old(right) else old(right)[q := Some(n)])
      ensures parent == old(parent)[n := Some(q)]
      ensures root == old(root) && value == old(value) && nextId == old(nextId)
    {
      var f := Fields(root, left, right, parent);
      HangLinks(p, t, n, onLeft, f);
      if Parents(shape, parent, None) {
        HangParents(p, t, n, onLeft, parent);
      }
      assert q in Ids(t) && Ids(t) <= Ids(shape) by {
        PlugIds(p, t);
      }
      if onLeft {
        Commit(Fields(root, left[q := Some(n)], right, parent[n := Some(q)]), Plug(p, Hung(t, n, onLeft)));
      } else {
        Commit(Fields(root, left, right[q := Some(n)], parent[n := Some(q)]), Plug(p, Hung(t, n, onLeft)));
      }
      assert Ids(shape) <= old(Ids(shape)) + {n} by {
        HangIds(p, t, n, onLeft);
      }
    }

    /** Writes the fields a rotation changes, all at once. */
    method Commit(f: Fields, ghost s: Shape)
      modifies this
      ensures root == f.root && left == f.left && right == f.right && parent == f.parent && shape == s
      ensures value == old(value) && nextId == old(nextId)
    {
      root, left, right, parent, shape := f.root, f.left, f.right, f.parent, s;
    }

    /**
      `rotate_left` as written, at the top `n` of the subtree `t` reached
      along `p`: the right child `m` of `n` takes its place and `n` becomes
      its left child. The order of the nodes is kept, but `n.parent` still
      names the node above the rotation, so the tree is no longer linked.
     */
    method RotateLeft(n: NodeId, ghost p: Path, ghost t: Shape) returns (m: NodeId)
      requires Linked() && Plug(p, t) == shape && t.Node? && t.id == n && t.right.Node?
      modifies this
      ensures m == t.right.id && shape == Plug(p, RotatedLeft(t))
      ensures root == (if p.AtRoot? then Some(m) else old(root))
      ensures left == AttachLeft(p, old(left), m)[m := Some(n)]
      ensures right == AttachRight(p, old(right), m)[n := RootId(t.right.left)]
      ensures parent == Reparent(old(parent)[m := ParentId(p)], RootId(t.right.left), n)
      ensures Valid() && !Linked() && InOrder(shape) == old(InOrder(shape))
      ensures value == old(value) && nextId == old(nextId)
    {
      var f := Fields(root, left, right, parent);
      Surroundings(p, t, f);
      m := NonNull(right[n]);
      var f' := RotateLeftFields(f, n, p, t);
      RotateLeftSpells(p, t, f, f');
      RotateLeftKeys(p, t, f, f');
      RotateLeftParentLinks(p, t, f, f');
      Commit(f', Plug(p, RotatedLeft(t)));
    }

    /**
      `rotate_left` with the write it is missing, `node.parent = right`, as
      `rotate_right` has it: the tree stays linked.
     */
    method RotateLeftLinked(n: NodeId, ghost p: Path, ghost t: Shape) returns (m: NodeId)
      requires Linked() && Plug(p, t) == shape && t.Node? && t.id == n && t.right.Node?
      modifies this
      ensures m == t.right.id && shape == Plug(p, RotatedLeft(t))
      ensures root == (if p.AtRoot? then Some(m) else old(root))
      ensures left == AttachLeft(p, old(left), m)[m := Some(n)]
      ensures right == AttachRight(p, old(right), m)[n := RootId(t.right.left)]
      ensures parent == Reparent(old(parent)[m := ParentId(p)], RootId(t.right.left), n)[n := Some(m)]
      ensures Linked() && InOrder(shape) == old(InOrder(shape))
      ensures value == old(value) && nextId == old(nextId)
    {
      var f := Fields(root, left, right, parent);
      Surroundings(p, t, f);
      m := NonNull(right[n]);
      var f' := RotateLeftFields(f, n, p, t);
      RotateLeftSpells(p, t, f, f');
      RotateLeftKeys(p, t, f, f');
      RotateLeftParentLinks(p, t, f, f');
      Commit(Fields(f'.root, f'.left, f'.right, f'.parent[n := Some(m)]), Plug(p, RotatedLeft(t)));
    }

    /**
      `rotate_right` at the top `n` of the subtree `t` reached along `p`: the
      left child `m` of `n` takes its place and `n` becomes its right child.
      The order of the nodes is kept and the tree stays linked.
     */
    method RotateRight(n: NodeId, ghost p: Path, ghost t: Shape) returns (m: NodeId)
      requires Linked() && Plug(p, t) == shape && t.Node? && t.id == n && t.left.Node?
      modifies this
      ensures m == t.left.id && shape == Plug(p, RotatedRight(t))
      ensures root == (if p.AtRoot? then Some(m) else old(root))
      ensures left == AttachLeft(p, old(left), m)[n := RootId(t.left.right)]
      ensures right == AttachRight(p, old(right), m)[m := Some(n)]
      ensures parent == Reparent(old(parent)[m := ParentId(p)][n := Some(m)], RootId(t.left.right), n)
      ensures Linked() && InOrder(shape) == old(InOrder(shape))
      ensures value == old(value) && nextId == old(nextId)
    {
      var f := Fields(root, left, right, parent);
      Surroundings(p, t, f);
      m := NonNull(left[n]);
      var f' := RotateRightFields(f, n, p, t);
      RotateRightSpells(p, t, f, f');
      RotateRightKeys(p, t, f, f');
      RotateRightParents(p, t, parent);
      Commit(f', Plug(p, RotatedRight(t)));
    }

    /**
      `rotate_right_then_left` at `x`, the top of the subtree `t` reached
      along `p`, with `z` its right child and `y` the left child of `z`: `y`
      takes the place of `x`, with `x` and `z` as its children. The order of
      the nodes is kept and the tree stays linked.
     */
    method RotateRightThenLeft(x: NodeId, ghost p: Path, ghost t: Shape) returns (y: NodeId)
      requires Linked() && Plug(p, t) == shape && t.Node? && t.id == x && t.right.Node? && t.right.left.Node?
      modifies this
      ensures y == t.right.left.id && shape == Plug(p, RotatedRightLeft(t))
      ensures RotatedRightLeftFields(p, t, old(Fields(root, left, right, parent)), Fields(root, left, right, parent))
      ensures Linked() && InOrder(shape) == old(InOrder(shape))
      ensures value == old(value) && nextId == old(nextId)
    {
      var f := Fields(root, left, right, parent);
      Surroundings(p, t, f);
      var f' := RotateRightThenLeftFields(f, x, p, t);
      y := NonNull(left[NonNull(right[x])]);
      RotateRightThenLeftSpells(p, t, f, f');
      RotateRightThenLeftKeys(p, t, f, f');
      RotateRightLeftParents(p, t, parent);
      Commit(f', Plug(p, RotatedRightLeft(t)));
    }

    /**
      `rotate_left_then_right` at `x`, the top of the subtree `t` reached
      along `p`, with `z` its left child and `y` the right child of `z`: `y`
      takes the place of `x`, with `z` and `x` as its children. The order of
      the nodes is kept and the tree stays linked.
     */
    method RotateLeftThenRight(x: NodeId, ghost p: Path, ghost t: Shape) returns (y: NodeId)
      requires Linked() && Plug(p, t) == shape && t.Node? && t.id == x && t.left.Node? && t.left.right.Node?
      modifies this
      ensures y == t.left.right.id && shape == Plug(p, RotatedLeftRight(t))
      ensures RotatedLeftRightFields(p, t, old(Fields(root, left, right, parent)), Fields(root, left, right, parent))
      ensures Linked() && InOrder(shape) == old(InOrder(shape))
      ensures value == old(value) && nextId == old(nextId)
    {
      var f := Fields(root, left, right, parent);
      Surroundings(p, t, f);
      var f' := RotateLeftThenRightFields(f, x, p, t);
      y := NonNull(right[NonNull(left[x])]);
      RotateLeftThenRightSpells(p, t, f, f');
      RotateLeftThenRightKeys(p, t, f, f');
      RotateLeftRightParents(p, t, parent);
      Commit(f', Plug(p, RotatedLeftRight(t)));
    }

    /**
      `__iter__`: the values of the tree, popped from a stack that starts with
      the root and gets each node's left child pushed before its right child.
     */
    method Values() returns (vs: seq<V>)
      requires Valid()
      ensures |vs| == |StackOrder(shape)|
      ensures forall i :: 0 <= i < |vs| ==> StackOrder(shape)[i] in value && vs[i] == value[StackOrder(shape)[i]]
    {
      vs := [];
      if root.None? {
        return;
      }
      var stack := [root.value];
      ghost var pending := [shape];
      ghost var seen: seq<NodeId> := [];
      assert Pending(pending) == StackOrder(shape) + Pending([]);
      while stack != []
        invariant Stacked(stack, pending, left, right, Ids(shape))
        invariant |vs| == |seen| && forall i :: 0 <= i < |vs| ==> seen[i] in value && vs[i] == value[seen[i]]
        invariant seen + Pending(pending) == StackOrder(shape)
        decreases |StackOrder(shape)| - |seen|
      {
        var node := stack[|stack| - 1];
        ghost var t := pending[|pending| - 1];
        Advance(stack, pending, left, right, Ids(shape));
        pending := pending[..|pending| - 1] + Children(t);
        Appended(seen, [node], Pending(pending));
        stack := PushChildren(stack[..|stack| - 1], node);
        assert node in value;
        vs, seen := vs + [value[node]], seen + [node];
      }
    }

    /** The pushes of one turn of `__iter__`: the left child, then the right child, of `node`. */
    method PushChildren(stack: seq<NodeId>, node: NodeId) returns (stack': seq<NodeId>)
      requires node in left && node in right
      ensures stack' == stack + Kids(left[node], right[node])
    {
      stack' := stack;
      if left[node].Some? {
        stack' := stack' + [left[node].value];
      }
      if right[node].Some? {
        stack' := stack' + [right[node].value];
      }
    }
  }
}
