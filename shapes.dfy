/**
  The abstract shape of the linked binary trees of `scl.tree`,
  `scl.binarytree`, `scl.avltree` and `scl.intervaltree`. A tree keeps each
  node's `left`, `right` and `parent` fields in maps from node handles; a
  `Shape` says which node sits where, and the predicates here say when the
  maps spell that shape out. A `Path` is the way from a subtree up to the
  root, so that the surroundings of a node can be named.
 */
module Shapes {
  import opened Util

  /** A node handle: the identity of a node object. */
  type NodeId = int

  /** One of a node's link fields, for every node. */
  type LinkMap = map<NodeId, Option<NodeId>>

  datatype Shape = Nil | Node(left: Shape, id: NodeId, right: Shape)

  /** The way from a subtree up to the root: at each step, whose left or right child it is. */
  datatype Path =
    | AtRoot
    | LeftOf(up: Path, id: NodeId, right: Shape)
    | RightOf(left: Shape, id: NodeId, up: Path)

  function RootId(s: Shape): Option<NodeId> {
    if s.Nil? then None else Some(s.id)
  }

  /** The node a subtree at the end of `p` hangs from. */
  function ParentId(p: Path): Option<NodeId> {
    if p.AtRoot? then None else Some(p.id)
  }

  /** The whole tree: `t` put back in place along `p`. */
  function Plug(p: Path, t: Shape): Shape {
    match p
    case AtRoot => t
    case LeftOf(up, n, r) => Plug(up, Node(t, n, r))
    case RightOf(l, n, up) => Plug(up, Node(l, n, t))
  }

  ghost function Ids(s: Shape): set<NodeId> {
    match s
    case Nil => {}
    case Node(l, n, r) => Ids(l) + {n} + Ids(r)
  }

  /** The nodes on the path and in the subtrees hanging off it. */
  ghost function PathIds(p: Path): set<NodeId> {
    match p
    case AtRoot => {}
    case LeftOf(up, n, r) => {n} + Ids(r) + PathIds(up)
    case RightOf(l, n, up) => Ids(l) + {n} + PathIds(up)
  }

  ghost function InOrder(s: Shape): seq<NodeId> {
    match s
    case Nil => []
    case Node(l, n, r) => InOrder(l) + [n] + InOrder(r)
  }

  /** The nodes the in-order walk visits before the subtree at the end of `p`. */
  ghost function Before(p: Path): seq<NodeId> {
    match p
    case AtRoot => []
    case LeftOf(up, _, _) => Before(up)
    case RightOf(l, n, up) => Before(up) + InOrder(l) + [n]
  }

  /** The nodes the in-order walk visits after the subtree at the end of `p`. */
  ghost function After(p: Path): seq<NodeId> {
    match p
    case AtRoot => []
    case LeftOf(up, n, r) => [n] + InOrder(r) + After(up)
    case RightOf(_, _, up) => After(up)
  }

  /** No node occurs twice. */
  ghost predicate Distinct(s: Shape) {
    match s
    case Nil => true
    case Node(l, n, r) => Distinct(l) && Distinct(r) && n !in Ids(l) && n !in Ids(r) && Ids(l) !! Ids(r)
  }

  ghost predicate PathDistinct(p: Path) {
    match p
    case AtRoot => true
    case LeftOf(up, n, r) => PathDistinct(up) && Distinct(r) && n !in Ids(r) && ({n} + Ids(r)) !! PathIds(up)
    case RightOf(l, n, up) => PathDistinct(up) && Distinct(l) && n !in Ids(l) && (Ids(l) + {n}) !! PathIds(up)
  }

  /** The `left` and `right` fields of every node of `s` name its children in `s`. */
  ghost predicate Links(s: Shape, left: LinkMap, right: LinkMap) {
    match s
    case Nil => true
    case Node(l, n, r) =>
      && n in left && n in right
      && left[n] == RootId(l) && right[n] == RootId(r)
      && Links(l, left, right) && Links(r, left, right)
  }

  /** The links along `p`, where `child` is the handle of the subtree at its end. */
  ghost predicate PathLinks(p: Path, child: Option<NodeId>, left: LinkMap, right: LinkMap) {
    match p
    case AtRoot => true
    case LeftOf(up, n, r) =>
      && n in left && n in right
      && left[n] == child && right[n] == RootId(r)
      && Links(r, left, right) && PathLinks(up, Some(n), left, right)
    case RightOf(l, n, up) =>
      && n in left && n in right
      && left[n] == RootId(l) && right[n] == child
      && Links(l, left, right) && PathLinks(up, Some(n), left, right)
  }

  /** The `parent` field of every node of `s` names its parent; that of the top names `above`. */
  ghost predicate Parents(s: Shape, parent: LinkMap, above: Option<NodeId>) {
    match s
    case Nil => true
    case Node(l, n, r) =>
      && n in parent && parent[n] == above
      && Parents(l, parent, Some(n)) && Parents(r, parent, Some(n))
  }

  ghost predicate PathParents(p: Path, parent: LinkMap) {
    match p
    case AtRoot => true
    case LeftOf(up, n, r) =>
      n in parent && parent[n] == ParentId(up) && Parents(r, parent, Some(n)) && PathParents(up, parent)
    case RightOf(l, n, up) =>
      n in parent && parent[n] == ParentId(up) && Parents(l, parent, Some(n)) && PathParents(up, parent)
  }

  /** The subtree headed by `n`, with the path to it from the top of `s`, itself reached along `p`. */
  ghost function Find(s: Shape, n: NodeId, p: Path): (r: (Path, Shape))
    requires n in Ids(s)
    ensures Plug(r.0, r.1) == Plug(p, s)
    ensures r.1.Node? && r.1.id == n
  {
    if s.id == n then (p, s)
    else if n in Ids(s.left) then Find(s.left, n, LeftOf(p, s.id, s.right))
    else Find(s.right, n, RightOf(s.left, s.id, p))
  }

  /** The node sitting at `n` in `s`, with its surroundings. */
  ghost function Locate(s: Shape, n: NodeId): (r: (Path, Shape))
    requires n in Ids(s)
    ensures Plug(r.0, r.1) == s
    ensures r.1.Node? && r.1.id == n
  {
    Find(s, n, AtRoot)
  }

  lemma {:induction false} PlugIds(p: Path, t: Shape)
    ensures Ids(Plug(p, t)) == PathIds(p) + Ids(t)
  {
    match p
    case AtRoot =>
    case LeftOf(up, n, r) =>
      PlugIds(up, Node(t, n, r));
    case RightOf(l, n, up) =>
      PlugIds(up, Node(l, n, t));
  }

  lemma {:induction false} PlugInOrder(p: Path, t: Shape)
    ensures InOrder(Plug(p, t)) == Before(p) + InOrder(t) + After(p)
  {
    match p
    case AtRoot =>
    case LeftOf(up, n, r) =>
      PlugInOrder(up, Node(t, n, r));
    case RightOf(l, n, up) =>
      PlugInOrder(up, Node(l, n, t));
  }

  lemma {:induction false} PlugDistinct(p: Path, t: Shape)
    ensures Distinct(Plug(p, t)) <==> Distinct(t) && PathDistinct(p) && PathIds(p) !! Ids(t)
  {
    match p
    case AtRoot =>
    case LeftOf(up, n, r) =>
      PlugDistinct(up, Node(t, n, r));
      assert PathIds(p) == {n} + Ids(r) + PathIds(up);
    case RightOf(l, n, up) =>
      PlugDistinct(up, Node(l, n, t));
      assert PathIds(p) == Ids(l) + {n} + PathIds(up);
  }

  lemma {:induction false} PlugLinks(p: Path, t: Shape, left: LinkMap, right: LinkMap)
    ensures Links(Plug(p, t), left, right) <==> Links(t, left, right) && PathLinks(p, RootId(t), left, right)
  {
    match p
    case AtRoot =>
    case LeftOf(up, n, r) =>
      PlugLinks(up, Node(t, n, r), left, right);
    case RightOf(l, n, up) =>
      PlugLinks(up, Node(l, n, t), left, right);
  }

  lemma {:induction false} PlugParents(p: Path, t: Shape, parent: LinkMap)
    ensures Parents(Plug(p, t), parent, None) <==> Parents(t, parent, ParentId(p)) && PathParents(p, parent)
  {
    match p
    case AtRoot =>
    case LeftOf(up, n, r) =>
      PlugParents(up, Node(t, n, r), parent);
    case RightOf(l, n, up) =>
      PlugParents(up, Node(l, n, t), parent);
  }

  /** Below the top, the root of the whole tree does not depend on the subtree at the end of the path. */
  lemma {:induction false} PlugRoot(p: Path, t: Shape, t': Shape)
    requires !p.AtRoot?
    ensures RootId(Plug(p, t)) == RootId(Plug(p, t'))
    ensures RootId(Plug(p, t)).Some? && RootId(Plug(p, t)).value in PathIds(p)
  {
    match p
    case LeftOf(up, n, r) =>
      if !up.AtRoot? {
        PlugRoot(up, Node(t, n, r), Node(t', n, r));
      }
    case RightOf(l, n, up) =>
      if !up.AtRoot? {
        PlugRoot(up, Node(l, n, t), Node(l, n, t'));
      }
  }

  /** `m'` holds what `m` holds for every handle of `s`. */
  ghost predicate Agree(m: LinkMap, m': LinkMap, s: set<NodeId>) {
    forall k :: k in s && k in m ==> k in m' && m'[k] == m[k]
  }

  lemma {:induction false} LinksFrame(s: Shape, left: LinkMap, right: LinkMap, left': LinkMap, right': LinkMap)
    requires Links(s, left, right)
    requires Agree(left, left', Ids(s)) && Agree(right, right', Ids(s))
    ensures Links(s, left', right')
  {
    match s
    case Nil =>
    case Node(l, n, r) =>
      LinksFrame(l, left, right, left', right');
      LinksFrame(r, left, right, left', right');
  }

  lemma {:induction false} PathLinksFrame(p: Path, child: Option<NodeId>, left: LinkMap, right: LinkMap, left': LinkMap, right': LinkMap)
    requires PathLinks(p, child, left, right)
    requires Agree(left, left', PathIds(p)) && Agree(right, right', PathIds(p))
    ensures PathLinks(p, child, left', right')
  {
    match p
    case AtRoot =>
    case LeftOf(up, n, r) =>
      LinksFrame(r, left, right, left', right');
      PathLinksFrame(up, Some(n), left, right, left', right');
    case RightOf(l, n, up) =>
      LinksFrame(l, left, right, left', right');
      PathLinksFrame(up, Some(n), left, right, left', right');
  }

  lemma {:induction false} ParentsFrame(s: Shape, parent: LinkMap, parent': LinkMap, above: Option<NodeId>)
    requires Parents(s, parent, above)
    requires Agree(parent, parent', Ids(s))
    ensures Parents(s, parent', above)
  {
    match s
    case Nil =>
    case Node(l, n, r) =>
      ParentsFrame(l, parent, parent', Some(n));
      ParentsFrame(r, parent, parent', Some(n));
  }

  lemma {:induction false} PathParentsFrame(p: Path, parent: LinkMap, parent': LinkMap)
    requires PathParents(p, parent)
    requires Agree(parent, parent', PathIds(p))
    ensures PathParents(p, parent')
  {
    match p
    case AtRoot =>
    case LeftOf(up, n, r) =>
      ParentsFrame(r, parent, parent', Some(n));
      PathParentsFrame(up, parent, parent');
    case RightOf(l, n, up) =>
      ParentsFrame(l, parent, parent', Some(n));
      PathParentsFrame(up, parent, parent');
  }

  /** The subtree one step up `p`, with `t` in the place `p` leaves for it. */
  function Up(p: Path, t: Shape): Shape
    requires !p.AtRoot?
  {
    if p.LeftOf? then Node(t, p.id, p.right) else Node(p.left, p.id, t)
  }

  /**
    What the child links say about a node of a tree: its children, whether
    it is the root, and on which side of its parent it hangs.
   */
  lemma LinkContext(p: Path, t: Shape, root: Option<NodeId>, left: LinkMap, right: LinkMap)
    requires t.Node? && root == RootId(Plug(p, t)) && Distinct(Plug(p, t))
    requires Links(Plug(p, t), left, right)
    ensures Links(t, left, right) && Distinct(t) && PathDistinct(p) && PathIds(p) !! Ids(t)
    ensures PathLinks(p, Some(t.id), left, right)
    ensures root == Some(t.id) <==> p.AtRoot?
    ensures !p.AtRoot? ==> p.id in left && p.id in right
    ensures !p.AtRoot? ==> (left[p.id] == Some(t.id) <==> p.LeftOf?)
    ensures !p.AtRoot? ==> (right[p.id] == Some(t.id) <==> p.RightOf?)
  {
    PlugLinks(p, t, left, right);
    PlugDistinct(p, t);
    if !p.AtRoot? {
      PlugRoot(p, t, t);
      assert t.id !in PathIds(p);
      if p.LeftOf? {
        assert t.id !in Ids(p.right);
      } else {
        assert t.id !in Ids(p.left);
      }
    }
  }

  /**
    What the links say about a node of a linked tree: its `parent` field, its
    children, whether it is the root, and on which side of its parent it hangs.
   */
  lemma Context(p: Path, t: Shape, root: Option<NodeId>, left: LinkMap, right: LinkMap, parent: LinkMap)
    requires t.Node? && root == RootId(Plug(p, t)) && Distinct(Plug(p, t))
    requires Links(Plug(p, t), left, right) && Parents(Plug(p, t), parent, None)
    ensures Links(t, left, right) && Distinct(t) && PathDistinct(p) && PathIds(p) !! Ids(t)
    ensures PathLinks(p, Some(t.id), left, right) && PathParents(p, parent)
    ensures Parents(t, parent, ParentId(p)) && parent[t.id] == ParentId(p)
    ensures root == Some(t.id) <==> p.AtRoot?
    ensures !p.AtRoot? ==> p.id in left && p.id in right
    ensures !p.AtRoot? ==> (left[p.id] == Some(t.id) <==> p.LeftOf?)
    ensures !p.AtRoot? ==> (right[p.id] == Some(t.id) <==> p.RightOf?)
  {
    LinkContext(p, t, root, left, right);
    PlugParents(p, t, parent);
  }

  /** No element occurs twice. */
  ghost predicate NoDup(s: seq<NodeId>) {
    forall i, j :: 0 <= i < j < |s| ==> s[i] != s[j]
  }

  /** The element right after `x` in `s`; none when `x` is last or absent. */
  ghost function Successor(s: seq<NodeId>, x: NodeId): Option<NodeId>
    decreases |s|
  {
    if |s| < 2 then None
    else if s[0] == x then Some(s[1])
    else Successor(s[1..], x)
  }

  /** The element right before `x` in `s`; none when `x` is first or absent. */
  ghost function Predecessor(s: seq<NodeId>, x: NodeId): Option<NodeId>
    decreases |s|
  {
    if |s| < 2 then None
    else if s[|s| - 1] == x then Some(s[|s| - 2])
    else Predecessor(s[..|s| - 1], x)
  }

  lemma {:induction false} SuccessorAt(a: seq<NodeId>, x: NodeId, b: seq<NodeId>)
    requires x !in a
    ensures Successor(a + [x] + b, x) == if b == [] then None else Some(b[0])
  {
    if a != [] {
      assert (a + [x] + b)[1..] == a[1..] + [x] + b;
      SuccessorAt(a[1..], x, b);
    }
  }

  lemma {:induction false} PredecessorAt(a: seq<NodeId>, x: NodeId, b: seq<NodeId>)
    requires x !in b
    ensures Predecessor(a + [x] + b, x) == if a == [] then None else Some(a[|a| - 1])
  {
    if b != [] {
      var s := a + [x] + b;
      assert s[..|s| - 1] == a + [x] + b[..|b| - 1];
      PredecessorAt(a, x, b[..|b| - 1]);
    }
  }

  lemma NoDupSplit(a: seq<NodeId>, x: NodeId, b: seq<NodeId>)
    requires NoDup(a + [x] + b)
    ensures x !in a && x !in b
  {
    var s := a + [x] + b;
    forall i | 0 <= i < |a| ensures a[i] != x {
      assert s[i] == a[i] && s[|a|] == x;
    }
    forall i | 0 <= i < |b| ensures b[i] != x {
      assert s[|a| + 1 + i] == b[i] && s[|a|] == x;
    }
  }

  /** In a sequence without repetitions, the last element of a middle part `u` is followed by the first of `post`. */
  lemma SuccessorOfLast(pre: seq<NodeId>, u: seq<NodeId>, post: seq<NodeId>, x: NodeId)
    requires NoDup(pre + u + post) && u != [] && u[|u| - 1] == x
    ensures Successor(pre + u + post, x) == if post == [] then None else Some(post[0])
  {
    var a := pre + u[..|u| - 1];
    assert pre + u + post == a + [x] + post;
    NoDupSplit(a, x, post);
    SuccessorAt(a, x, post);
  }

  lemma SuccessorInside(pre: seq<NodeId>, l: seq<NodeId>, x: NodeId, r: seq<NodeId>, post: seq<NodeId>)
    requires NoDup(pre + (l + [x] + r) + post) && r != []
    ensures Successor(pre + (l + [x] + r) + post, x) == Some(r[0])
  {
    assert pre + (l + [x] + r) + post == (pre + l) + [x] + (r + post);
    NoDupSplit(pre + l, x, r + post);
    SuccessorAt(pre + l, x, r + post);
  }

  lemma PredecessorInside(pre: seq<NodeId>, l: seq<NodeId>, x: NodeId, r: seq<NodeId>, post: seq<NodeId>)
    requires NoDup(pre + (l + [x] + r) + post) && l != []
    ensures Predecessor(pre + (l + [x] + r) + post, x) == Some(l[|l| - 1])
  {
    assert pre + (l + [x] + r) + post == (pre + l) + [x] + (r + post);
    NoDupSplit(pre + l, x, r + post);
    PredecessorAt(pre + l, x, r + post);
  }

  /** In a sequence without repetitions, the first element of a middle part `u` is preceded by the last of `pre`. */
  lemma PredecessorOfFirst(pre: seq<NodeId>, u: seq<NodeId>, post: seq<NodeId>, x: NodeId)
    requires NoDup(pre + u + post) && u != [] && u[0] == x
    ensures Predecessor(pre + u + post, x) == if pre == [] then None else Some(pre[|pre| - 1])
  {
    var b := u[1..] + post;
    assert pre + u + post == pre + [x] + b;
    NoDupSplit(pre, x, b);
    PredecessorAt(pre, x, b);
  }

  lemma {:induction false} InOrderIds(s: Shape)
    ensures forall k :: k in InOrder(s) <==> k in Ids(s)
    ensures |InOrder(s)| > 0 <==> s.Node?
  {
    if s.Node? {
      InOrderIds(s.left);
      InOrderIds(s.right);
    }
  }

  lemma {:induction false} DistinctNoDup(s: Shape)
    requires Distinct(s)
    ensures NoDup(InOrder(s))
  {
    if s.Node? {
      DistinctNoDup(s.left);
      DistinctNoDup(s.right);
      InOrderIds(s.left);
      InOrderIds(s.right);
      var a, b := InOrder(s.left), InOrder(s.right);
      var w := a + [s.id] + b;
      forall i, j | 0 <= i < j < |w| ensures w[i] != w[j] {
        if j < |a| {
        } else if i < |a| {
          assert w[i] in Ids(s.left);
          if j > |a| {
            assert w[j] == b[j - |a| - 1];
          }
        } else if i == |a| {
          assert w[j] == b[j - |a| - 1];
        } else {
          assert w[i] == b[i - |a| - 1] && w[j] == b[j - |a| - 1];
        }
      }
    }
  }

  /** The handle the left links lead to from the top of `s`. */
  ghost function Leftmost(s: Shape): (r: NodeId)
    requires s.Node?
    ensures InOrder(s) != [] && InOrder(s)[0] == r
  {
    if s.left.Nil? then s.id else Leftmost(s.left)
  }

  /** The handle the right links lead to from the top of `s`. */
  ghost function Rightmost(s: Shape): (r: NodeId)
    requires s.Node?
    ensures InOrder(s) != [] && InOrder(s)[|InOrder(s)| - 1] == r
  {
    if s.right.Nil? then s.id else Rightmost(s.right)
  }

  /** A node with a right subtree is followed, in order, by the leftmost node of that subtree. */
  lemma SuccessorBelow(p: Path, t: Shape)
    requires Distinct(Plug(p, t)) && t.Node? && t.right.Node?
    ensures Successor(InOrder(Plug(p, t)), t.id) == Some(Leftmost(t.right))
  {
    PlugInOrder(p, t);
    DistinctNoDup(Plug(p, t));
    SuccessorInside(Before(p), InOrder(t.left), t.id, InOrder(t.right), After(p));
  }

  /**
    When `x` ends the in-order walk of `t` and `t` is not a right child, `x` is
    followed by the parent of `t`, or by nothing when `t` is the whole tree.
   */
  lemma SuccessorAbove(p: Path, t: Shape, x: NodeId)
    requires Distinct(Plug(p, t)) && InOrder(t) != [] && InOrder(t)[|InOrder(t)| - 1] == x
    requires !p.RightOf?
    ensures Successor(InOrder(Plug(p, t)), x) == ParentId(p)
  {
    PlugInOrder(p, t);
    DistinctNoDup(Plug(p, t));
    SuccessorOfLast(Before(p), InOrder(t), After(p), x);
  }

  /** A node with a left subtree is preceded, in order, by the rightmost node of that subtree. */
  lemma PredecessorBelow(p: Path, t: Shape)
    requires Distinct(Plug(p, t)) && t.Node? && t.left.Node?
    ensures Predecessor(InOrder(Plug(p, t)), t.id) == Some(Rightmost(t.left))
  {
    PlugInOrder(p, t);
    DistinctNoDup(Plug(p, t));
    PredecessorInside(Before(p), InOrder(t.left), t.id, InOrder(t.right), After(p));
  }

  /**
    When `x` starts the in-order walk of `t` and `t` is not a left child, `x` is
    preceded by the parent of `t`, or by nothing when `t` is the whole tree.
   */
  lemma PredecessorAbove(p: Path, t: Shape, x: NodeId)
    requires Distinct(Plug(p, t)) && InOrder(t) != [] && InOrder(t)[0] == x
    requires !p.LeftOf?
    ensures Predecessor(InOrder(Plug(p, t)), x) == ParentId(p)
  {
    PlugInOrder(p, t);
    DistinctNoDup(Plug(p, t));
    PredecessorOfFirst(Before(p), InOrder(t), After(p), x);
  }

  /** `left` once the parent slot that held the top of the subtree at the end of `p` holds `m`, when that slot is a left one. */
  function AttachLeft(p: Path, left: LinkMap, m: NodeId): LinkMap {
    if p.LeftOf? then left[p.id := Some(m)] else left
  }

  /** `right` once the parent slot that held the top of the subtree at the end of `p` holds `m`, when that slot is a right one. */
  function AttachRight(p: Path, right: LinkMap, m: NodeId): LinkMap {
    if p.RightOf? then right[p.id := Some(m)] else right
  }

  /** `parent` once `child`, if there is one, names `n` as its parent. */
  function Reparent(parent: LinkMap, child: Option<NodeId>, n: NodeId): LinkMap {
    if child.Some? then parent[child.value := Some(n)] else parent
  }

  lemma {:induction false} PathAttach(p: Path, x: NodeId, m: NodeId, left: LinkMap, right: LinkMap, left': LinkMap, right': LinkMap)
    requires PathLinks(p, Some(x), left, right) && PathDistinct(p)
    requires Agree(AttachLeft(p, left, m), left', PathIds(p)) && Agree(AttachRight(p, right, m), right', PathIds(p))
    ensures PathLinks(p, Some(m), left', right')
  {
    match p
    case AtRoot =>
    case LeftOf(up, n, r) =>
      assert Agree(left, left', Ids(r)) && Agree(right, right', Ids(r));
      LinksFrame(r, left, right, left', right');
      assert Agree(left, left', PathIds(up)) && Agree(right, right', PathIds(up));
      PathLinksFrame(up, Some(n), left, right, left', right');
    case RightOf(l, n, up) =>
      assert Agree(left, left', Ids(l)) && Agree(right, right', Ids(l));
      LinksFrame(l, left, right, left', right');
      assert Agree(left, left', PathIds(up)) && Agree(right, right', PathIds(up));
      PathLinksFrame(up, Some(n), left, right, left', right');
  }

  /**
    Putting `t'` in the place of `t`, over the same nodes, keeps the whole tree
    linked when the parent slot now names the new top and nothing else along
    the path changes.
   */
  lemma Replace(p: Path, t: Shape, t': Shape, left: LinkMap, right: LinkMap, left': LinkMap, right': LinkMap)
    requires Links(Plug(p, t), left, right) && Distinct(Plug(p, t)) && t.Node?
    requires t'.Node? && Links(t', left', right') && Distinct(t') && Ids(t') == Ids(t)
    requires Agree(AttachLeft(p, left, t'.id), left', PathIds(p)) && Agree(AttachRight(p, right, t'.id), right', PathIds(p))
    ensures Links(Plug(p, t'), left', right') && Distinct(Plug(p, t'))
  {
    PlugLinks(p, t, left, right);
    PlugDistinct(p, t);
    PathAttach(p, t.id, t'.id, left, right, left', right');
    PlugLinks(p, t', left', right');
    PlugDistinct(p, t');
  }

  /** Parent links survive the replacement of a subtree whose own parent links are right. */
  lemma ReplaceParents(p: Path, t: Shape, t': Shape, parent: LinkMap, parent': LinkMap)
    requires Parents(Plug(p, t), parent, None)
    requires Parents(t', parent', ParentId(p)) && Agree(parent, parent', PathIds(p))
    ensures Parents(Plug(p, t'), parent', None)
  {
    PlugParents(p, t, parent);
    PathParentsFrame(p, parent, parent');
    PlugParents(p, t', parent');
  }

  /** A subtree keeps its parent links when only its top is re-pointed, to `n`. */
  lemma Rehung(s: Shape, parent: LinkMap, parent': LinkMap, above: Option<NodeId>, n: NodeId)
    requires Parents(s, parent, above)
    requires s.Node? ==> s.id in parent' && parent'[s.id] == Some(n)
    requires s.Node? ==> Agree(parent, parent', Ids(s.left)) && Agree(parent, parent', Ids(s.right))
    ensures Parents(s, parent', Some(n))
  {
    if s.Node? {
      ParentsFrame(s.left, parent, parent', Some(s.id));
      ParentsFrame(s.right, parent, parent', Some(s.id));
    }
  }

  /** `rotate_left`: the right child `m` of `n` takes its place, and `n` becomes the left child of `m`. */
  ghost function RotatedLeft(t: Shape): (r: Shape)
    requires t.Node? && t.right.Node?
    ensures InOrder(r) == InOrder(t) && Ids(r) == Ids(t)
  {
    Node(Node(t.left, t.id, t.right.left), t.right.id, t.right.right)
  }

  lemma RotatedLeftDistinct(t: Shape)
    requires t.Node? && t.right.Node? && Distinct(t)
    ensures Distinct(RotatedLeft(t))
  {
    var a, n, b, m, c := t.left, t.id, t.right.left, t.right.id, t.right.right;
    assert Distinct(t.right);
    assert Ids(t.right) == Ids(b) + {m} + Ids(c);
    assert Distinct(Node(a, n, b));
  }

  /** Inside the rotated subtree: `n.right` and `m.left` re-pointed, every other link of it kept. */
  lemma RotateLeftLocal(t: Shape, left: LinkMap, right: LinkMap, left': LinkMap, right': LinkMap)
    requires t.Node? && t.right.Node? && Links(t, left, right) && Distinct(t)
    requires Agree(left, left', Ids(t) - {t.right.id}) && Agree(right, right', Ids(t) - {t.id})
    requires t.right.id in left' && left'[t.right.id] == Some(t.id)
    requires t.id in right' && right'[t.id] == RootId(t.right.left)
    ensures Links(RotatedLeft(t), left', right')
  {
    var a, n, b, m, c := t.left, t.id, t.right.left, t.right.id, t.right.right;
    assert Distinct(t.right);
    assert Agree(left, left', Ids(a)) && Agree(right, right', Ids(a));
    LinksFrame(a, left, right, left', right');
    assert Agree(left, left', Ids(b)) && Agree(right, right', Ids(b));
    LinksFrame(b, left, right, left', right');
    assert Agree(left, left', Ids(c)) && Agree(right, right', Ids(c));
    LinksFrame(c, left, right, left', right');
  }

  /** The child links `rotate_left` leaves: the parent slot, `n.right` and `m.left` re-pointed. */
  lemma RotateLeftLinks(p: Path, t: Shape, left: LinkMap, right: LinkMap)
    requires t.Node? && t.right.Node?
    requires Links(Plug(p, t), left, right) && Distinct(Plug(p, t))
    ensures var n := t.id; var m := t.right.id;
      && Links(Plug(p, RotatedLeft(t)), AttachLeft(p, left, m)[m := Some(n)], AttachRight(p, right, m)[n := RootId(t.right.left)])
      && Distinct(Plug(p, RotatedLeft(t)))
  {
    var n, m := t.id, t.right.id;
    var left', right' := AttachLeft(p, left, m)[m := Some(n)], AttachRight(p, right, m)[n := RootId(t.right.left)];
    PlugLinks(p, t, left, right);
    PlugDistinct(p, t);
    assert p.AtRoot? || p.id !in Ids(t);
    RotateLeftLocal(t, left, right, left', right');
    RotatedLeftDistinct(t);
    Replace(p, t, RotatedLeft(t), left, right, left', right');
  }

  /**
    The parent links after `rotate_left`: with `n.parent` re-pointed to `m`
    the tree is linked; as written, leaving `n.parent` unchanged, it is not.
   */
  lemma RotateLeftParents(p: Path, t: Shape, parent: LinkMap)
    requires t.Node? && t.right.Node?
    requires Parents(Plug(p, t), parent, None) && Distinct(Plug(p, t))
    ensures var n := t.id; var m := t.right.id;
      Parents(Plug(p, RotatedLeft(t)), Reparent(parent[m := ParentId(p)][n := Some(m)], RootId(t.right.left), n), None)
    ensures var n := t.id; var m := t.right.id;
      !Parents(Plug(p, RotatedLeft(t)), Reparent(parent[m := ParentId(p)], RootId(t.right.left), n), None)
  {
    var n, m := t.id, t.right.id;
    var a, b, c := t.left, t.right.left, t.right.right;
    var parent' := Reparent(parent[m := ParentId(p)][n := Some(m)], RootId(b), n);
    PlugParents(p, t, parent);
    PlugDistinct(p, t);
    assert Distinct(t.right);
    assert b.Node? ==> Distinct(b) && b.id !in Ids(b.left) + Ids(b.right);
    assert Agree(parent, parent', Ids(a));
    ParentsFrame(a, parent, parent', Some(n));
    Rehung(b, parent, parent', Some(m), n);
    assert Agree(parent, parent', Ids(c));
    ParentsFrame(c, parent, parent', Some(m));
    assert Agree(parent, parent', PathIds(p));
    ReplaceParents(p, t, RotatedLeft(t), parent, parent');
    var stale := Reparent(parent[m := ParentId(p)], RootId(b), n);
    PlugParents(p, RotatedLeft(t), stale);
    assert stale[n] != Some(m);
  }

  /** `rotate_right`: the left child `m` of `n` takes its place, and `n` becomes the right child of `m`. */
  ghost function RotatedRight(t: Shape): (r: Shape)
    requires t.Node? && t.left.Node?
    ensures InOrder(r) == InOrder(t) && Ids(r) == Ids(t)
  {
    Node(t.left.left, t.left.id, Node(t.left.right, t.id, t.right))
  }

  lemma RotatedRightDistinct(t: Shape)
    requires t.Node? && t.left.Node? && Distinct(t)
    ensures Distinct(RotatedRight(t))
  {
    var a, m, b, n, c := t.left.left, t.left.id, t.left.right, t.id, t.right;
    assert Distinct(t.left);
    assert Ids(t.left) == Ids(a) + {m} + Ids(b);
    assert Distinct(Node(b, n, c));
  }

  /** Inside the rotated subtree: `n.left` and `m.right` re-pointed, every other link of it kept. */
  lemma RotateRightLocal(t: Shape, left: LinkMap, right: LinkMap, left': LinkMap, right': LinkMap)
    requires t.Node? && t.left.Node? && Links(t, left, right) && Distinct(t)
    requires Agree(left, left', Ids(t) - {t.id}) && Agree(right, right', Ids(t) - {t.left.id})
    requires t.id in left' && left'[t.id] == RootId(t.left.right)
    requires t.left.id in right' && right'[t.left.id] == Some(t.id)
    ensures Links(RotatedRight(t), left', right')
  {
    var a, m, b, n, c := t.left.left, t.left.id, t.left.right, t.id, t.right;
    assert Distinct(t.left);
    assert Agree(left, left', Ids(a)) && Agree(right, right', Ids(a));
    LinksFrame(a, left, right, left', right');
    assert Agree(left, left', Ids(b)) && Agree(right, right', Ids(b));
    LinksFrame(b, left, right, left', right');
    assert Agree(left, left', Ids(c)) && Agree(right, right', Ids(c));
    LinksFrame(c, left, right, left', right');
  }

  /** The child links `rotate_right` leaves: the parent slot, `n.left` and `m.right` re-pointed. */
  lemma RotateRightLinks(p: Path, t: Shape, left: LinkMap, right: LinkMap)
    requires t.Node? && t.left.Node?
    requires Links(Plug(p, t), left, right) && Distinct(Plug(p, t))
    ensures var n := t.id; var m := t.left.id;
      && Links(Plug(p, RotatedRight(t)), AttachLeft(p, left, m)[n := RootId(t.left.right)], AttachRight(p, right, m)[m := Some(n)])
      && Distinct(Plug(p, RotatedRight(t)))
  {
    var n, m := t.id, t.left.id;
    var left', right' := AttachLeft(p, left, m)[n := RootId(t.left.right)], AttachRight(p, right, m)[m := Some(n)];
    PlugLinks(p, t, left, right);
    PlugDistinct(p, t);
    assert p.AtRoot? || p.id !in Ids(t);
    RotateRightLocal(t, left, right, left', right');
    RotatedRightDistinct(t);
    Replace(p, t, RotatedRight(t), left, right, left', right');
  }

  /** The parent links after `rotate_right`, which re-points `n.parent` to `m`: the tree stays linked. */
  lemma RotateRightParents(p: Path, t: Shape, parent: LinkMap)
    requires t.Node? && t.left.Node?
    requires Parents(Plug(p, t), parent, None) && Distinct(Plug(p, t))
    ensures var n := t.id; var m := t.left.id;
      Parents(Plug(p, RotatedRight(t)), Reparent(parent[m := ParentId(p)][n := Some(m)], RootId(t.left.right), n), None)
  {
    var n, m := t.id, t.left.id;
    var a, b, c := t.left.left, t.left.right, t.right;
    var parent' := Reparent(parent[m := ParentId(p)][n := Some(m)], RootId(b), n);
    PlugParents(p, t, parent);
    PlugDistinct(p, t);
    assert Distinct(t.left);
    assert b.Node? ==> Distinct(b) && b.id !in Ids(b.left) + Ids(b.right);
    assert Agree(parent, parent', Ids(a));
    ParentsFrame(a, parent, parent', Some(m));
    Rehung(b, parent, parent', Some(m), n);
    assert Agree(parent, parent', Ids(c));
    ParentsFrame(c, parent, parent', Some(n));
    assert Agree(parent, parent', PathIds(p));
    ReplaceParents(p, t, RotatedRight(t), parent, parent');
  }

  /**
    `rotate_right_then_left` at `x`, with `z` its right child and `y` the left
    child of `z`: `y` takes the place of `x`, with `x` and `z` as its children.
   */
  ghost function RotatedRightLeft(t: Shape): (r: Shape)
    requires t.Node? && t.right.Node? && t.right.left.Node?
    ensures InOrder(r) == InOrder(t) && Ids(r) == Ids(t)
  {
    RotatedLeft(Node(t.left, t.id, RotatedRight(t.right)))
  }

  lemma RotatedRightLeftDistinct(t: Shape)
    requires t.Node? && t.right.Node? && t.right.left.Node? && Distinct(t)
    ensures Distinct(RotatedRightLeft(t))
  {
    var a, x, z, y := t.left, t.id, t.right, t.right.left;
    var b, c, d := y.left, y.right, z.right;
    assert Distinct(z) && Distinct(y);
    assert Ids(z) == Ids(b) + {y.id} + Ids(c) + {z.id} + Ids(d);
    assert Distinct(Node(a, x, b));
    assert Distinct(Node(c, z.id, d));
  }

  /** Inside the rotated subtree: `z.left`, `y.right`, `x.right` and `y.left` re-pointed, every other link of it kept. */
  lemma RotateRightLeftLocal(t: Shape, left: LinkMap, right: LinkMap, left': LinkMap, right': LinkMap)
    requires t.Node? && t.right.Node? && t.right.left.Node? && Links(t, left, right) && Distinct(t)
    requires var x, z, y := t.id, t.right.id, t.right.left.id;
      && Agree(left, left', Ids(t) - {z, y}) && Agree(right, right', Ids(t) - {y, x})
      && z in left' && left'[z] == RootId(t.right.left.right) && y in left' && left'[y] == Some(x)
      && y in right' && right'[y] == Some(z) && x in right' && right'[x] == RootId(t.right.left.left)
    ensures Links(RotatedRightLeft(t), left', right')
  {
    var a, z, y := t.left, t.right, t.right.left;
    var b, c, d := y.left, y.right, z.right;
    assert Distinct(z) && Distinct(y);
    assert Links(z, left, right) && Links(y, left, right);
    assert Agree(left, left', Ids(a)) && Agree(right, right', Ids(a));
    LinksFrame(a, left, right, left', right');
    assert Agree(left, left', Ids(b)) && Agree(right, right', Ids(b));
    LinksFrame(b, left, right, left', right');
    assert Agree(left, left', Ids(c)) && Agree(right, right', Ids(c));
    LinksFrame(c, left, right, left', right');
    assert Agree(left, left', Ids(d)) && Agree(right, right', Ids(d));
    LinksFrame(d, left, right, left', right');
  }

  /** The child links `rotate_right_then_left` leaves, in the order it writes them. */
  lemma RotateRightLeftLinks(p: Path, t: Shape, left: LinkMap, right: LinkMap)
    requires t.Node? && t.right.Node? && t.right.left.Node?
    requires Links(Plug(p, t), left, right) && Distinct(Plug(p, t))
    ensures var x, z, y := t.id, t.right.id, t.right.left.id;
      && Links(Plug(p, RotatedRightLeft(t)),
           AttachLeft(p, left[z := RootId(t.right.left.right)], y)[y := Some(x)],
           AttachRight(p, right[y := Some(z)][x := RootId(t.right.left.left)], y))
      && Distinct(Plug(p, RotatedRightLeft(t)))
  {
    var x, z, y := t.id, t.right.id, t.right.left.id;
    var left' := AttachLeft(p, left[z := RootId(t.right.left.right)], y)[y := Some(x)];
    var right' := AttachRight(p, right[y := Some(z)][x := RootId(t.right.left.left)], y);
    PlugLinks(p, t, left, right);
    PlugDistinct(p, t);
    assert p.AtRoot? || p.id !in Ids(t);
    RotateRightLeftLocal(t, left, right, left', right');
    RotatedRightLeftDistinct(t);
    assert Agree(AttachLeft(p, left, y), left', PathIds(p));
    assert Agree(AttachRight(p, right, y), right', PathIds(p));
    Replace(p, t, RotatedRightLeft(t), left, right, left', right');
  }

  /** The parent links `rotate_right_then_left` writes, over the links `parent` of `t`. */
  ghost function RightLeftLinks(t: Shape, parent: LinkMap, above: Option<NodeId>): LinkMap
    requires t.Node? && t.right.Node? && t.right.left.Node?
  {
    var x, z, y := t.id, t.right.id, t.right.left.id;
    Reparent(Reparent(parent, RootId(t.right.left.right), z)[z := Some(y)], RootId(t.right.left.left), x)[y := above][x := Some(y)]
  }

  /** The parent links `rotate_right_then_left` leaves inside the rotated subtree, hanging from `above`. */
  lemma RotateRightLeftParentsLocal(t: Shape, parent: LinkMap, above: Option<NodeId>)
    requires t.Node? && t.right.Node? && t.right.left.Node?
    requires Parents(t, parent, above) && Distinct(t)
    ensures Parents(RotatedRightLeft(t), RightLeftLinks(t, parent, above), above)
  {
    assert Distinct(t.right) && Distinct(t.right.left);
    assert Parents(t.right, parent, Some(t.id)) && Parents(t.right.left, parent, Some(t.right.id));
    RightLeftUpper(t, parent, above);
    RightLeftLower(t, parent, above);
  }

  /** After `rotate_right_then_left`, the old top hangs from the new top with its two subtrees. */
  lemma RightLeftUpper(t: Shape, parent: LinkMap, above: Option<NodeId>)
    requires t.Node? && t.right.Node? && t.right.left.Node?
    requires Parents(t, parent, above) && Parents(t.right.left, parent, Some(t.right.id))
    requires Distinct(t) && Distinct(t.right) && Distinct(t.right.left)
    ensures Parents(Node(t.left, t.id, t.right.left.left), RightLeftLinks(t, parent, above), Some(t.right.left.id))
  {
    var x, y := t.id, t.right.left.id;
    var a, b := t.left, t.right.left.left;
    var parent' := RightLeftLinks(t, parent, above);
    assert b.Node? ==> Distinct(b) && b.id !in Ids(b.left) + Ids(b.right);
    assert Agree(parent, parent', Ids(a));
    ParentsFrame(a, parent, parent', Some(x));
    Rehung(b, parent, parent', Some(y), x);
  }

  /** After `rotate_right_then_left`, the old right child hangs from the new top with its two subtrees. */
  lemma RightLeftLower(t: Shape, parent: LinkMap, above: Option<NodeId>)
    requires t.Node? && t.right.Node? && t.right.left.Node?
    requires Parents(t.right, parent, Some(t.id)) && Parents(t.right.left, parent, Some(t.right.id))
    requires Distinct(t) && Distinct(t.right) && Distinct(t.right.left)
    ensures Parents(Node(t.right.left.right, t.right.id, t.right.right), RightLeftLinks(t, parent, above), Some(t.right.left.id))
  {
    var z, y := t.right.id, t.right.left.id;
    var c, d := t.right.left.right, t.right.right;
    var parent' := RightLeftLinks(t, parent, above);
    assert c.Node? ==> Distinct(c) && c.id !in Ids(c.left) + Ids(c.right);
    Rehung(c, parent, parent', Some(y), z);
    assert Agree(parent, parent', Ids(d));
    ParentsFrame(d, parent, parent', Some(z));
  }

  /** The parent links after `rotate_right_then_left`, in the order it writes them: the tree stays linked. */
  lemma RotateRightLeftParents(p: Path, t: Shape, parent: LinkMap)
    requires t.Node? && t.right.Node? && t.right.left.Node?
    requires Parents(Plug(p, t), parent, None) && Distinct(Plug(p, t))
    ensures var x, z, y := t.id, t.right.id, t.right.left.id;
      Parents(Plug(p, RotatedRightLeft(t)),
        Reparent(Reparent(parent, RootId(t.right.left.right), z)[z := Some(y)], RootId(t.right.left.left), x)[y := ParentId(p)][x := Some(y)],
        None)
  {
    var x, z, y := t.id, t.right.id, t.right.left.id;
    var parent' := Reparent(Reparent(parent, RootId(t.right.left.right), z)[z := Some(y)], RootId(t.right.left.left), x)[y := ParentId(p)][x := Some(y)];
    PlugParents(p, t, parent);
    PlugDistinct(p, t);
    RotateRightLeftParentsLocal(t, parent, ParentId(p));
    var b, c := t.right.left.left, t.right.left.right;
    assert Ids(b) + {y} + Ids(c) <= Ids(t.right) <= Ids(t);
    assert b.Node? ==> b.id in Ids(b);
    assert c.Node? ==> c.id in Ids(c);
    assert Agree(parent, parent', PathIds(p));
    ReplaceParents(p, t, RotatedRightLeft(t), parent, parent');
  }

  /**
    `rotate_left_then_right` at `x`, with `z` its left child and `y` the right
    child of `z`: `y` takes the place of `x`, with `z` and `x` as its children.
   */
  ghost function RotatedLeftRight(t: Shape): (r: Shape)
    requires t.Node? && t.left.Node? && t.left.right.Node?
    ensures InOrder(r) == InOrder(t) && Ids(r) == Ids(t)
  {
    RotatedRight(Node(RotatedLeft(t.left), t.id, t.right))
  }

  lemma RotatedLeftRightDistinct(t: Shape)
    requires t.Node? && t.left.Node? && t.left.right.Node? && Distinct(t)
    ensures Distinct(RotatedLeftRight(t))
  {
    var x, z, y, d := t.id, t.left, t.left.right, t.right;
    var a, b, c := z.left, y.left, y.right;
    assert Distinct(z) && Distinct(y);
    assert Ids(z) == Ids(a) + {z.id} + Ids(b) + {y.id} + Ids(c);
    assert Distinct(Node(a, z.id, b));
    assert Distinct(Node(c, x, d));
  }

  /** Inside the rotated subtree: `z.right`, `y.left`, `x.left` and `y.right` re-pointed, every other link of it kept. */
  lemma RotateLeftRightLocal(t: Shape, left: LinkMap, right: LinkMap, left': LinkMap, right': LinkMap)
    requires t.Node? && t.left.Node? && t.left.right.Node? && Links(t, left, right) && Distinct(t)
    requires var x, z, y := t.id, t.left.id, t.left.right.id;
      && Agree(left, left', Ids(t) - {y, x}) && Agree(right, right', Ids(t) - {z, y})
      && y in left' && left'[y] == Some(z) && x in left' && left'[x] == RootId(t.left.right.right)
      && z in right' && right'[z] == RootId(t.left.right.left) && y in right' && right'[y] == Some(x)
    ensures Links(RotatedLeftRight(t), left', right')
  {
    var z, y, d := t.left, t.left.right, t.right;
    var a, b, c := z.left, y.left, y.right;
    assert Distinct(z) && Distinct(y);
    assert Links(z, left, right) && Links(y, left, right);
    assert Agree(left, left', Ids(a)) && Agree(right, right', Ids(a));
    LinksFrame(a, left, right, left', right');
    assert Agree(left, left', Ids(b)) && Agree(right, right', Ids(b));
    LinksFrame(b, left, right, left', right');
    assert Agree(left, left', Ids(c)) && Agree(right, right', Ids(c));
    LinksFrame(c, left, right, left', right');
    assert Agree(left, left', Ids(d)) && Agree(right, right', Ids(d));
    LinksFrame(d, left, right, left', right');
  }

  /** The child links `rotate_left_then_right` leaves, in the order it writes them. */
  lemma RotateLeftRightLinks(p: Path, t: Shape, left: LinkMap, right: LinkMap)
    requires t.Node? && t.left.Node? && t.left.right.Node?
    requires Links(Plug(p, t), left, right) && Distinct(Plug(p, t))
    ensures var x, z, y := t.id, t.left.id, t.left.right.id;
      && Links(Plug(p, RotatedLeftRight(t)),
           AttachLeft(p, left[y := Some(z)][x := RootId(t.left.right.right)], y),
           AttachRight(p, right[z := RootId(t.left.right.left)], y)[y := Some(x)])
      && Distinct(Plug(p, RotatedLeftRight(t)))
  {
    var x, z, y := t.id, t.left.id, t.left.right.id;
    var left' := AttachLeft(p, left[y := Some(z)][x := RootId(t.left.right.right)], y);
    var right' := AttachRight(p, right[z := RootId(t.left.right.left)], y)[y := Some(x)];
    PlugLinks(p, t, left, right);
    PlugDistinct(p, t);
    assert p.AtRoot? || p.id !in Ids(t);
    RotateLeftRightLocal(t, left, right, left', right');
    RotatedLeftRightDistinct(t);
    assert Agree(AttachLeft(p, left, y), left', PathIds(p));
    assert Agree(AttachRight(p, right, y), right', PathIds(p));
    Replace(p, t, RotatedLeftRight(t), left, right, left', right');
  }

  /** The parent links `rotate_left_then_right` writes, over the links `parent` of `t`. */
  ghost function LeftRightLinks(t: Shape, parent: LinkMap, above: Option<NodeId>): LinkMap
    requires t.Node? && t.left.Node? && t.left.right.Node?
  {
    var x, z, y := t.id, t.left.id, t.left.right.id;
    Reparent(Reparent(parent, RootId(t.left.right.left), z)[z := Some(y)], RootId(t.left.right.right), x)[y := above][x := Some(y)]
  }

  /** The parent links `rotate_left_then_right` leaves inside the rotated subtree, hanging from `above`. */
  lemma RotateLeftRightParentsLocal(t: Shape, parent: LinkMap, above: Option<NodeId>)
    requires t.Node? && t.left.Node? && t.left.right.Node?
    requires Parents(t, parent, above) && Distinct(t)
    ensures Parents(RotatedLeftRight(t), LeftRightLinks(t, parent, above), above)
  {
    assert Distinct(t.left) && Distinct(t.left.right);
    assert Parents(t.left, parent, Some(t.id)) && Parents(t.left.right, parent, Some(t.left.id));
    LeftRightLower(t, parent, above);
    LeftRightUpper(t, parent, above);
  }

  /** After `rotate_left_then_right`, the old left child hangs from the new top with its two subtrees. */
  lemma LeftRightLower(t: Shape, parent: LinkMap, above: Option<NodeId>)
    requires t.Node? && t.left.Node? && t.left.right.Node?
    requires Parents(t.left, parent, Some(t.id)) && Parents(t.left.right, parent, Some(t.left.id))
    requires Distinct(t) && Distinct(t.left) && Distinct(t.left.right)
    ensures Parents(Node(t.left.left, t.left.id, t.left.right.left), LeftRightLinks(t, parent, above), Some(t.left.right.id))
  {
    var x, z, y := t.id, t.left.id, t.left.right.id;
    var a, b := t.left.left, t.left.right.left;
    var parent' := LeftRightLinks(t, parent, above);
    assert b.Node? ==> Distinct(b) && b.id !in Ids(b.left) + Ids(b.right);
    assert Agree(parent, parent', Ids(a));
    ParentsFrame(a, parent, parent', Some(z));
    Rehung(b, parent, parent', Some(y), z);
  }

  /** After `rotate_left_then_right`, the old top hangs from the new top with its two subtrees. */
  lemma LeftRightUpper(t: Shape, parent: LinkMap, above: Option<NodeId>)
    requires t.Node? && t.left.Node? && t.left.right.Node?
    requires Parents(t, parent, above) && Parents(t.left.right, parent, Some(t.left.id))
    requires Distinct(t) && Distinct(t.left) && Distinct(t.left.right)
    ensures Parents(Node(t.left.right.right, t.id, t.right), LeftRightLinks(t, parent, above), Some(t.left.right.id))
  {
    var x, y := t.id, t.left.right.id;
    var c, d := t.left.right.right, t.right;
    var parent' := LeftRightLinks(t, parent, above);
    assert c.Node? ==> Distinct(c) && c.id !in Ids(c.left) + Ids(c.right);
    Rehung(c, parent, parent', Some(y), x);
    assert Agree(parent, parent', Ids(d));
    ParentsFrame(d, parent, parent', Some(x));
  }

  /** The parent links after `rotate_left_then_right`, in the order it writes them: the tree stays linked. */
  lemma RotateLeftRightParents(p: Path, t: Shape, parent: LinkMap)
    requires t.Node? && t.left.Node? && t.left.right.Node?
    requires Parents(Plug(p, t), parent, None) && Distinct(Plug(p, t))
    ensures var x, z, y := t.id, t.left.id, t.left.right.id;
      Parents(Plug(p, RotatedLeftRight(t)),
        Reparent(Reparent(parent, RootId(t.left.right.left), z)[z := Some(y)], RootId(t.left.right.right), x)[y := ParentId(p)][x := Some(y)],
        None)
  {
    var x, z, y := t.id, t.left.id, t.left.right.id;
    var parent' := Reparent(Reparent(parent, RootId(t.left.right.left), z)[z := Some(y)], RootId(t.left.right.right), x)[y := ParentId(p)][x := Some(y)];
    PlugParents(p, t, parent);
    PlugDistinct(p, t);
    RotateLeftRightParentsLocal(t, parent, ParentId(p));
    var b, c := t.left.right.left, t.left.right.right;
    assert Ids(b) + {y} + Ids(c) <= Ids(t.left) <= Ids(t);
    assert b.Node? ==> b.id in Ids(b);
    assert c.Node? ==> c.id in Ids(c);
    assert Agree(parent, parent', PathIds(p));
    ReplaceParents(p, t, RotatedLeftRight(t), parent, parent');
  }

  /**
    The order `__iter__` visits a subtree in: its top first, then the right
    subtree, then the left one (the right child is pushed last, so it is
    popped first). It visits the nodes of the in-order walk, each as often.
   */
  ghost function StackOrder(s: Shape): seq<NodeId> {
    match s
    case Nil => []
    case Node(l, n, r) => [n] + StackOrder(r) + StackOrder(l)
  }

  lemma {:induction false} StackOrderPermutes(s: Shape)
    ensures s.Node? ==> StackOrder(s) != [] && StackOrder(s)[0] == s.id
    ensures multiset(StackOrder(s)) == multiset(InOrder(s))
  {
    if s.Node? {
      StackOrderPermutes(s.left);
      StackOrderPermutes(s.right);
    }
  }

  lemma StackOrderStep(t: Shape, rest: seq<NodeId>)
    requires t.Node?
    ensures StackOrder(t) + rest == [t.id] + (StackOrder(t.right) + (StackOrder(t.left) + rest))
  {
  }

  /** The order the subtrees on a stack are visited in, the last one first. */
  ghost function Pending(stack: seq<Shape>): seq<NodeId> {
    if stack == [] then [] else StackOrder(stack[|stack| - 1]) + Pending(stack[..|stack| - 1])
  }
}
