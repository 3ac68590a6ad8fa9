# scl-python core, modelled in Dafny

The repository is a small library of data structures, written in Python. This
project models its core and proves properties of that model:

- `tree.py` and `binarytree.py`: linked binary trees. Each node has `left`,
  `right` and `parent` links, and the tree keeps `_root`. The operations are
  leftmost/rightmost, in-order `next`/`prev`, insertion-point search, four
  rotations and a stack-based iterator.
- `avltree.py`: the balance factors the four AVL rotations write before the
  structural rotation runs.
- `intervaltree.py`: an unbalanced search tree of closed intervals keyed by
  `stop`. Each node caches the largest `stop` of its subtree in `max`. The
  operations are the rotations, `add`, the overlap query, membership and
  count.
- `graph.py`: a set-valued multidict with a pair count, a directed graph on
  top of it, and Tarjan's strongly connected components algorithm
  (`strongconnect`).
- `util.py` and `intervallist.py`: binary searches, insertion of one element
  and insertion sort, and a list of intervals kept in order of `start`.

How the Python objects become Dafny:

- **Binary trees.** A tree is a class that holds one map per node field:
  `value`, `left`, `right` and `parent`, keyed by node handles, plus `root`.
  A ghost `shape`, a pure tree of handles, is tied to those maps by
  `Links`, `Parents` and `Distinct`. `Valid` means the child links spell
  the shape; `Linked` also requires every parent link to be right.
  - Every rotation states its new fields exactly and says that the in-order
    sequence of nodes is unchanged.
  - `next` and `prev` are proved to return the in-order successor and
    predecessor.
  - A rotation receives the position of its node (path and subtree) as ghost
    arguments.
- **Inheritance becomes composition.** `AVLTree` and `IntervalTree` hold the
  binary tree as a `const tree` and add their own per-node map (`balance`,
  `max`). A call to `super().rotate_x` becomes a call to `tree.RotateX`.
- **Interval caches.** The module `Intervals` defines `SubtreeMax` and
  `Cached`, the property that every cache holds its subtree's largest
  `stop`. The interval tree's methods are proved to keep `Cached`, or are
  shown not to keep it.
- **Tarjan's algorithm.** It is a class over the algorithm's own state:
  `mapping` of `Data` records, the `index` counter, `stack`, and the
  components found so far. The result is:
  - every vertex lies in exactly one component;
  - no component is empty;
  - any two vertices of one component reach each other;
  - two vertices that reach each other lie in the same component, so every
    component is a maximal strongly connected set;
  - the components come in reverse topological order.
  The class invariant carries, besides the bookkeeping, the reachability
  facts behind the algorithm: the vertices whose visits are running reach
  every later-numbered vertex, and every vertex on the stack reaches the
  vertex its low link names.
- **Shared binary searches.** The binary searches are generic over the
  element type, with an integer key. The copies in `intervallist.py`
  (lines 17-72) have the same code as those in `util.py`, so they are
  modelled once, in `Util`. `IntervalList.Add` calls `Util.BinarySearchRight`.

Keys and points are `int`. A generator becomes a method that returns the
sequence of everything it yields. An exception (`nonnull` failing,
`NotImplementedError`) becomes a precondition or a result value, as each row
below says.

## Model

| member | source | states |
|---|---|---|
| Util.NonNull | src/scl/util.py:19-21 | defined only for a present value, and returns exactly that value |
| Util.Slot | src/scl/util.py:43-46 | the shifting loop stops at the first index from the right whose predecessor's key is not larger than the moved key: every element it passes has a strictly larger key |
| Util.MovedAt | src/scl/util.py:41-47 | the moved array, element by element: the prefix before the slot and the suffix after `i` are unchanged, the slot holds `x`, and the elements in between shift up by one |
| Util.MovedDownPermutes | src/scl/util.py:36-47 | `sort_inserted` keeps the multiset of elements |
| Util.MovedDownSorts | src/scl/util.py:36-47 | if `elements[0..i)` is sorted by key, then `elements[0..i]` is sorted after the move |
| Util.SortInserted | src/scl/util.py:36-47 | the array afterwards is `elements[i]` moved down past every earlier element with a strictly larger key; together with the two lemmas above, the prefix becomes sorted, the multiset is kept, equal keys keep their order and the rest is untouched |
| Util.InsertionSort | src/scl/util.py:50-59 | the array ends sorted by its natural order and is a permutation of the input, whatever `key` is passed, because `key` is never handed to `sort_inserted` |
| Util.BinarySearchLeft | src/scl/util.py:62-77 | `0 <= r <= len`; on sorted input every key before `r` is below the needle and every key from `r` on is at least the needle |
| Util.BinarySearchRight | src/scl/util.py:80-95 | `0 <= r <= len`; on sorted input every key before `r` is at most the needle and every key from `r` on is above it, so `r` is the count of keys at most the needle, not the index the doc-comment names |
| Util.BinarySearch | src/scl/util.py:98-115 | the result is `-1` or an index whose key equals the needle; on sorted input `-1` means no key equals it |
| Util.InsertAtShape | src/scl/intervallist.py:100 | `list.insert(i, v)`: one longer, `v` at `i`, the old elements around it in order, the multiset gains `v` |
| Util.InsertAtSorted | src/scl/intervallist.py:99-100 | inserting at a position with no larger key before it and no smaller key after it keeps the list sorted |
| IntervalLists.CountSplits | src/scl/intervallist.py:36-51 | on a start-sorted list the count of starts at most `x` splits it: those starts come first, larger ones after |
| IntervalLists.SplitIsCount | src/scl/intervallist.py:36-51 | any index that splits a list that way is that count, so the binary search finds it |
| IntervalLists.InsertedKeepsOrder | src/scl/intervallist.py:95-100 | inserting keeps the list sorted by start, adds exactly the new interval, and places it after every old interval with a start no larger and before every larger one, the old ones keeping their relative order |
| IntervalLists.AddAllKeepsOrder | src/scl/intervallist.py:77-82 | adding values one by one keeps the list sorted and holds exactly the old intervals plus the values |
| IntervalLists.IntervalList.constructor | src/scl/intervallist.py:77-82 | the list holds the given values added one by one in order, and is sorted |
| IntervalLists.IntervalList.Add | src/scl/intervallist.py:95-100 | the list stays sorted, becomes the old list with the value inserted after every start at most its own, and its length grows by one |
| IntervalLists.IntervalList.Contains | src/scl/intervallist.py:84-93 | false for a non-interval and true for every interval, whatever the list holds |
| IntervalLists.IntervalList.Len | src/scl/intervallist.py:108-109 | the number of stored intervals, duplicates included |
| IntervalLists.IntervalList.Discard | src/scl/intervallist.py:105-106 | always fails as not implemented |
| Graphs.PairsOfAdd | src/scl/graph.py:17-24 | adding `v` under `k` adds exactly the pair `(k, v)` to the stored pairs |
| Graphs.PairsOfRemove | src/scl/graph.py:40-47 | removing `v` from `k`'s set removes exactly the pair `(k, v)` |
| Graphs.PairsOfRemoveKey | src/scl/graph.py:34-38 | dropping key `k` removes exactly `k`'s pairs, and the pair count falls by the size of `k`'s set |
| Graphs.MultiDict.constructor | src/scl/graph.py:12-15 | an empty mapping with count 0 |
| Graphs.MultiDict.Add | src/scl/graph.py:17-24 | the pairs gain `(k, v)`; the count rises by one only if the pair was new (so adding twice changes nothing); the count stays the number of stored pairs |
| Graphs.MultiDict.Has | src/scl/graph.py:26-28 | true exactly when the pair is stored |
| Graphs.MultiDict.Count | src/scl/graph.py:30-32 | the number of pairs with key `k` (0 for an absent key) |
| Graphs.MultiDict.RemoveKey | src/scl/graph.py:34-38 | removes exactly `k`'s pairs and lowers the count by the size of `k`'s set |
| Graphs.MultiDict.Remove | src/scl/graph.py:40-47 | removes the pair and lowers the count by one only if the pair was stored |
| Graphs.MultiDict.Get | src/scl/graph.py:49-50 | the values stored under the key, empty for an absent key |
| Graphs.MultiDict.Len | src/scl/graph.py:52-53 | the number of stored pairs |
| Graphs.Graph.constructor | src/scl/graph.py:69-73 | no vertices, no edges |
| Graphs.Graph.AddVertex | src/scl/graph.py:75-76 | adds the vertex; edges and the edge count are unchanged |
| Graphs.Graph.HasVertex | src/scl/graph.py:78-79 | true exactly for a vertex of the graph |
| Graphs.Graph.CountVertices | src/scl/graph.py:81-82 | the number of vertices |
| Graphs.Graph.RemoveVertex | src/scl/graph.py:88-101 | an absent vertex changes nothing; otherwise the vertex and every edge into or out of it go, a self-loop counted once, and the edge count falls by exactly that number and stays the number of edges |
| Graphs.Graph.EdgesInto | src/scl/graph.py:93-97 | the edges from other vertices into `v`, each once |
| Graphs.Graph.RemoveEach | src/scl/graph.py:99-100 | removes exactly the listed edges, the pair count falling by their number; `v`'s own out-edges are untouched |
| Graphs.RemovalAccounting | src/scl/graph.py:93-101 | the edges collected into `v` plus `v`'s out-edges are exactly the edges touching `v`, and their count is the number removed |
| Graphs.Graph.AddEdge | src/scl/graph.py:103-108 | both endpoints become vertices; the edge is added and the count rises by one only if the edge was new |
| Graphs.Graph.Store | src/scl/graph.py:106-108 | the edge set gains the pair; the count rises by one exactly when the pair was not already an edge, and stays equal to the stored pairs |
| Graphs.Graph.CountEdges | src/scl/graph.py:110-111 | the number of edges |
| Graphs.Graph.RemoveEdge | src/scl/graph.py:113-116 | the edge is removed and the count falls by one only if it existed; vertices are unchanged |
| Graphs.Graph.HasEdge | src/scl/graph.py:118-119 | true exactly for a stored edge |
| Graphs.Graph.GetOutVertices | src/scl/graph.py:121-122 | exactly the targets of the vertex's out-edges |
| StrongConnect.EdgesClosed | src/scl/graph.py:103-108 | every edge of a graph joins two of its vertices, since `add_edge` adds both endpoints |
| StrongComponents.PushKeepsInv | src/scl/graph.py:151-156 | numbering a new vertex and pushing it keeps the invariant: indices below the counter, `low_link <= index`, stack ordered by index, on-stack flags exactly the stack |
| StrongComponents.LowerKeepsInv | src/scl/graph.py:163-165 | lowering the low link of an active vertex to a value not below the stack bottom's index keeps the invariant |
| StrongComponents.SuccessorOnStack | src/scl/graph.py:164-165 | a successor already on the stack lowers `v`'s low link to its index, within the invariant |
| StrongComponents.SuccessorFinished | src/scl/graph.py:158-165 | a successor already assigned to a component leaves `v`'s record as it is |
| StrongComponents.ChildReturned | src/scl/graph.py:160-163 | after the recursive visit of `w`, taking the minimum with `w`'s low link keeps the invariant and the visit's progress |
| StrongComponents.PopKeepsInv | src/scl/graph.py:167-176 | popping the stack down to `v` and clearing the flags keeps the invariant |
| StrongComponents.PopKeepsTopological | src/scl/graph.py:167-176 | the popped component's out-edges lead only to components already yielded or to itself, so the order stays reverse topological |
| StrongComponents.LeftPopped | src/scl/graph.py:167-176 | when `low_link == index` the popped segment starts at `v`, and popping it completes `v`'s visit |
| StrongComponents.LeftOnStack | src/scl/graph.py:167 | when `low_link != index` nothing is popped and `v`'s visit is complete |
| StrongComponents.TopLevelVisit | src/scl/graph.py:178-180 | a visit started with an empty stack ends with an empty stack, every vertex it reached numbered |
| StrongComponents.Finished | src/scl/graph.py:178-180 | once every vertex is numbered and the stack is empty, the components cover all vertices, are non-empty and pairwise disjoint, and come in reverse topological order |
| StrongConnect.Tarjan.constructor | src/scl/graph.py:137-139 | empty mapping, index 0, empty stack, no components |
| StrongConnect.Tarjan.PopComponent | src/scl/graph.py:168-176 | pops the stack down to and including `v`, clears their flags and returns exactly the popped vertices |
| StrongConnect.Tarjan.Examine | src/scl/graph.py:158-165 | handles one successor `w` (visit it if unnumbered, else lower the low link if it is on the stack) and keeps the invariant |
| StrongConnect.Tarjan.Leave | src/scl/graph.py:167-176 | the end of `visit`: pops a component when `low_link == index`; the visit's effect is complete and the invariant holds |
| StrongConnect.Tarjan.PopVisited | src/scl/graph.py:167-176 | pops `v`'s component, appends it to the components, ends `v`'s visit and keeps the whole invariant, reachability facts included |
| StrongConnect.Tarjan.Leaving | src/scl/graph.py:167 | after all successors, the root test `low_link == index` decides between the popping and non-popping endings |
| StrongConnect.Tarjan.Visit | src/scl/graph.py:148-176 | `visit(v)` numbers `v`, visits its successors and yields the components it closes, keeping the invariant |
| StrongConnect.Components | src/scl/graph.py:129-180 | the yielded sets cover every vertex, are non-empty and pairwise disjoint; any two vertices of one set reach each other, and two vertices that reach each other are in the same set (each set is a strongly connected component); each comes after every component reachable from it (reverse topological order) |
| TarjanState.ReachTrans | src/scl/graph.py:158-165 | reachability along out-edges is transitive |
| ComponentReach.PushConnected | src/scl/graph.py:151-156 | numbering and pushing a vertex that every running visit reaches keeps the reachability invariant |
| ComponentReach.ActiveReach | src/scl/graph.py:158-161 | every running visit reaches the successor `w` of the vertex being visited |
| ComponentReach.ChildConnected | src/scl/graph.py:160-163 | after the visit of an unnumbered successor, taking the minimum with its low link keeps the reachability invariant |
| ComponentReach.OnStackConnected | src/scl/graph.py:164-165 | lowering the low link to the index of a successor on the stack keeps the reachability invariant |
| ComponentReach.LowerConnected | src/scl/graph.py:163-165 | lowering a low link to the index of a stack vertex it reaches keeps the reachability invariant |
| ComponentReach.LeaveConnected | src/scl/graph.py:167 | a vertex whose low link is below its index reaches an earlier running visit, so ending its visit without popping keeps the invariant |
| ComponentReach.PoppedReach | src/scl/graph.py:168-176 | any two vertices of the popped stack segment reach each other |
| ComponentReach.PopConnected | src/scl/graph.py:167-176 | popping the segment from `v` up keeps the reachability invariant and adds a strongly connected component |
| ComponentReach.ReachEarlier | src/scl/graph.py:129-180 | in reverse topological order, whatever a component's vertex reaches lies in that component or an earlier one |
| ComponentReach.ComponentsMaximal | src/scl/graph.py:129-180 | of disjoint components in reverse topological order, two vertices that reach each other lie in the same component |
| Shapes.Leftmost | src/scl/binarytree.py:22-26 | the leftmost node is the first of the subtree's in-order sequence |
| Shapes.Rightmost | src/scl/binarytree.py:28-32 | the rightmost node is the last of the subtree's in-order sequence |
| Shapes.SuccessorBelow | src/scl/binarytree.py:36-37 | a node with a right child is followed, in order, by the leftmost node of that child |
| Shapes.SuccessorAbove | src/scl/binarytree.py:38-44 | the last node of a subtree that is not a right child is followed by the subtree's parent, or by nothing at the root |
| Shapes.PredecessorBelow | src/scl/binarytree.py:48-49 | a node with a left child is preceded by the rightmost node of that child |
| Shapes.PredecessorAbove | src/scl/binarytree.py:50-56 | the first node of a subtree that is not a left child is preceded by its parent, or by nothing at the root |
| Shapes.RotatedLeft | src/scl/binarytree.py:90-110 | the left-rotated shape has the same nodes in the same in-order sequence |
| Shapes.RotatedRight | src/scl/binarytree.py:112-133 | the right-rotated shape has the same nodes in the same in-order sequence |
| Shapes.RotatedRightLeft | src/scl/binarytree.py:135-166 | the right-left rotated shape has the same nodes in the same in-order sequence |
| Shapes.RotatedLeftRight | src/scl/binarytree.py:168-199 | the left-right rotated shape has the same nodes in the same in-order sequence |
| Shapes.StackOrderPermutes | src/scl/binarytree.py:201-212 | the iterator's order starts at the root and visits every node exactly once (a permutation of the in-order sequence) |
| BinaryTrees.BinaryTree.constructor | src/scl/binarytree.py:65-74 | an empty tree (`_root` is None) with the given key function |
| BinaryTrees.BinaryTree.NewNode | src/scl/tree.py:9-12 | a fresh node holding the value, with no parent and no children; the tree is unchanged |
| BinaryTrees.BinaryTree.Root | src/scl/tree.py:15-21 | for any parent links, consistent or not, under which the walk from the node ends: returns the last node of that walk, which has no parent; a node without a parent, in the tree or detached, is its own root; with consistent links, a node of the tree reaches the tree's root |
| BinaryTrees.RotatedRootOwnRoot | src/scl/binarytree.py:90-110 | after `rotate_left` at the tree's root, the parent walk from the old root stops at once, so `root()` answers the old root although the tree's root is now its old right child |
| BinaryTrees.BinaryTree.GetLeftmost | src/scl/binarytree.py:22-26 | returns the leftmost node of the subtree, which has no left child |
| BinaryTrees.BinaryTree.GetRightmost | src/scl/binarytree.py:28-32 | returns the rightmost node of the subtree, which has no right child |
| BinaryTrees.BinaryTree.Next | src/scl/binarytree.py:35-44 | returns the in-order successor of the node, or None for the last node |
| BinaryTrees.BinaryTree.Prev | src/scl/binarytree.py:47-56 | returns the in-order predecessor of the node, or None for the first node |
| BinaryTrees.BinaryTree.GetAddHint | src/scl/binarytree.py:76-88 | None exactly for an empty tree; otherwise a node on the key's search path with no left child if the key is smaller and no right child if it is larger, at a position the key fits |
| BinaryTrees.PlugInserted | src/scl/binarytree.py:76-88 | inserting a key into a subtree it fits is inserting it into the whole tree |
| BinaryTrees.HungIsInserted | src/scl/intervaltree.py:117-122 | hanging a leaf under the node the hint search returns, on the side its key says, is search-tree insertion of that leaf |
| BinaryTrees.InsertedKeeps | src/scl/intervaltree.py:111-124 | insertion of a new key adds exactly the new node to the tree's nodes |
| BinaryTrees.FitsOnSearchPath | src/scl/binarytree.py:80-87 | a node on the key's search path inside a subtree the key fits is on the search path of the whole tree |
| BinaryTrees.RotateLeftFields | src/scl/binarytree.py:94-109 | the field writes of `rotate_left`, in source order, relink the tree as the left rotation describes |
| BinaryTrees.RotateLeftSpells | src/scl/binarytree.py:94-109 | those child links spell the rotated shape, with the same nodes in the same in-order sequence |
| BinaryTrees.RotateLeftParentLinks | src/scl/binarytree.py:105-109 | after `rotate_left` the parent links are wrong (the old node keeps its old parent), and setting `node.parent` to the new top makes them right |
| BinaryTrees.RotateRightFields | src/scl/binarytree.py:116-132 | the field writes of `rotate_right`, in source order, relink the tree as the right rotation describes |
| BinaryTrees.RotateRightSpells | src/scl/binarytree.py:116-132 | those child links spell the rotated shape, with the same nodes in the same in-order sequence |
| BinaryTrees.RotateRightThenLeftFields | src/scl/binarytree.py:137-164 | the field writes of `rotate_right_then_left`, in source order, relink the tree as the double rotation describes |
| BinaryTrees.RotateRightThenLeftSpells | src/scl/binarytree.py:137-164 | those child links spell the rotated shape, with the same nodes in the same in-order sequence |
| BinaryTrees.RotateLeftThenRightFields | src/scl/binarytree.py:170-197 | the field writes of `rotate_left_then_right`, in source order, relink the tree as the double rotation describes |
| BinaryTrees.RotateLeftThenRightSpells | src/scl/binarytree.py:170-197 | those child links spell the rotated shape, with the same nodes in the same in-order sequence |
| BinaryTrees.BinaryTree.RotateLeft | src/scl/binarytree.py:90-110 | as written: returns the old right child, which takes the node's place under its parent or as `_root`; the node's right becomes the old `right.left`, whose parent becomes the node; the in-order sequence is unchanged, but the node's own parent link is left stale, so the parent links no longer match |
| BinaryTrees.BinaryTree.RotateLeftLinked | src/scl/binarytree.py:90-110 | the same rotation with `node.parent` set to the new top: all links consistent, in-order sequence unchanged |
| BinaryTrees.BinaryTree.RotateRight | src/scl/binarytree.py:112-133 | returns the old left child, which takes the node's place; every link is stated, all parent links are consistent and the in-order sequence is unchanged |
| BinaryTrees.BinaryTree.RotateRightThenLeft | src/scl/binarytree.py:135-166 | `y = x.right.left` replaces `x`, with `y.left == x`, `y.right == z`, `x.right ==` old `y.left`, `z.left ==` old `y.right`; all links consistent, in-order sequence unchanged |
| BinaryTrees.BinaryTree.RotateLeftThenRight | src/scl/binarytree.py:168-199 | the mirror image: `y = x.left.right` replaces `x`; all links consistent, in-order sequence unchanged |
| BinaryTrees.BinaryTree.PlantRoot | src/scl/intervaltree.py:113-114 | an empty tree gets the node as its root; no parent link is read, and afterwards all links are consistent |
| BinaryTrees.BinaryTree.Hang | src/scl/intervaltree.py:117-122 | the node becomes the left or right child of the parent, replacing whatever was there, and its parent link is set; no parent link is read, and consistent parent links stay consistent |
| BinaryTrees.HangIds | src/scl/intervaltree.py:117-122 | after hanging, the tree's nodes plus the displaced subtree's nodes are the old nodes plus the new one, and the two parts share none |
| BinaryTrees.BinaryTree.Values | src/scl/binarytree.py:201-212 | yields the value of every node in the stack order: the root first, then the right subtree's order, then the left's, each node exactly once |
| BinaryTrees.BinaryTree.PushChildren | src/scl/binarytree.py:209-212 | the stack gains the left child, if any, and then the right child, if any, of the popped node |
| AVLTrees.LeftRuleBalances | src/scl/avltree.py:21-31 | when the node is right-heavy by 2 and its right child's balance is 0 or +1, the rule's balances are the true height balances after the left rotation |
| AVLTrees.RightRuleBalances | src/scl/avltree.py:33-43 | the mirror image for the right rotation |
| AVLTrees.RightLeftRuleBalances | src/scl/avltree.py:45-61 | in the right-left case the rule, applied to `x`, `z = x.right` and `y = z.left`, gives the true balances after the double rotation |
| AVLTrees.LeftRightRuleBalances | src/scl/avltree.py:63-79 | in the left-right case the rule, applied to `x`, `z = x.left` and `y = z.right`, gives the true balances after the double rotation |
| AVLTrees.RightLeftCaseHasNoLeftChild | src/scl/avltree.py:46-47 | in the smallest right-left case `x` has no left child, so reading `z` from `x.left` fails |
| AVLTrees.AVLTree.constructor | src/scl/binarytree.py:65-74 | `AVLTree` inherits `BinaryTree.__init__`: an empty tree with the given key and no balance factors |
| AVLTrees.AVLTree.NewNode | src/scl/avltree.py:10-12 | a new node has balance 0 |
| AVLTrees.AVLTree.RotateLeft | src/scl/avltree.py:21-31 | balances become (+1, -1) when the right child's balance is 0, else (0, 0), no other balance changes, then the base rotation runs unchanged; in the rotation case the written balances are the true ones |
| AVLTrees.AVLTree.RotateRight | src/scl/avltree.py:33-43 | balances become (-1, +1) when the left child's balance is 0, else (0, 0), then the base rotation; in the rotation case the written balances are the true ones |
| AVLTrees.AVLTree.RotateRightThenLeft | src/scl/avltree.py:45-61 | as written: `z` and `y` are read as `x.left` and `x.left.right`; when they are missing it fails and nothing changes, otherwise those nodes get the rule's balances (0/-1/0 for `x`, 0/0/+1 for `z`, 0 for `y`) while the base rotation restructures `x.right` and `x.right.left` |
| AVLTrees.AVLTree.RotateRightThenLeftOnRight | src/scl/avltree.py:45-61 | the same rule applied to `x.right` and `x.right.left`, the nodes that are rotated; in the right-left case the written balances are the true ones |
| AVLTrees.AVLTree.RotateLeftThenRight | src/scl/avltree.py:63-79 | `z = x.left`, `y = z.right` get the rule's balances (0/+1/0 for `x`, 0/0/-1 for `z`, 0 for `y`), no other balance changes, then the base rotation; in the left-right case they are the true balances |
| Intervals.OverlapsSymmetric | src/scl/intervaltree.py:27-29 | `overlaps` is symmetric |
| Intervals.OverlapsShared | src/scl/intervaltree.py:27-29 | two well-formed closed intervals overlap exactly when they share a point, touching endpoints included |
| Intervals.SubtreeMaxIsMax | src/scl/intervaltree.py:38-46 | the subtree maximum is the largest `stop` in the subtree and is some node's `stop` |
| Intervals.Refresh | src/scl/intervaltree.py:38-46 | `update_max` gives at least the node's `stop` and each present child's `max`, and equals one of them |
| Intervals.RefreshCaches | src/scl/intervaltree.py:38-46 | with correct caches in both children, `update_max` makes the node's cache correct |
| Intervals.RotatedLeftCached | src/scl/intervaltree.py:74-81 | after a left rotation, refreshing the old node and then the new top makes every cache of a correctly cached tree correct |
| Intervals.RotatedRightCached | src/scl/intervaltree.py:83-90 | the same for the right rotation |
| Intervals.RotatedRightLeftCached | src/scl/intervaltree.py:92-93 | after a right-left rotation, refreshing the two lower nodes and then the new top keeps every cache correct |
| Intervals.RotatedLeftRightCached | src/scl/intervaltree.py:95-96 | the same for the left-right rotation |
| Intervals.DoubleRotationStale | src/scl/intervaltree.py:92-96 | a correctly cached tree becomes wrongly cached when a double rotation leaves every `max` as it was |
| Intervals.ContainsStop | src/scl/intervaltree.py:146-154 | the search of `__contains__` as written: any node it stops at has the searched stop |
| Intervals.SearchStop | src/scl/intervaltree.py:146-154 | the search turned the right way round: any node it stops at has the searched stop |
| Intervals.SearchStopComplete | src/scl/intervaltree.py:146-154 | in a search tree keyed by stop, the search turned the right way round finds the node holding the stop when no other node has that stop |
| Intervals.SearchIntervalComplete | src/scl/intervaltree.py:146-154 | in a search tree keyed by stop, the corrected search, which also goes right past an equal stop holding another interval, finds every stored interval, however many nodes share its stop |
| Intervals.PlugPlaced | src/scl/intervaltree.py:111-124 | placing the new node below the end of a path the corrected descent follows places it in the whole tree |
| Intervals.PlacedIds | src/scl/intervaltree.py:111-124 | the corrected placement loses no node: the tree gains exactly the new one |
| Intervals.PlacedOrdered | src/scl/intervaltree.py:111-124 | placing a fresh node with its interval keeps a search tree on `stop` a search tree |
| Intervals.ContainsStopMisses | src/scl/intervaltree.py:149-152 | the search as written misses a stop that is present in a search tree |
| Intervals.Descend | src/scl/intervaltree.py:127-133 | where the pruned descent of `overlapping` stops: a node whose interval overlaps the query, or none |
| Intervals.DescendMisses | src/scl/intervaltree.py:127-133 | on an ordered, correctly cached tree the descent finds nothing although an interval overlaps the query |
| Intervals.RunIsPrefix | src/scl/intervaltree.py:134-138 | the second loop yields the intervals of a prefix of the walk, all but the last overlapping, and stops early only after yielding a non-overlapping one |
| Intervals.OverlappedRun | src/scl/intervaltree.py:126-138 | `overlapping` yields nothing exactly when the descent finds nothing; otherwise it yields the intervals of consecutive in-order nodes from the one found, the first overlapping, all but the last overlapping, stopping early only after a non-overlapping one |
| Intervals.OverlappedYieldsNonOverlapping | src/scl/intervaltree.py:134-138 | on an ordered, correctly cached tree `overlapping` yields an interval that does not overlap the query |
| Intervals.OverlapsInExactly | src/scl/intervaltree.py:126-138 | the corrected query yields an interval exactly when it overlaps the query and belongs to a node of the tree |
| IntervalTrees.AddDropsRightChild | src/scl/intervaltree.py:111-124 | with an equal stop at the root and a right child, the hint is the root and the new leaf replaces the right subtree, which drops out of the tree |
| IntervalTrees.AddLeavesMaxStale | src/scl/intervaltree.py:111-124 | adding under a node leaves that node's cache smaller than its subtree's largest stop |
| IntervalTrees.IntervalTree.constructor | src/scl/intervaltree.py:67-72 | adds each value in turn without a hint: the count and the number of nodes are the number of values, the `i`-th value is stored under node `i`, and the shape is the search-tree insertion of the values in order |
| IntervalTrees.IntervalTree.NewNode | src/scl/intervaltree.py:34-36 | a new node caches its own `stop` |
| IntervalTrees.IntervalTree.UpdateMax | src/scl/intervaltree.py:38-46 | the node's cache becomes the largest of its `stop` and its children's caches; nothing else changes |
| IntervalTrees.IntervalTree.RotateLeft | src/scl/intervaltree.py:74-81 | the base rotation, then `update_max` on the old node and on the new top; a correctly cached tree stays correctly cached (the stale parent link comes from the base rotation) |
| IntervalTrees.IntervalTree.RotateRight | src/scl/intervaltree.py:83-90 | the same for the right rotation, all links consistent |
| IntervalTrees.IntervalTree.RefreshLowerLeft | src/scl/intervaltree.py:79-80 | after a left rotation, the old top (now the left child) gets its `max` recomputed from its new children, then the new top from its own |
| IntervalTrees.IntervalTree.RefreshLowerRight | src/scl/intervaltree.py:88-89 | the mirror image after a right rotation |
| IntervalTrees.IntervalTree.RotateRightThenLeft | src/scl/intervaltree.py:92-93 | the base double rotation with every `max` unchanged |
| IntervalTrees.IntervalTree.RotateLeftThenRight | src/scl/intervaltree.py:95-96 | the base double rotation with every `max` unchanged |
| IntervalTrees.IntervalTree.RefreshTop | src/scl/intervaltree.py:38-46 | `update_max` of the two lower nodes of a double rotation and then of the top: each cache becomes what `update_max` computes from the caches before it |
| IntervalTrees.IntervalTree.RotateRightThenLeftRefreshing | src/scl/intervaltree.py:92-93 | the double rotation followed by refreshing the three moved nodes keeps a correctly cached tree correctly cached |
| IntervalTrees.IntervalTree.RotateLeftThenRightRefreshing | src/scl/intervaltree.py:95-96 | the same for the left-right rotation |
| IntervalTrees.IntervalTree.GetAddHint | src/scl/intervaltree.py:98-109 | None exactly for an empty tree; otherwise a node on the stop's search path with no left child if the stop is smaller and no right child if it is larger, at a position the stop fits |
| IntervalTrees.IntervalTree.Add | src/scl/intervaltree.py:111-124 | the new node becomes the root of an empty tree, or hangs under the hint (or the node the hint search finds) on the left iff its stop is smaller, in place of whatever child was there; without a hint the new shape is search-tree insertion of the new node; count rises by one; only the new node's `max` is set; consistent parent links stay consistent |
| IntervalTrees.IntervalTree.Attach | src/scl/intervaltree.py:113-124 | the part of `add` after the parent is chosen: plants the new node in an empty tree or hangs it under the parent, on the left iff its stop is smaller; consistent parent links stay consistent |
| IntervalTrees.IntervalTree.PlantNew | src/scl/intervaltree.py:113-116 | an empty tree gets the new node as root; count rises by one |
| IntervalTrees.IntervalTree.HangNew | src/scl/intervaltree.py:117-124 | the new node hangs under the parent on the left iff its stop is smaller, in place of whatever child was there; count rises by one; consistent parent links stay consistent |
| IntervalTrees.IntervalTree.Addi | src/scl/intervaltree.py:140-141 | adds the interval built from the three arguments under a fresh node without a hint: the shape becomes the search-tree insertion of that node; count rises by one |
| IntervalTrees.IntervalTree.Descent | src/scl/intervaltree.py:127-133 | the first loop of `overlapping` stops where the pruned descent does |
| IntervalTrees.IntervalTree.RunFrom | src/scl/intervaltree.py:134-138 | the second loop yields the run along the in-order successors from its start node |
| IntervalTrees.IntervalTree.Overlapping | src/scl/intervaltree.py:126-138 | as written: yields exactly what the pruned descent followed by the run along `next` gives |
| IntervalTrees.IntervalTree.OverlappingAll | src/scl/intervaltree.py:126-138 | the corrected query: yields, in order, exactly the stored intervals that overlap the query |
| IntervalTrees.IntervalTree.Contains | src/scl/intervaltree.py:143-155 | as written: false for a non-interval; true exactly when the search that goes left past smaller stops ends at a node whose value equals the argument |
| IntervalTrees.IntervalTree.ContainsSearching | src/scl/intervaltree.py:143-155 | the corrected search, going left past larger stops and right past smaller ones and past an equal stop holding another interval: false for a non-interval, and on a search tree keyed by stop true exactly when some node of the tree holds the interval |
| IntervalTrees.IntervalTree.Len | src/scl/intervaltree.py:157-158 | the number of `add` calls made |
| IntervalTrees.IntervalTree.Discard | src/scl/intervaltree.py:160-161 | always fails as not implemented |
| IntervalTrees.IntervalTree.FreeSlot | src/scl/intervaltree.py:98-109 | the corrected hint search: None exactly for an empty tree; otherwise a node at the end of the stop's search path (left past larger stops, right past the others), whose left slot is free if the stop is smaller and whose right slot is free if it is not |
| IntervalTrees.HungIsPlaced | src/scl/intervaltree.py:117-122 | hanging the new leaf under the node the corrected search returns, on the side its stop says, is placing it at the end of the search path |
| IntervalTrees.IntervalTree.RefreshUp | src/scl/intervaltree.py:38-46 | calling `update_max` on a node and each ancestor up to the root makes every cache correct again |
| IntervalTrees.IntervalTree.HangRefreshing | src/scl/intervaltree.py:117-124 | hanging a leaf in a free slot, the rest of the tree as it was, and refreshing its ancestors keeps the tree correctly cached |
| IntervalTrees.IntervalTree.AddRefreshing | src/scl/intervaltree.py:111-124 | the corrected `add`: on a correctly cached tree it places one new node holding the value at the end of the stop's search path, every other link as it was, drops no node, raises the count by one, leaves every cache correct and keeps a search tree on `stop` a search tree |

## Left out

- Keys given by attribute name or callable (`lift_key` and the `getattr` key of `BinaryTree.__init__`) are reflection. A key is a Dafny function `V -> int`, fixed when the tree is built.
- `print` in `IntervalList.__contains__` and `dump_graph` are console output and are not modelled.
- The `TypeIs` helpers that always return true, `cast`, the `Comparable`/`PointLike` protocols and the type parameters for points are type-checker plumbing. Points are `int`, and the asserts on those helpers are dropped.
- Generators (`strongconnect`, `visit`, `overlapping`, `__iter__`) are methods that return the sequence of everything yielded. Suspension and resumption are not modelled.
- Set and dict iteration order in `graph.py` is unspecified. The model iterates sets in an arbitrary order and proves its results for every order.
- Nodes are handles into per-field maps rather than objects, so object identity and aliasing beyond the tree's own links are not modelled. Each rotation and `next`/`prev` needs the tree's links to be consistent, and the node's position is passed as ghost arguments.
- A failing `nonnull` (an `AssertionError`) becomes a precondition on the rotations. The one exception is `AVLTrees.AVLTree.RotateRightThenLeft`, where that failure is a real case, so it is the `None` result.
- `BinaryTrees.BinaryTree.Root`: the walk along `parent` links must end, which the caller shows with the ghost sequence of nodes it visits. On a cycle of parent links the source loops forever, which the model does not describe.
- `IntervalTrees.IntervalTree.Add`: the hint must be a node of the tree. A foreign node or object as hint is not modelled.
- The `IntervalTree` base key: `IntervalTree.__init__` keeps the identity key of `BinaryTree`, which no interval-tree operation uses. The model builds the tree with the `stop` key that `get_add_hint` and `add` use instead.
- `IntervalLists.IntervalList.Contains` is modelled as written, answering true for every interval. `test_intervallist.py` (lines 14-16) expects false for an interval that was never added. The source leaves the intended test unwritten (a TODO), so no corrected version is modelled.
- AVL insertion and retracing, tree deletion and `IntervalTree.discard` do not exist in the source. `discard` is modelled as the not-implemented failure.
- `BinaryTree.add` is abstract. It is modelled only through `IntervalTree.add`.
- `GraphVertices` is a read-only view of the vertex set. It is modelled as the set itself.

## Findings

| source | as written | input that shows it | evidently intended | confidence | as-written member | corrected member |
|---|---|---|---|---|---|---|
| src/scl/binarytree.py:105-109 | `rotate_left` never sets `node.parent`, so the rotated node keeps its old parent | any left rotation, e.g. root 1 with right child 2: afterwards 1 is 2's left child but 1's parent is still None | `node.parent = right`, as `rotate_right` does at line 128 | high; not executed | BinaryTrees.BinaryTree.RotateLeft | BinaryTrees.BinaryTree.RotateLeftLinked |
| src/scl/avltree.py:46-47 | `rotate_right_then_left` reads `z` and `y` from `x.left` and `x.left.right`, but the base rotation moves `x.right` and `x.right.left` | `x` = 1 with right child 3 whose left child is 2 (the basic right-left case): `x.left` is None and `nonnull` fails | `z = x.right`, `y = z.left` | high; not executed | AVLTrees.RightLeftCaseHasNoLeftChild | AVLTrees.AVLTree.RotateRightThenLeftOnRight |
| src/scl/intervaltree.py:149-152 | `__contains__` goes left when the node's stop is smaller than the key, the opposite of where `add` puts larger stops | add [0, 1] then [0, 2]; `Interval(0, 2) in tree` searches left of [0, 1] and answers False | go right past smaller stops, left past larger, and right past an equal stop holding another interval | high; not executed | Intervals.ContainsStopMisses | IntervalTrees.IntervalTree.ContainsSearching |
| src/scl/intervaltree.py:127-133 | the descent of `overlapping` goes left whenever the left child's `max` reaches the query's start, and never returns to the right | root [7, 8] with left [7, 7] and right [5, 9], query [5, 6]: it goes left, finds nothing, and misses [5, 9] | yield every stored interval that overlaps the query | high; not executed | Intervals.DescendMisses | IntervalTrees.IntervalTree.OverlappingAll |
| src/scl/intervaltree.py:134-138 | `overlapping` yields `x.value` before testing it, so it yields the first non-overlapping successor | root [0, 1] with right child [2, 3], query [1, 1]: yields [0, 1] and [2, 3] | stop before yielding a non-overlapping interval | high; not executed | Intervals.OverlappedYieldsNonOverlapping | Intervals.OverlapsInExactly |
| src/scl/intervaltree.py:92-96 | the double rotations do not refresh any `max` | 1 = [0, 1] with right child 3 = [0, 3] whose left child is 2 = [0, 2]: after `rotate_right_then_left`, 2 is the top and still caches 2 | refresh the two lower nodes, then the new top | high; not executed | Intervals.DoubleRotationStale | IntervalTrees.IntervalTree.RotateRightThenLeftRefreshing |
| src/scl/intervaltree.py:118-121 | `add` hangs the new node in the parent's slot even when a child is already there; the hint search stops at a node with an equal stop | root [0, 5] with right child [0, 7]; add [0, 5]: the hint is the root and the new leaf replaces [0, 7], which drops out of the tree | hang only in a free slot | high; not executed | IntervalTrees.AddDropsRightChild | IntervalTrees.IntervalTree.AddRefreshing |
| src/scl/intervaltree.py:111-124 | `add` sets only the new node's `max` and refreshes no ancestor | root [0, 5], add [0, 9]: the root still caches 5 | refresh every ancestor's `max` | high; not executed | IntervalTrees.AddLeavesMaxStale | IntervalTrees.IntervalTree.AddRefreshing |
