/**
  `scl.graph.strongconnect`: Tarjan's algorithm for the strongly connected
  components of a `Graph`, with the per-vertex records, the discovery counter
  and the explicit stack that the nested `visit` shares with its caller.
  Components are produced in the order the generator yields them.
 */
module TarjanState {
  import opened Graphs

  /** The `Data` record of one discovered vertex. */
  datatype Data = Data(index: nat, lowLink: nat, onStack: bool)

  /** The state `visit` shares: records, counter, stack, and the components yielded so far. */
  datatype State<V(==)> = State(mapping: map<V, Data>, counter: nat, stack: seq<V>, sccs: seq<set<V>>)

  function Min(a: nat, b: nat): nat { if a <= b then a else b }

  /** The destinations of the edges leaving `u`. */
  function Out<V>(out: map<V, set<V>>, u: V): set<V>
  {
    ValuesAt(out, u)
  }

  /** All vertices of the components in `cs`. */
  ghost function Union<V>(cs: seq<set<V>>): set<V>
  {
    if cs == [] then {} else Union(cs[..|cs| - 1]) + cs[|cs| - 1]
  }

  lemma UnionAppend<V>(cs: seq<set<V>>, c: set<V>)
    ensures Union(cs + [c]) == Union(cs) + c
  {
    assert (cs + [c])[..|cs|] == cs;
  }

  lemma {:induction false} UnionHas<V>(cs: seq<set<V>>, i: nat)
    requires i < |cs|
    ensures cs[i] <= Union(cs)
  {
    if i < |cs| - 1 {
      UnionHas(cs[..|cs| - 1], i);
    }
  }

  lemma {:induction false} UnionOfPrefix<V>(cs: seq<set<V>>, n: nat)
    requires n <= |cs|
    ensures Union(cs[..n]) <= Union(cs)
    decreases |cs|
  {
    if n < |cs| {
      assert cs[..|cs| - 1][..n] == cs[..n];
      UnionOfPrefix(cs[..|cs| - 1], n);
    } else {
      assert cs[..n] == cs;
    }
  }

  /** `path` is a non-empty walk along the edges `out`. */
  ghost predicate Walk<V>(out: map<V, set<V>>, path: seq<V>)
  {
    |path| >= 1 && forall i, j :: 0 <= i && j == i + 1 && j < |path| ==> path[j] in Out(out, path[i])
  }

  /** `w` can be reached from `u` along zero or more edges. */
  ghost predicate Reach<V(!new)>(out: map<V, set<V>>, u: V, w: V)
  {
    exists path :: Walk(out, path) && path[0] == u && path[|path| - 1] == w
  }

  lemma ReachSelf<V(!new)>(out: map<V, set<V>>, u: V)
    ensures Reach(out, u, u)
  {
    assert Walk(out, [u]);
  }

  lemma ReachEdge<V(!new)>(out: map<V, set<V>>, u: V, w: V)
    requires w in Out(out, u)
    ensures Reach(out, u, w)
  {
    assert Walk(out, [u, w]);
  }

  /** Reachability is transitive: two walks that meet join into one. */
  lemma ReachTrans<V(!new)>(out: map<V, set<V>>, u: V, w: V, z: V)
    requires Reach(out, u, w) && Reach(out, w, z)
    ensures Reach(out, u, z)
  {
    var p1 :| Walk(out, p1) && p1[0] == u && p1[|p1| - 1] == w;
    var p2 :| Walk(out, p2) && p2[0] == w && p2[|p2| - 1] == z;
    var p := p1 + p2[1..];
    forall i, j | 0 <= i && j == i + 1 && j < |p| ensures p[j] in Out(out, p[i]) {
      if j < |p1| {
        assert p[i] == p1[i] && p[j] == p1[j];
      } else {
        assert p[i] == p2[i - |p1| + 1] && p[j] == p2[j - |p1| + 1];
      }
    }
    assert Walk(out, p);
  }

  /** Every edge of the graph ends at one of its vertices. */
  ghost predicate GraphClosed<V>(vertices: set<V>, out: map<V, set<V>>)
  {
    forall u :: u in out ==> out[u] <= vertices
  }

  /** Indices are below the counter and low-links at most the index. */
  ghost predicate Numbered<V>(m: map<V, Data>, counter: nat)
  {
    forall u :: u in m ==> m[u].lowLink <= m[u].index < counter
  }

  /** The stack holds discovered vertices in strictly increasing order of index. */
  ghost predicate StackOrdered<V>(m: map<V, Data>, st: seq<V>)
  {
    && (forall k :: 0 <= k < |st| ==> st[k] in m)
    && (forall i, j :: 0 <= i < j < |st| ==> m[st[i]].index < m[st[j]].index)
  }

  /** `on_stack` is true of exactly the vertices on the stack. */
  ghost predicate OnStackFlags<V>(m: map<V, Data>, st: seq<V>)
  {
    forall u :: u in m ==> (m[u].onStack <==> u in st)
  }

  /**
    The components are non-empty and pairwise disjoint, and every discovered
    vertex is either in one of them or on the stack, never both.
   */
  ghost predicate Partitioned<V>(m: map<V, Data>, st: seq<V>, cs: seq<set<V>>)
  {
    && (forall i :: 0 <= i < |cs| ==> cs[i] != {})
    && (forall i, j :: 0 <= i < j < |cs| ==> cs[i] !! cs[j])
    && (forall u :: u in Union(cs) ==> u in m && u !in st)
    && (forall u :: u in m ==> u in Union(cs) || u in st)
  }

  /** No low-link on the stack is below the index of the bottom of the stack. */
  ghost predicate LowsAboveBottom<V>(m: map<V, Data>, st: seq<V>)
    requires StackOrdered(m, st)
  {
    forall k :: 0 <= k < |st| ==> m[st[0]].index <= m[st[k]].lowLink
  }

  /**
    `u` has had all its edges examined: every successor is discovered, and
    either already in a component or on the stack with an index no smaller
    than `u`'s low-link.
   */
  ghost predicate Settled<V>(out: map<V, set<V>>, m: map<V, Data>, st: seq<V>, cs: seq<set<V>>, u: V)
  {
    && u in m
    && forall w :: w in Out(out, u) ==> w in m && (w in Union(cs) || (w in st && m[u].lowLink <= m[w].index))
  }

  /** Every edge leaving a component ends in that component or in an earlier one. */
  ghost predicate ReverseTopological<V>(out: map<V, set<V>>, cs: seq<set<V>>)
  {
    forall i, u :: 0 <= i < |cs| && u in cs[i] ==> Out(out, u) <= Union(cs[..i + 1])
  }

  /**
    The shape of the algorithm's state: records numbered consistently, the
    stack ordered and flagged, the discovered vertices partitioned between
    the stack and the components, and the components in reverse topological
    order.
   */
  ghost predicate Consistent<V>(vertices: set<V>, out: map<V, set<V>>, s: State<V>)
  {
    && GraphClosed(vertices, out)
    && s.mapping.Keys <= vertices
    && Numbered(s.mapping, s.counter)
    && StackOrdered(s.mapping, s.stack)
    && OnStackFlags(s.mapping, s.stack)
    && Partitioned(s.mapping, s.stack, s.sccs)
    && LowsAboveBottom(s.mapping, s.stack)
    && ReverseTopological(out, s.sccs)
  }

  /**
    `active` holds the vertices whose `visit` has started and not returned;
    they are on the stack, and every other discovered vertex is settled.
   */
  ghost predicate Progressed<V>(out: map<V, set<V>>, s: State<V>, active: set<V>)
  {
    && (forall u :: u in s.mapping && u !in active ==> Settled(out, s.mapping, s.stack, s.sccs, u))
    && (forall u :: u in active ==> u in s.stack)
  }

  /** The state right after `visit(v)` has numbered `v` and pushed it. */
  function Pushed<V>(s: State<V>, v: V): State<V>
  {
    State(s.mapping[v := Data(s.counter, s.counter, true)], s.counter + 1, s.stack + [v], s.sccs)
  }

  /** The state after lowering `v`'s low-link to at most `x`. */
  function Lowered<V>(s: State<V>, v: V, x: nat): State<V>
    requires v in s.mapping
  {
    s.(mapping := s.mapping[v := s.mapping[v].(lowLink := Min(s.mapping[v].lowLink, x))])
  }

  /** `m` with `on_stack` cleared for the vertices of `seg`. */
  function ClearFlags<V>(m: map<V, Data>, seg: seq<V>): map<V, Data>
  {
    map u | u in m :: if u in seg then m[u].(onStack := false) else m[u]
  }

  /** The members of a stack segment. */
  function Members<V>(seg: seq<V>): set<V>
  {
    set u | u in seg
  }

  /** The state after popping the stack down to position `p` and yielding what was popped. */
  function Popped<V>(s: State<V>, p: nat): State<V>
    requires p <= |s.stack|
  {
    State(ClearFlags(s.mapping, s.stack[p..]), s.counter, s.stack[..p], s.sccs + [Members(s.stack[p..])])
  }

  /**
    `s` extends `s0`: earlier records untouched, `v` numbered with the old
    counter and every later record numbered after it, components and stack
    only extended.
   */
  ghost predicate Grown<V>(s0: State<V>, s: State<V>, v: V)
  {
    && (forall u :: u in s0.mapping ==> u in s.mapping && s.mapping[u] == s0.mapping[u])
    && (forall u :: u in s.mapping && u !in s0.mapping ==> s0.counter <= s.mapping[u].index)
    && v in s.mapping && s.mapping[v].index == s0.counter
    && |s0.sccs| <= |s.sccs| && s.sccs[..|s0.sccs|] == s0.sccs
    && |s0.stack| <= |s.stack| && s.stack[..|s0.stack|] == s0.stack
  }

  /**
    The stack above the part `s0` had holds new records only, none of them
    active from position `from` on, and none with a low-link below `v`'s.
   */
  ghost predicate Above<V>(s0: State<V>, s: State<V>, v: V, active: set<V>, from: nat)
    requires v in s.mapping
  {
    forall k :: |s0.stack| <= k < |s.stack| ==>
      && s.stack[k] !in s0.mapping && s.stack[k] in s.mapping
      && s.mapping[v].lowLink <= s.mapping[s.stack[k]].lowLink
      && (from <= k ==> s.stack[k] !in active)
  }

  /**
    Every successor in `done` is discovered, and either in a component or on
    the stack with an index no smaller than `v`'s low-link.
   */
  ghost predicate Examined<V>(s: State<V>, v: V, done: set<V>)
    requires v in s.mapping
  {
    forall w :: w in done ==>
      w in s.mapping && (w in Union(s.sccs) || (w in s.stack && s.mapping[v].lowLink <= s.mapping[w].index))
  }

}
