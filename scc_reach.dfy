/**
  Why every component `strongconnect` yields is strongly connected. Beside
  the invariant of `StrongComponents`, the state keeps four reachability
  facts: an active vertex reaches every vertex numbered after it, every
  vertex on the stack reaches an active vertex numbered no later, every
  vertex on the stack reaches a stack vertex whose index is its low-link,
  and the vertices of each yielded component reach one another.
 */
module ComponentReach {
  import opened Graphs
  import opened TarjanState
  import opened StrongComponents

  /** `x` reaches an active vertex whose index is at most its own. */
  ghost predicate ReachesActive<V(!new)>(out: map<V, set<V>>, m: map<V, Data>, active: set<V>, x: V)
  {
    exists a :: a in active && a in m && x in m && m[a].index <= m[x].index && Reach(out, x, a)
  }

  /** `x` reaches a vertex on the stack `st` whose index is `x`'s low-link. */
  ghost predicate ReachesLow<V(!new)>(out: map<V, set<V>>, m: map<V, Data>, st: seq<V>, x: V)
  {
    exists j :: 0 <= j < |st| && st[j] in m && x in m && m[st[j]].index == m[x].lowLink && Reach(out, x, st[j])
  }

  /** Every active vertex reaches every vertex numbered no earlier. */
  ghost predicate LaterReached<V(!new)>(out: map<V, set<V>>, m: map<V, Data>, active: set<V>)
  {
    forall a, u {:trigger Reach(out, a, u)} :: a in active && a in m && u in m && m[a].index <= m[u].index ==> Reach(out, a, u)
  }

  /** Every vertex on the stack reaches an active vertex and its low-link witness. */
  ghost predicate StackReaches<V(!new)>(out: map<V, set<V>>, m: map<V, Data>, st: seq<V>, active: set<V>)
  {
    forall k {:trigger ReachesActive(out, m, active, st[k])} {:trigger ReachesLow(out, m, st, st[k])} ::
      0 <= k < |st| ==> ReachesActive(out, m, active, st[k]) && ReachesLow(out, m, st, st[k])
  }

  /** The vertices of each component reach one another. */
  ghost predicate ComponentsConnected<V(!new)>(out: map<V, set<V>>, cs: seq<set<V>>)
  {
    forall i, u, w :: 0 <= i < |cs| && u in cs[i] && w in cs[i] ==> Reach(out, u, w)
  }

  /** The reachability facts the state of `strongconnect` keeps. */
  ghost predicate Connected<V(!new)>(out: map<V, set<V>>, s: State<V>, active: set<V>)
  {
    && LaterReached(out, s.mapping, active)
    && StackReaches(out, s.mapping, s.stack, active)
    && ComponentsConnected(out, s.sccs)
  }

  /** `m'` keeps every record of `m` with its index. */
  ghost predicate IndexKept<V>(m: map<V, Data>, m': map<V, Data>)
  {
    forall u :: u in m ==> u in m' && m'[u].index == m[u].index
  }

  lemma ConnectedInitially<V(!new)>(out: map<V, set<V>>)
    ensures Connected(out, State(map[], 0, [], []), {})
  {
  }

  /** An active witness stays one when indices are kept and it stays active. */
  lemma ActiveCarried<V(!new)>(out: map<V, set<V>>, m: map<V, Data>, active: set<V>, m': map<V, Data>, active': set<V>, x: V)
    requires ReachesActive(out, m, active, x) && IndexKept(m, m')
    requires forall a :: a in active && a in m && x in m && m[a].index <= m[x].index ==> a in active'
    ensures ReachesActive(out, m', active', x)
  {
    var a :| a in active && a in m && x in m && m[a].index <= m[x].index && Reach(out, x, a);
    assert a in active' && a in m' && x in m' && m'[a].index <= m'[x].index;
  }

  /** A low-link witness stays one when it keeps its place on the stack and the low-link is kept. */
  lemma LowCarried<V(!new)>(out: map<V, set<V>>, m: map<V, Data>, st: seq<V>, m': map<V, Data>, st': seq<V>, x: V)
    requires ReachesLow(out, m, st, x) && IndexKept(m, m')
    requires x in m && x in m' && m'[x].lowLink == m[x].lowLink
    requires forall j :: 0 <= j < |st| && st[j] in m && m[st[j]].index == m[x].lowLink ==> j < |st'| && st'[j] == st[j]
    ensures ReachesLow(out, m', st', x)
  {
    var j :| 0 <= j < |st| && st[j] in m && x in m && m[st[j]].index == m[x].lowLink && Reach(out, x, st[j]);
    assert st'[j] == st[j] && st[j] in m' && m'[st'[j]].index == m'[x].lowLink;
  }

  /** The record `Pushed` gives `v`: the new active vertex is reached by the old ones and reaches what follows it. */
  lemma PushLater<V(!new)>(out: map<V, set<V>>, m: map<V, Data>, counter: nat, active: set<V>, v: V)
    requires LaterReached(out, m, active) && Numbered(m, counter) && v !in m
    requires forall a :: a in active ==> Reach(out, a, v)
    ensures LaterReached(out, m[v := Data(counter, counter, true)], active + {v})
  {
    var m' := m[v := Data(counter, counter, true)];
    forall a, u | a in active + {v} && a in m' && u in m' && m'[a].index <= m'[u].index
      ensures Reach(out, a, u)
    {
      if u == v {
        if a == v {
          ReachSelf(out, v);
        }
      } else {
        assert m'[u] == m[u] && m[u].index < counter;
        assert a != v;
      }
    }
  }

  /**
    Numbering and pushing `v`, which every active vertex reaches, keeps the
    facts: `v` itself is the new active vertex and its own low-link witness.
   */
  lemma PushConnected<V(!new)>(out: map<V, set<V>>, s: State<V>, active: set<V>, v: V)
    requires Connected(out, s, active) && Numbered(s.mapping, s.counter) && v !in s.mapping
    requires forall a :: a in active ==> Reach(out, a, v)
    ensures Connected(out, Pushed(s, v), active + {v})
  {
    var s' := Pushed(s, v);
    var m, m', st := s.mapping, s'.mapping, s.stack;
    PushLater(out, m, s.counter, active, v);
    assert IndexKept(m, m');
    forall k | 0 <= k < |s'.stack|
      ensures ReachesActive(out, m', active + {v}, s'.stack[k]) && ReachesLow(out, m', s'.stack, s'.stack[k])
    {
      if k < |st| {
        assert s'.stack[k] == st[k];
        ActiveCarried(out, m, active, m', active + {v}, st[k]);
        LowCarried(out, m, st, m', s'.stack, st[k]);
      } else {
        ReachSelf(out, v);
        assert s'.stack[k] == v && s'.stack[|st|] == v;
        assert v in active + {v} && v in m' && m'[v].index <= m'[v].index;
        assert m'[s'.stack[|st|]].index == m'[v].lowLink;
      }
    }
  }

  /**
    Lowering `v`'s low-link to the index of a stack vertex that `v` reaches
    keeps the facts: that vertex becomes `v`'s witness when the low-link drops.
   */
  lemma LowerConnected<V(!new)>(out: map<V, set<V>>, s: State<V>, active: set<V>, v: V, j: nat)
    requires Connected(out, s, active) && v in s.mapping
    requires j < |s.stack| && s.stack[j] in s.mapping && Reach(out, v, s.stack[j])
    ensures Connected(out, Lowered(s, v, s.mapping[s.stack[j]].index), active)
  {
    var x := s.mapping[s.stack[j]].index;
    var s' := Lowered(s, v, x);
    var m, m', st := s.mapping, s'.mapping, s.stack;
    assert IndexKept(m, m') && IndexKept(m', m);
    assert m'.Keys == m.Keys;
    forall k | 0 <= k < |st|
      ensures ReachesActive(out, m', active, st[k]) && ReachesLow(out, m', st, st[k])
    {
      ActiveCarried(out, m, active, m', active, st[k]);
      if st[k] == v && x < m[v].lowLink {
        assert m'[v].lowLink == x;
        assert st[j] in m' && v in m' && m'[st[j]].index == m'[v].lowLink;
      } else {
        LowCarried(out, m, st, m', st, st[k]);
      }
    }
  }

  /** Lowering a low-link to a value no smaller changes nothing. */
  lemma LowerUnchanged<V>(s: State<V>, v: V, x: nat)
    requires v in s.mapping && s.mapping[v].lowLink <= x
    ensures Lowered(s, v, x) == s
  {
    assert s.mapping[v].(lowLink := Min(s.mapping[v].lowLink, x)) == s.mapping[v];
    assert s.mapping[v := s.mapping[v]] == s.mapping;
  }

  /** Every active vertex sits at or below position `p` of an ordered stack, so it is numbered no later than `st[p]`. */
  lemma ActiveNoLater<V>(m: map<V, Data>, st: seq<V>, active: set<V>, p: nat)
    requires StackOrdered(m, st) && p < |st|
    requires forall a :: a in active ==> a in st
    requires forall k :: p < k < |st| ==> st[k] !in active
    ensures forall a :: a in active ==> a in m && m[a].index <= m[st[p]].index
  {
    forall a | a in active ensures a in m && m[a].index <= m[st[p]].index {
      var k :| 0 <= k < |st| && st[k] == a;
      assert k <= p;
    }
  }

  /**
    Inside `visit(v)` every active vertex reaches `v`, so it reaches each
    successor `w` of `v` too: the requirement for visiting `w`.
   */
  lemma ActiveReach<V(!new)>(vertices: set<V>, out: map<V, set<V>>, s0: State<V>, s: State<V>,
                             v: V, w: V, active: set<V>, done: set<V>)
    requires Inv(vertices, out, s, active) && Connected(out, s, active)
    requires Visiting(s0, s, v, active, done) && v in active && w in Out(out, v)
    ensures forall a :: a in active ==> Reach(out, a, w)
  {
    var p := |s0.stack|;
    assert s.stack[p] == v;
    ActiveNoLater(s.mapping, s.stack, active, p);
    ReachEdge(out, v, w);
    forall a | a in active ensures Reach(out, a, w) {
      assert Reach(out, a, v);
      ReachTrans(out, a, v, w);
    }
  }

  /**
    Returning from `visit(w)` for a successor `w` of `v` and lowering `v`'s
    low-link to `w`'s keeps the facts: a popped `w` leaves the low-link as it
    was, and a `w` left on the stack passes its witness on to `v`.
   */
  lemma ChildConnected<V(!new)>(out: map<V, set<V>>, s1: State<V>, s2: State<V>, v: V, w: V, active: set<V>)
    requires Connected(out, s2, active) && Numbered(s1.mapping, s1.counter)
    requires VisitEffect(s1, s2, w, active) && v in s1.mapping && w !in s1.mapping && w in Out(out, v)
    ensures v in s2.mapping && w in s2.mapping
    ensures Connected(out, Lowered(s2, v, s2.mapping[w].lowLink), active)
  {
    assert s2.mapping[v] == s1.mapping[v];
    if |s2.stack| == |s1.stack| {
      LowerUnchanged(s2, v, s2.mapping[w].lowLink);
    } else {
      var st := s2.stack;
      assert st[|s1.stack|] == w;
      assert ReachesLow(out, s2.mapping, st, st[|s1.stack|]);
      var j :| 0 <= j < |st| && st[j] in s2.mapping && w in s2.mapping
        && s2.mapping[st[j]].index == s2.mapping[w].lowLink && Reach(out, w, st[j]);
      ReachEdge(out, v, w);
      ReachTrans(out, v, w, st[j]);
      LowerConnected(out, s2, active, v, j);
    }
  }

  /** Lowering `v`'s low-link to the index of a successor still on the stack keeps the facts. */
  lemma OnStackConnected<V(!new)>(out: map<V, set<V>>, s: State<V>, v: V, w: V, active: set<V>)
    requires Connected(out, s, active) && OnStackFlags(s.mapping, s.stack) && StackOrdered(s.mapping, s.stack)
    requires v in s.mapping && w in s.mapping && s.mapping[w].onStack && w in Out(out, v)
    ensures Connected(out, Lowered(s, v, s.mapping[w].index), active)
  {
    var j :| 0 <= j < |s.stack| && s.stack[j] == w;
    ReachEdge(out, v, w);
    LowerConnected(out, s, active, v, j);
  }

  /**
    `visit(v)` returning with `v` left on the stack keeps the facts: `v`
    reaches its low-link witness, which reaches an active vertex numbered
    before `v`, so whatever reached `v` reaches that vertex.
   */
  lemma LeaveConnected<V(!new)>(out: map<V, set<V>>, s: State<V>, a0: set<V>, v: V)
    requires Connected(out, s, a0 + {v}) && v !in a0
    requires v in s.stack && v in s.mapping && s.mapping[v].lowLink < s.mapping[v].index
    ensures Connected(out, s, a0)
  {
    var m, st := s.mapping, s.stack;
    var b := Escape(out, m, st, a0, v);
    forall k | 0 <= k < |st| ensures ReachesActive(out, m, a0, st[k]) {
      ActiveAfterLeave(out, m, a0, v, b, st[k]);
    }
  }

  /** A vertex `v` whose low-link is below its index reaches an active vertex other than `v`, numbered before it. */
  lemma Escape<V(!new)>(out: map<V, set<V>>, m: map<V, Data>, st: seq<V>, a0: set<V>, v: V) returns (b: V)
    requires StackReaches(out, m, st, a0 + {v})
    requires v in st && v in m && m[v].lowLink < m[v].index
    ensures b in a0 && b in m && m[b].index < m[v].index && Reach(out, v, b)
  {
    var kv :| 0 <= kv < |st| && st[kv] == v;
    assert ReachesLow(out, m, st, st[kv]);
    var j :| 0 <= j < |st| && st[j] in m && v in m && m[st[j]].index == m[v].lowLink && Reach(out, v, st[j]);
    assert ReachesActive(out, m, a0 + {v}, st[j]);
    b :| b in a0 + {v} && b in m && st[j] in m && m[b].index <= m[st[j]].index && Reach(out, st[j], b);
    ReachTrans(out, v, st[j], b);
  }

  /** A vertex whose active witness was `v` takes the vertex `v` escapes to instead. */
  lemma ActiveAfterLeave<V(!new)>(out: map<V, set<V>>, m: map<V, Data>, a0: set<V>, v: V, b: V, x: V)
    requires ReachesActive(out, m, a0 + {v}, x)
    requires b in a0 && b in m && v in m && m[b].index < m[v].index && Reach(out, v, b)
    ensures ReachesActive(out, m, a0, x)
  {
    var a :| a in a0 + {v} && a in m && x in m && m[a].index <= m[x].index && Reach(out, x, a);
    if a == v {
      ReachTrans(out, x, v, b);
      assert b in a0 && b in m && x in m && m[b].index <= m[x].index && Reach(out, x, b);
    }
  }

  /**
    Popping the stack from position `p`, where the last active vertex `v`
    sits, keeps the facts: the popped vertices reach `v` through active
    vertices, `v` reaches each of them, so the new component is strongly
    connected; what stays on the stack keeps its witnesses below `p`.
   */
  lemma PopConnected<V(!new)>(out: map<V, set<V>>, s: State<V>, active: set<V>, p: nat)
    requires Connected(out, s, active) && Numbered(s.mapping, s.counter) && StackOrdered(s.mapping, s.stack)
    requires p < |s.stack| && s.stack[p] in active
    requires forall a :: a in active ==> a in s.stack
    requires forall k :: p < k < |s.stack| ==> s.stack[k] !in active
    ensures Connected(out, Popped(s, p), active - {s.stack[p]})
  {
    var v, m, st := s.stack[p], s.mapping, s.stack;
    var s' := Popped(s, p);
    var m' := s'.mapping;
    ClearFlagsKeeps(m, st[p..]);
    assert IndexKept(m, m');
    ActiveNoLater(m, st, active, p);
    forall k | 0 <= k < |s'.stack|
      ensures ReachesActive(out, m', active - {v}, s'.stack[k]) && ReachesLow(out, m', s'.stack, s'.stack[k])
    {
      BelowPop(out, m, st, active, p, k);
      ActiveCarried(out, m, active, m', active - {v}, st[k]);
      LowCarried(out, m, st, m', st[..p], st[k]);
    }
    PoppedReach(out, s, active, p);
  }

  /** What keeps the witnesses of a vertex below the popped position `p`. */
  lemma BelowPop<V(!new)>(out: map<V, set<V>>, m: map<V, Data>, st: seq<V>, active: set<V>, p: nat, k: nat)
    requires StackOrdered(m, st) && k < p < |st|
    requires forall u :: u in m ==> m[u].lowLink <= m[u].index
    ensures st[k] in m && m[st[k]].index < m[st[p]].index
    ensures forall a :: a in active && a in m && m[a].index <= m[st[k]].index ==> a in active - {st[p]}
    ensures forall j :: 0 <= j < |st| && st[j] in m && m[st[j]].index == m[st[k]].lowLink ==> j < p && st[..p][j] == st[j]
  {
  }

  /** The component popped from position `p` is strongly connected; earlier components are kept. */
  lemma PoppedReach<V(!new)>(out: map<V, set<V>>, s: State<V>, active: set<V>, p: nat)
    requires Connected(out, s, active) && StackOrdered(s.mapping, s.stack)
    requires p < |s.stack| && s.stack[p] in active
    requires forall a :: a in active ==> a in s.mapping && s.mapping[a].index <= s.mapping[s.stack[p]].index
    ensures ComponentsConnected(out, s.sccs + [Members(s.stack[p..])])
  {
    var v, m, st := s.stack[p], s.mapping, s.stack;
    var cs := s.sccs + [Members(st[p..])];
    forall i, u, w | 0 <= i < |cs| && u in cs[i] && w in cs[i] ensures Reach(out, u, w) {
      if i < |s.sccs| {
        assert cs[i] == s.sccs[i];
      } else {
        var ku :| p <= ku < |st| && st[ku] == u;
        var kw :| p <= kw < |st| && st[kw] == w;
        SegmentReach(out, m, st, active, p, ku, kw);
      }
    }
  }

  /** Inside the popped segment, `st[ku]` reaches `st[kw]` through an active vertex and `st[p]`. */
  lemma SegmentReach<V(!new)>(out: map<V, set<V>>, m: map<V, Data>, st: seq<V>, active: set<V>, p: nat, ku: nat, kw: nat)
    requires LaterReached(out, m, active) && StackReaches(out, m, st, active) && StackOrdered(m, st)
    requires p <= ku < |st| && p <= kw < |st| && st[p] in active
    requires forall a :: a in active ==> a in m && m[a].index <= m[st[p]].index
    ensures Reach(out, st[ku], st[kw])
  {
    var v, u, w := st[p], st[ku], st[kw];
    assert ReachesActive(out, m, active, st[ku]);
    var a :| a in active && a in m && u in m && m[a].index <= m[u].index && Reach(out, u, a);
    assert m[v].index <= m[w].index by {
      if p < kw {
        assert m[st[p]].index < m[st[kw]].index;
      }
    }
    assert Reach(out, a, v) && Reach(out, v, w);
    ReachTrans(out, u, a, v);
    ReachTrans(out, u, v, w);
  }

  /** A vertex of `Union(cs)` belongs to one of the components. */
  lemma {:induction false} UnionMember<V>(cs: seq<set<V>>, x: V) returns (k: nat)
    requires x in Union(cs)
    ensures k < |cs| && x in cs[k]
  {
    if x in cs[|cs| - 1] {
      k := |cs| - 1;
    } else {
      k := UnionMember(cs[..|cs| - 1], x);
    }
  }

  /** In reverse topological order, the first `n` components have no edge leaving them. */
  lemma PrefixClosed<V>(out: map<V, set<V>>, cs: seq<set<V>>, n: nat, x: V, w: V)
    requires ReverseTopological(out, cs) && n <= |cs|
    requires x in Union(cs[..n]) && w in Out(out, x)
    ensures w in Union(cs[..n])
  {
    var k := UnionMember(cs[..n], x);
    assert x in cs[k];
    assert cs[..n][..k + 1] == cs[..k + 1];
    UnionOfPrefix(cs[..n], k + 1);
  }

  /** A walk that starts in the first `n` components stays in them. */
  lemma {:induction false} WalkStays<V>(out: map<V, set<V>>, cs: seq<set<V>>, n: nat, path: seq<V>, i: nat)
    requires ReverseTopological(out, cs) && n <= |cs|
    requires Walk(out, path) && path[0] in Union(cs[..n]) && i < |path|
    ensures path[i] in Union(cs[..n])
  {
    if i > 0 {
      WalkStays(out, cs, n, path, i - 1);
      assert path[i] in Out(out, path[i - 1]);
      PrefixClosed(out, cs, n, path[i - 1], path[i]);
    }
  }

  /** Whatever a vertex of component `i` reaches lies in component `i` or an earlier one. */
  lemma ReachEarlier<V(!new)>(out: map<V, set<V>>, cs: seq<set<V>>, i: nat, u: V, w: V) returns (k: nat)
    requires ReverseTopological(out, cs) && i < |cs| && u in cs[i] && Reach(out, u, w)
    ensures k <= i && w in cs[k]
  {
    var path :| Walk(out, path) && path[0] == u && path[|path| - 1] == w;
    assert cs[..i + 1][i] == cs[i];
    UnionHas(cs[..i + 1], i);
    WalkStays(out, cs, i + 1, path, |path| - 1);
    k := UnionMember(cs[..i + 1], w);
  }

  /**
    Components in reverse topological order that are disjoint are maximal:
    two vertices that reach each other lie in the same component.
   */
  lemma ComponentsMaximal<V(!new)>(out: map<V, set<V>>, cs: seq<set<V>>, i: nat, j: nat, u: V, w: V)
    requires ReverseTopological(out, cs)
    requires forall a, b :: 0 <= a < b < |cs| ==> cs[a] !! cs[b]
    requires i < |cs| && j < |cs| && u in cs[i] && w in cs[j]
    requires Reach(out, u, w) && Reach(out, w, u)
    ensures i == j
  {
    var k := ReachEarlier(out, cs, i, u, w);
    var l := ReachEarlier(out, cs, j, w, u);
  }
}
