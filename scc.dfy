/**
  The proof that each step of `strongconnect`'s `visit` keeps the invariant
  of its shared state, and that a returning `visit` leaves the effect its
  caller relies on.
 */
module StrongComponents {
  import opened Graphs
  import opened TarjanState

  /** The invariant of the algorithm's state. */
  ghost predicate Inv<V>(vertices: set<V>, out: map<V, set<V>>, s: State<V>, active: set<V>)
  {
    Consistent(vertices, out, s) && Progressed(out, s, active)
  }

  /**
    What a returning `visit(v)` leaves behind, relative to the state `s0` it
    started from: the state has grown, and either `v` is popped with its
    component yielded last, or `v` is still on the stack just above the
    caller's part, with a low-link below its index and no larger than any
    low-link above it.
   */
  ghost predicate VisitEffect<V>(s0: State<V>, s: State<V>, v: V, active: set<V>)
  {
    && Grown(s0, s, v)
    && Above(s0, s, v, active, |s0.stack|)
    && (|s.stack| == |s0.stack| ==>
          s.mapping[v].lowLink == s.mapping[v].index && |s.sccs| > |s0.sccs| && v in s.sccs[|s.sccs| - 1])
    && (|s.stack| > |s0.stack| ==> s.stack[|s0.stack|] == v && s.mapping[v].lowLink < s.mapping[v].index)
  }

  /** The state inside `visit(v)` once the successors in `done` have been examined. */
  ghost predicate Visiting<V>(s0: State<V>, s: State<V>, v: V, active: set<V>, done: set<V>)
  {
    && Grown(s0, s, v)
    && |s0.stack| < |s.stack| && s.stack[|s0.stack|] == v
    && Above(s0, s, v, active, |s0.stack| + 1)
    && Examined(s, v, done)
  }

  /**
    A settled vertex stays settled when records are added (indices kept, its
    own low-link not raised), the stack only loses vertices to components,
    and components are only added.
   */
  lemma SettledPersists<V>(out: map<V, set<V>>, m: map<V, Data>, st: seq<V>, cs: seq<set<V>>,
                           m': map<V, Data>, st': seq<V>, cs': seq<set<V>>, u: V)
    requires Settled(out, m, st, cs, u)
    requires forall x :: x in m ==> x in m' && m'[x].index == m[x].index
    requires m'[u].lowLink <= m[u].lowLink
    requires forall x :: x in st ==> x in st' || x in Union(cs')
    requires Union(cs) <= Union(cs')
    ensures Settled(out, m', st', cs', u)
  {
  }

  lemma PushKeepsOrder<V>(m: map<V, Data>, counter: nat, st: seq<V>, v: V)
    requires Numbered(m, counter) && StackOrdered(m, st) && LowsAboveBottom(m, st)
    requires v !in m
    ensures var m' := m[v := Data(counter, counter, true)];
      && Numbered(m', counter + 1)
      && StackOrdered(m', st + [v])
      && LowsAboveBottom(m', st + [v])
  {
    var m', st' := m[v := Data(counter, counter, true)], st + [v];
    forall i, j | 0 <= i < j < |st'| ensures m'[st'[i]].index < m'[st'[j]].index {
      if j < |st| {
        assert st'[i] == st[i] && st'[j] == st[j];
      } else {
        assert st'[i] == st[i];
      }
    }
    if st != [] {
      assert st'[0] == st[0];
    }
  }

  lemma PushKeepsInv<V>(vertices: set<V>, out: map<V, set<V>>, s: State<V>, active: set<V>, v: V)
    requires Inv(vertices, out, s, active)
    requires v !in s.mapping && v in vertices
    ensures Inv(vertices, out, Pushed(s, v), active + {v})
  {
    var s' := Pushed(s, v);
    PushKeepsOrder(s.mapping, s.counter, s.stack, v);
    PushKeepsPartition(s.mapping, s.stack, s.sccs, v, Data(s.counter, s.counter, true));
    PushKeepsSettled(out, s, active, v);
  }

  lemma PushKeepsPartition<V>(m: map<V, Data>, st: seq<V>, cs: seq<set<V>>, v: V, d: Data)
    requires OnStackFlags(m, st) && Partitioned(m, st, cs)
    requires v !in m && d.onStack
    ensures OnStackFlags(m[v := d], st + [v]) && Partitioned(m[v := d], st + [v], cs)
  {
  }

  lemma PushKeepsSettled<V>(out: map<V, set<V>>, s: State<V>, active: set<V>, v: V)
    requires forall u :: u in s.mapping && u !in active ==> Settled(out, s.mapping, s.stack, s.sccs, u)
    requires v !in s.mapping
    ensures var s' := Pushed(s, v);
      forall u :: u in s'.mapping && u !in active + {v} ==> Settled(out, s'.mapping, s'.stack, s'.sccs, u)
  {
    var s' := Pushed(s, v);
    forall u | u in s'.mapping && u !in active + {v}
      ensures Settled(out, s'.mapping, s'.stack, s'.sccs, u)
    {
      SettledPersists(out, s.mapping, s.stack, s.sccs, s'.mapping, s'.stack, s'.sccs, u);
    }
  }

  lemma LowerKeepsInv<V>(vertices: set<V>, out: map<V, set<V>>, s: State<V>, active: set<V>, v: V, x: nat)
    requires Inv(vertices, out, s, active)
    requires v in active
    requires s.stack != [] && s.mapping[s.stack[0]].index <= x
    ensures Inv(vertices, out, Lowered(s, v, x), active)
  {
    var s' := Lowered(s, v, x);
    assert Numbered(s'.mapping, s'.counter);
    assert StackOrdered(s'.mapping, s'.stack);
    assert OnStackFlags(s'.mapping, s'.stack);
    assert Partitioned(s'.mapping, s'.stack, s'.sccs);
    assert LowsAboveBottom(s'.mapping, s'.stack);
    forall u | u in s'.mapping && u !in active
      ensures Settled(out, s'.mapping, s'.stack, s'.sccs, u)
    {
      SettledPersists(out, s.mapping, s.stack, s.sccs, s'.mapping, s'.stack, s'.sccs, u);
    }
  }

  /** On an ordered stack, a vertex whose index is at least that of `st[p]` sits at `p` or above. */
  lemma AtOrAbove<V>(m: map<V, Data>, st: seq<V>, p: nat, w: V)
    requires StackOrdered(m, st)
    requires p < |st| && w in st
    requires m[st[p]].index <= m[w].index
    ensures w in st[p..]
  {
    var k :| 0 <= k < |st| && st[k] == w;
    assert st[p..][k - p] == w;
  }

  /** On an ordered stack no vertex occurs both below `p` and at or above it. */
  lemma StackSplit<V>(m: map<V, Data>, st: seq<V>, p: nat)
    requires StackOrdered(m, st) && p <= |st|
    ensures forall u :: u in st <==> u in st[..p] || u in st[p..]
    ensures forall u :: u in st[..p] ==> u !in st[p..]
  {
    assert st == st[..p] + st[p..];
    forall u | u in st[..p] ensures u !in st[p..] {
      var i :| 0 <= i < p && st[i] == u;
      forall j | p <= j < |st| ensures st[j] != u {
        assert m[st[i]].index < m[st[j]].index;
      }
    }
  }

  lemma ClearFlagsKeeps<V>(m: map<V, Data>, seg: seq<V>)
    ensures ClearFlags(m, seg).Keys == m.Keys
    ensures forall u :: u in m ==>
      && ClearFlags(m, seg)[u].index == m[u].index
      && ClearFlags(m, seg)[u].lowLink == m[u].lowLink
      && (ClearFlags(m, seg)[u].onStack <==> m[u].onStack && u !in seg)
  {
  }

  lemma PopKeepsOrder<V>(m: map<V, Data>, counter: nat, st: seq<V>, p: nat)
    requires Numbered(m, counter) && StackOrdered(m, st) && LowsAboveBottom(m, st)
    requires p <= |st|
    ensures var m' := ClearFlags(m, st[p..]);
      && Numbered(m', counter)
      && StackOrdered(m', st[..p])
      && LowsAboveBottom(m', st[..p])
  {
    ClearFlagsKeeps(m, st[p..]);
  }

  lemma PopKeepsPartition<V>(m: map<V, Data>, st: seq<V>, cs: seq<set<V>>, p: nat)
    requires StackOrdered(m, st) && OnStackFlags(m, st) && Partitioned(m, st, cs)
    requires p < |st|
    ensures var m' := ClearFlags(m, st[p..]);
      && OnStackFlags(m', st[..p])
      && Partitioned(m', st[..p], cs + [Members(st[p..])])
  {
    var c := Members(st[p..]);
    ClearFlagsKeeps(m, st[p..]);
    StackSplit(m, st, p);
    UnionAppend(cs, c);
    assert st[p] in c by { assert st[p..][0] == st[p]; }
    forall u | u in c ensures u in m && u !in Union(cs) {
      var j :| p <= j < |st| && st[j] == u;
    }
    forall i | 0 <= i < |cs| ensures cs[i] !! c {
      UnionHas(cs, i);
    }
  }

  /**
    The popped segment only has edges into itself and into earlier
    components: its vertices are settled, their low-links are at least the
    index of `st[p]`, and the stack is ordered by index.
   */
  lemma PopKeepsTopological<V>(out: map<V, set<V>>, m: map<V, Data>, st: seq<V>, cs: seq<set<V>>, p: nat)
    requires StackOrdered(m, st) && ReverseTopological(out, cs)
    requires p < |st|
    requires forall k :: p <= k < |st| ==> Settled(out, m, st, cs, st[k])
    requires forall k :: p <= k < |st| ==> m[st[p]].index <= m[st[k]].lowLink
    ensures ReverseTopological(out, cs + [Members(st[p..])])
  {
    var c := Members(st[p..]);
    var cs' := cs + [c];
    UnionAppend(cs, c);
    forall u | u in c ensures Out(out, u) <= Union(cs) + c {
      var j :| p <= j < |st| && st[j] == u;
      assert Settled(out, m, st, cs, st[j]);
      forall w | w in Out(out, u) && w !in Union(cs) ensures w in c {
        AtOrAbove(m, st, p, w);
      }
    }
    forall i, u | 0 <= i < |cs'| && u in cs'[i]
      ensures Out(out, u) <= Union(cs'[..i + 1])
    {
      if i < |cs| {
        assert cs'[..i + 1] == cs[..i + 1];
      } else {
        assert cs'[..i + 1] == cs';
      }
    }
  }

  /** Settled vertices stay settled: a successor leaving the stack joins the new component. */
  lemma PopKeepsSettled<V>(out: map<V, set<V>>, m: map<V, Data>, st: seq<V>, cs: seq<set<V>>, p: nat, settled: set<V>)
    requires StackOrdered(m, st) && p < |st|
    requires forall u :: u in settled ==> Settled(out, m, st, cs, u)
    ensures forall u :: u in settled ==>
      Settled(out, ClearFlags(m, st[p..]), st[..p], cs + [Members(st[p..])], u)
  {
    var c := Members(st[p..]);
    ClearFlagsKeeps(m, st[p..]);
    StackSplit(m, st, p);
    UnionAppend(cs, c);
    forall u | u in settled
      ensures Settled(out, ClearFlags(m, st[p..]), st[..p], cs + [c], u)
    {
      SettledPersists(out, m, st, cs, ClearFlags(m, st[p..]), st[..p], cs + [c], u);
    }
  }

  /**
    Popping the segment that starts at a vertex `v` whose low-link equals its
    index yields a component that only has edges into itself and earlier
    components, and keeps the invariant.
   */
  lemma PopKeepsInv<V>(vertices: set<V>, out: map<V, set<V>>, s: State<V>, active: set<V>, p: nat)
    requires Inv(vertices, out, s, active)
    requires p < |s.stack|
    requires var v := s.stack[p];
      && s.mapping[v].lowLink == s.mapping[v].index
      && Settled(out, s.mapping, s.stack, s.sccs, v)
      && (forall k :: p <= k < |s.stack| ==> s.mapping[v].lowLink <= s.mapping[s.stack[k]].lowLink)
      && (forall k :: p < k < |s.stack| ==> s.stack[k] !in active)
      && (forall u :: u in active - {v} ==> u in s.stack[..p])
    ensures Inv(vertices, out, Popped(s, p), active - {s.stack[p]})
  {
    var v := s.stack[p];
    var m, st, cs := s.mapping, s.stack, s.sccs;
    PopKeepsOrder(m, s.counter, st, p);
    PopKeepsPartition(m, st, cs, p);
    forall k | p <= k < |st| ensures Settled(out, m, st, cs, st[k]) {
      if k > p {
        assert st[k] !in active;
      }
    }
    PopKeepsTopological(out, m, st, cs, p);
    var settled := set u | u in m && u !in active - {v};
    PopKeepsSettled(out, m, st, cs, p, settled);
    ClearFlagsKeeps(m, st[p..]);
  }

  lemma EnterVisit<V>(s0: State<V>, v: V, active: set<V>)
    requires v !in s0.mapping
    ensures Visiting(s0, Pushed(s0, v), v, active, {})
  {
    var s := Pushed(s0, v);
    assert s.stack[..|s0.stack|] == s0.stack;
  }

  /** Lowering `v`'s low-link keeps what `visit(v)` has established. */
  lemma LowerVisiting<V>(s0: State<V>, s: State<V>, v: V, active: set<V>, done: set<V>, x: nat)
    requires Visiting(s0, s, v, active, done)
    ensures Visiting(s0, Lowered(s, v, x), v, active, done)
  {
    var s' := Lowered(s, v, x);
    assert s.stack[|s0.stack|] == v;
  }

  /** A successor still on the stack lowers `v`'s low-link to its index and is examined. */
  lemma SuccessorOnStack<V>(s0: State<V>, s: State<V>, v: V, w: V, active: set<V>, done: set<V>)
    requires StackOrdered(s.mapping, s.stack)
    requires OnStackFlags(s.mapping, s.stack) && LowsAboveBottom(s.mapping, s.stack)
    requires Visiting(s0, s, v, active, done)
    requires w in s.mapping && s.mapping[w].onStack
    ensures s.stack != [] && s.mapping[s.stack[0]].index <= s.mapping[w].index
    ensures Visiting(s0, Lowered(s, v, s.mapping[w].index), v, active, done + {w})
  {
    LowerVisiting(s0, s, v, active, done, s.mapping[w].index);
    var k :| 0 <= k < |s.stack| && s.stack[k] == w;
    assert s.mapping[s.stack[0]].index <= s.mapping[s.stack[k]].lowLink;
  }

  /** A discovered successor that is off the stack is in a component, and examined. */
  lemma SuccessorFinished<V>(s0: State<V>, s: State<V>, v: V, w: V, active: set<V>, done: set<V>)
    requires OnStackFlags(s.mapping, s.stack) && Partitioned(s.mapping, s.stack, s.sccs)
    requires Visiting(s0, s, v, active, done)
    requires w in s.mapping && !s.mapping[w].onStack
    ensures Visiting(s0, s, v, active, done + {w})
  {
  }

  lemma ChildGrown<V>(s0: State<V>, s1: State<V>, s2: State<V>, v: V, w: V)
    requires Grown(s0, s1, v) && Grown(s1, s2, w)
    requires s0.counter <= s1.counter
    ensures Grown(s0, s2, v)
  {
    assert s2.stack[..|s0.stack|] == s2.stack[..|s1.stack|][..|s0.stack|];
    assert s2.sccs[..|s0.sccs|] == s2.sccs[..|s1.sccs|][..|s0.sccs|];
  }

  lemma ChildAbove<V>(s0: State<V>, s1: State<V>, s2: State<V>, v: V, w: V, active: set<V>)
    requires Grown(s0, s1, v) && |s0.stack| < |s1.stack| && Above(s0, s1, v, active, |s0.stack| + 1)
    requires Grown(s1, s2, w) && Above(s1, s2, w, active, |s1.stack|)
    requires v in active
    ensures Above(s0, Lowered(s2, v, s2.mapping[w].lowLink), v, active, |s0.stack| + 1)
  {
    var s3 := Lowered(s2, v, s2.mapping[w].lowLink);
    forall k | |s0.stack| <= k < |s3.stack|
      ensures s3.stack[k] !in s0.mapping && s3.stack[k] in s3.mapping
      ensures s3.mapping[v].lowLink <= s3.mapping[s3.stack[k]].lowLink
      ensures |s0.stack| + 1 <= k ==> s3.stack[k] !in active
    {
      if k < |s1.stack| {
        assert s2.stack[k] == s1.stack[k];
      }
    }
  }

  lemma ChildExamined<V>(s1: State<V>, s2: State<V>, v: V, w: V, active: set<V>, done: set<V>)
    requires Numbered(s2.mapping, s2.counter)
    requires v in s1.mapping && Examined(s1, v, done)
    requires VisitEffect(s1, s2, w, active)
    ensures Examined(Lowered(s2, v, s2.mapping[w].lowLink), v, done + {w})
  {
    var s3 := Lowered(s2, v, s2.mapping[w].lowLink);
    UnionOfPrefix(s2.sccs, |s1.sccs|);
    forall x | x in done + {w}
      ensures x in s3.mapping && (x in Union(s3.sccs) || (x in s3.stack && s3.mapping[v].lowLink <= s3.mapping[x].index))
    {
      if x == w && |s2.stack| == |s1.stack| {
        UnionHas(s2.sccs, |s2.sccs| - 1);
      } else if x != w && x in s1.stack {
        var k :| 0 <= k < |s1.stack| && s1.stack[k] == x;
        assert s2.stack[k] == x;
      }
    }
  }

  /** After the recursive `visit(w)` returns, lowering `v`'s low-link to `w`'s leaves `w` examined. */
  lemma ChildVisited<V>(s0: State<V>, s1: State<V>, s2: State<V>, v: V, w: V, active: set<V>, done: set<V>)
    requires Numbered(s1.mapping, s1.counter) && StackOrdered(s1.mapping, s1.stack)
    requires Numbered(s2.mapping, s2.counter) && StackOrdered(s2.mapping, s2.stack) && LowsAboveBottom(s2.mapping, s2.stack)
    requires Visiting(s0, s1, v, active, done) && v in active
    requires w !in s1.mapping && VisitEffect(s1, s2, w, active)
    ensures s2.stack != [] && s2.mapping[s2.stack[0]].index <= s2.mapping[w].lowLink
    ensures Visiting(s0, Lowered(s2, v, s2.mapping[w].lowLink), v, active, done + {w})
  {
    ChildGrown(s0, s1, s2, v, w);
    ChildAbove(s0, s1, s2, v, w, active);
    ChildExamined(s1, s2, v, w, active, done);
    assert v !in s0.mapping by {
      assert s1.stack[|s0.stack|] == v;
    }
    LoweredGrown(s0, s2, v, s2.mapping[w].lowLink);
    assert s2.stack[|s0.stack|] == s1.stack[|s0.stack|];
    assert s1.stack[0] == s2.stack[0];
  }

  /** Lowering the low-link of a vertex `s0` did not have keeps `s` grown from `s0`. */
  lemma LoweredGrown<V>(s0: State<V>, s: State<V>, v: V, x: nat)
    requires Grown(s0, s, v) && v !in s0.mapping
    ensures Grown(s0, Lowered(s, v, x), v)
  {
  }

  /** A `visit` that keeps `v` on the stack has the effect its caller relies on. */
  lemma LeaveOnStack<V>(s0: State<V>, s: State<V>, v: V, active: set<V>, done: set<V>)
    requires Numbered(s.mapping, s.counter)
    requires Visiting(s0, s, v, active + {v}, done) && v !in active
    requires s.mapping[v].lowLink != s.mapping[v].index
    ensures VisitEffect(s0, s, v, active)
  {
  }

  /** A `visit` that pops `v`'s component has the effect its caller relies on. */
  lemma LeavePopped<V>(s0: State<V>, s: State<V>, v: V, active: set<V>, done: set<V>)
    requires StackOrdered(s.mapping, s.stack)
    requires Visiting(s0, s, v, active + {v}, done) && v !in active
    requires s.mapping[v].lowLink == s.mapping[v].index
    ensures VisitEffect(s0, Popped(s, |s0.stack|), v, active)
  {
    var p := |s0.stack|;
    var s' := Popped(s, p);
    ClearFlagsKeeps(s.mapping, s.stack[p..]);
    assert v in s'.sccs[|s'.sccs| - 1] by { assert s.stack[p..][0] == v; }
    assert s'.sccs[..|s0.sccs|] == s0.sccs;
    forall u | u in s0.mapping ensures s'.mapping[u] == s0.mapping[u] {
      forall k | p <= k < |s.stack| ensures s.stack[k] != u { }
    }
  }

  /** Numbering and pushing `v` starts its `visit` with the invariant kept. */
  lemma Entered<V>(vertices: set<V>, out: map<V, set<V>>, s0: State<V>, s: State<V>, a0: set<V>, v: V)
    requires Inv(vertices, out, s0, a0)
    requires v !in s0.mapping && v in vertices
    requires s == Pushed(s0, v)
    ensures v !in a0
    ensures Inv(vertices, out, s, a0 + {v})
    ensures Visiting(s0, s, v, a0 + {v}, {})
  {
    PushKeepsInv(vertices, out, s0, a0, v);
    EnterVisit(s0, v, a0 + {v});
  }

  /** Returning from the recursive `visit(w)` and lowering `v`'s low-link keeps the invariant. */
  lemma ChildReturned<V>(vertices: set<V>, out: map<V, set<V>>, s0: State<V>, s1: State<V>, s2: State<V>,
                         v: V, w: V, active: set<V>, done: set<V>)
    requires Inv(vertices, out, s1, active) && Inv(vertices, out, s2, active)
    requires Visiting(s0, s1, v, active, done) && v in active
    requires w !in s1.mapping && VisitEffect(s1, s2, w, active)
    ensures v in s2.mapping && w in s2.mapping
    ensures Inv(vertices, out, Lowered(s2, v, s2.mapping[w].lowLink), active)
    ensures Visiting(s0, Lowered(s2, v, s2.mapping[w].lowLink), v, active, done + {w})
  {
    ChildVisited(s0, s1, s2, v, w, active, done);
    LowerKeepsInv(vertices, out, s2, active, v, s2.mapping[w].lowLink);
  }

  /** A successor still on the stack lowers `v`'s low-link with the invariant kept. */
  lemma OnStackSeen<V>(vertices: set<V>, out: map<V, set<V>>, s0: State<V>, s: State<V>,
                       v: V, w: V, active: set<V>, done: set<V>)
    requires Inv(vertices, out, s, active)
    requires Visiting(s0, s, v, active, done) && v in active
    requires w in s.mapping && s.mapping[w].onStack
    ensures v in s.mapping
    ensures Inv(vertices, out, Lowered(s, v, s.mapping[w].index), active)
    ensures Visiting(s0, Lowered(s, v, s.mapping[w].index), v, active, done + {w})
  {
    SuccessorOnStack(s0, s, v, w, active, done);
    LowerKeepsInv(vertices, out, s, active, v, s.mapping[w].index);
  }

  /** `ActiveBelow`: the still-active callers of `v` sit below it on the stack. */
  lemma ActiveBelow<V>(st: seq<V>, active: set<V>, v: V, p: nat)
    requires p < |st| && st[p] == v
    requires forall u :: u in active ==> u in st
    requires forall k :: p < k < |st| ==> st[k] !in active
    ensures forall u :: u in active - {v} ==> u in st[..p]
  {
    forall u | u in active - {v} ensures u in st[..p] {
      var k :| 0 <= k < |st| && st[k] == u;
      assert st[..p][k] == u;
    }
  }

  /** Having examined every edge, `v` is settled. */
  lemma ExaminedSettles<V>(out: map<V, set<V>>, s: State<V>, v: V)
    requires v in s.mapping && Examined(s, v, Out(out, v))
    ensures Settled(out, s.mapping, s.stack, s.sccs, v)
  {
  }

  /** The end of `visit(v)` when its low-link equals its index: the popped state keeps the invariant. */
  lemma LeftPopped<V>(vertices: set<V>, out: map<V, set<V>>, s0: State<V>, s: State<V>, v: V, a0: set<V>)
    requires Inv(vertices, out, s, a0 + {v}) && v !in a0
    requires Visiting(s0, s, v, a0 + {v}, Out(out, v))
    requires s.mapping[v].lowLink == s.mapping[v].index
    ensures |s0.stack| < |s.stack| && s.stack[|s0.stack|] == v
    ensures forall k :: |s0.stack| < k < |s.stack| ==> s.stack[k] != v
    ensures Inv(vertices, out, Popped(s, |s0.stack|), a0)
    ensures VisitEffect(s0, Popped(s, |s0.stack|), v, a0)
  {
    LeavePopped(s0, s, v, a0, Out(out, v));
    ActiveBelow(s.stack, a0 + {v}, v, |s0.stack|);
    ExaminedSettles(out, s, v);
    PopKeepsInv(vertices, out, s, a0 + {v}, |s0.stack|);
    assert a0 + {v} - {v} == a0;
  }

  /** The end of `visit(v)` when its low-link is below its index: `v` stays on the stack, settled. */
  lemma LeftOnStack<V>(vertices: set<V>, out: map<V, set<V>>, s0: State<V>, s: State<V>, v: V, a0: set<V>)
    requires Inv(vertices, out, s, a0 + {v}) && v !in a0
    requires Visiting(s0, s, v, a0 + {v}, Out(out, v))
    requires s.mapping[v].lowLink != s.mapping[v].index
    ensures Inv(vertices, out, s, a0) && VisitEffect(s0, s, v, a0)
  {
    LeaveOnStack(s0, s, v, a0, Out(out, v));
    ExaminedSettles(out, s, v);
  }

  /** A `visit` called on an empty stack leaves the stack empty: the vertex it started from was popped. */
  lemma TopLevelVisit<V>(s0: State<V>, s: State<V>, v: V, active: set<V>)
    requires s0.stack == []
    requires StackOrdered(s.mapping, s.stack) && LowsAboveBottom(s.mapping, s.stack)
    requires VisitEffect(s0, s, v, active)
    ensures s.stack == []
    ensures s0.mapping.Keys + {v} <= s.mapping.Keys
  {
  }

  /**
    Once every vertex is discovered and the stack is empty, the components
    partition the vertices and every edge leads to the same or an earlier
    component.
   */
  lemma Finished<V>(vertices: set<V>, out: map<V, set<V>>, s: State<V>)
    requires Inv(vertices, out, s, {}) && s.stack == []
    requires vertices <= s.mapping.Keys
    ensures Union(s.sccs) == vertices
    ensures forall i :: 0 <= i < |s.sccs| ==> s.sccs[i] != {}
    ensures forall i, j :: 0 <= i < j < |s.sccs| ==> s.sccs[i] !! s.sccs[j]
    ensures ReverseTopological(out, s.sccs)
  {
    assert Partitioned(s.mapping, s.stack, s.sccs);
  }
}
