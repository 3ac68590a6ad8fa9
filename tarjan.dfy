/**
  The `strongconnect` generator itself: the shared records, counter and
  stack of its nested `visit`, kept as the fields of one object.
 */
module StrongConnect {
  import opened Graphs
  import opened TarjanState
  import opened StrongComponents
  import opened ComponentReach

  /** Taking `w` out of the part of `all` still to do adds it to the part done. */
  lemma TakeOne<T>(all: set<T>, rest: set<T>, w: T)
    requires w in rest && rest <= all
    ensures all - (rest - {w}) == (all - rest) + {w}
  {
  }

  /** Before the loop over `all`, nothing of it is done. */
  lemma NoneDone<T>(all: set<T>)
    ensures all - all == {}
  {
  }

  /** After the loop over `all`, all of it is done. */
  lemma NoneLeft<T>(all: set<T>)
    ensures all - {} == all
  {
  }

  class Tarjan<V(==, !new)> {
    const vertices: set<V>
    const out: map<V, set<V>>
    var mapping: map<V, Data>
    var index: nat
    var stack: seq<V>
    var sccs: seq<set<V>>
    ghost var active: set<V>

    ghost function Snapshot(): State<V>
      reads this
    {
      State(mapping, index, stack, sccs)
    }

    ghost predicate Valid()
      reads this
    {
      && Inv(vertices, out, State(mapping, index, stack, sccs), active)
      && Connected(out, State(mapping, index, stack, sccs), active)
    }

    /** Inside `visit(v)`, started from `s0`, once the successors in `done` are examined. */
    ghost predicate InVisit(s0: State<V>, v: V, done: set<V>)
      reads this
    {
      Visiting(s0, State(mapping, index, stack, sccs), v, active, done)
    }

    /** A `visit(v)` started from `s0` has returned. */
    ghost predicate Visited(s0: State<V>, v: V)
      reads this
    {
      VisitEffect(s0, State(mapping, index, stack, sccs), v, active)
    }

    constructor (vertices: set<V>, out: map<V, set<V>>)
      requires GraphClosed(vertices, out)
      ensures Valid() && active == {}
      ensures this.vertices == vertices && this.out == out
      ensures mapping == map[] && index == 0 && stack == [] && sccs == []
    {
      this.vertices := vertices;
      this.out := out;
      mapping := map[];
      index := 0;
      stack := [];
      sccs := [];
      active := {};
      ConnectedInitially(out);
    }

    /**
      The loop of `visit` that pops the stack down to and including `v`,
      clearing `on_stack` and collecting the popped vertices.
     */
    method PopComponent(v: V, ghost p: nat) returns (scc: set<V>)
      requires p < |stack| && stack[p] == v
      requires forall k :: p < k < |stack| ==> stack[k] != v
      modifies this
      ensures scc == Members(old(stack)[p..])
      ensures stack == old(stack)[..p]
      ensures mapping == ClearFlags(old(mapping), old(stack)[p..])
      ensures index == old(index) && sccs == old(sccs) && active == old(active)
    {
      ghost var st := stack;
      scc := {};
      var popping := true;
      while popping
        invariant p <= |stack| <= |st| && stack == st[..|stack|]
        invariant popping <==> |stack| > p
        invariant scc == Members(st[|stack|..])
        invariant mapping == ClearFlags(old(mapping), st[|stack|..])
        invariant index == old(index) && sccs == old(sccs) && active == old(active)
        decreases |stack|
      {
        var w := stack[|stack| - 1];
        assert st[|stack| - 1..] == [w] + st[|stack|..];
        stack := stack[..|stack| - 1];
        if w in mapping {
          mapping := mapping[w := mapping[w].(onStack := false)];
        }
        scc := scc + {w};
        popping := w != v;
      }
    }

    /**
      `visit(v)`: number `v`, push it, examine its edges, then pop and yield a
      component when the low-link has stayed at the index. The callee leaves
      either `v` popped in a new last component, or `v` on the stack above
      the caller's part with a smaller low-link than index.
     */
    method Visit(v: V)
      requires Valid() && v !in mapping && v in vertices
      requires forall a :: a in active ==> Reach(out, a, v)
      modifies this
      decreases vertices - mapping.Keys, 0
      ensures Valid() && active == old(active)
      ensures Visited(old(Snapshot()), v)
    {
      ghost var s0, a0 := Snapshot(), active;
      mapping := mapping[v := Data(index, index, true)];
      index := index + 1;
      stack := stack + [v];
      active := active + {v};
      Entered(vertices, out, s0, Snapshot(), a0, v);
      PushConnected(out, s0, a0, v);
      var rest := Out(out, v);
      NoneDone(rest);
      while rest != {}
        invariant Valid() && active == a0 + {v} && v !in a0
        invariant rest <= Out(out, v)
        invariant InVisit(s0, v, Out(out, v) - rest)
        invariant vertices - mapping.Keys < vertices - s0.mapping.Keys
        decreases rest
      {
        var w :| w in rest;
        ghost var done := Out(out, v) - rest;
        TakeOne(Out(out, v), rest, w);
        rest := rest - {w};
        Examine(v, w, s0, done);
      }
      NoneLeft(Out(out, v));
      Leave(v, s0, a0);
    }

    /**
      One pass of `visit`'s loop over the edge `v -> w`: recurse into an
      undiscovered `w` and lower `v`'s low-link to `w`'s, lower it to the
      index of a `w` still on the stack, or skip a `w` already in a component.
     */
    method Examine(v: V, w: V, ghost s0: State<V>, ghost done: set<V>)
      requires Valid() && v in active && w in Out(out, v)
      requires InVisit(s0, v, done)
      modifies this
      decreases vertices - mapping.Keys, 1
      ensures Valid() && active == old(active)
      ensures InVisit(s0, v, done + {w})
      ensures mapping.Keys >= old(mapping.Keys)
    {
      ghost var s1 := Snapshot();
      if w !in mapping {
        assert w in vertices;
        ActiveReach(vertices, out, s0, s1, v, w, active, done);
        Visit(w);
        ghost var s2 := Snapshot();
        ChildReturned(vertices, out, s0, s1, s2, v, w, active, done);
        ChildConnected(out, s1, s2, v, w, active);
        mapping := mapping[v := mapping[v].(lowLink := Min(mapping[v].lowLink, mapping[w].lowLink))];
        assert Snapshot() == Lowered(s2, v, s2.mapping[w].lowLink);
      } else if mapping[w].onStack {
        OnStackSeen(vertices, out, s0, s1, v, w, active, done);
        OnStackConnected(out, s1, v, w, active);
        mapping := mapping[v := mapping[v].(lowLink := Min(mapping[v].lowLink, mapping[w].index))];
        assert Snapshot() == Lowered(s1, v, s1.mapping[w].index);
      } else {
        SuccessorFinished(s0, s1, v, w, active, done);
      }
    }

    /**
      The end of `visit(v)` once every edge is examined: pop the stack down
      to `v` into a new component when `v`'s low-link equals its index.
     */
    method Leave(v: V, ghost s0: State<V>, ghost a0: set<V>)
      requires Valid() && active == a0 + {v} && v !in a0
      requires InVisit(s0, v, Out(out, v))
      modifies this
      ensures Valid() && active == a0
      ensures Visited(s0, v)
    {
      Leaving(v, s0, a0);
      if mapping[v].lowLink == mapping[v].index {
        PopVisited(v, s0, a0);
      } else {
        active := a0;
      }
    }

    /** Pops `v`'s component and yields it, as `visit` does when `v`'s low-link equals its index. */
    method PopVisited(v: V, ghost s0: State<V>, ghost a0: set<V>)
      requires v in mapping && |s0.stack| < |stack| && stack[|s0.stack|] == v
      requires forall k :: |s0.stack| < k < |stack| ==> stack[k] != v
      requires Inv(vertices, out, Popped(Snapshot(), |s0.stack|), a0)
      requires Connected(out, Popped(Snapshot(), |s0.stack|), a0)
      requires VisitEffect(s0, Popped(Snapshot(), |s0.stack|), v, a0)
      modifies this
      ensures Valid() && active == a0
      ensures Visited(s0, v)
    {
      ghost var s := Snapshot();
      var scc := PopComponent(v, |s0.stack|);
      sccs := sccs + [scc];
      active := a0;
      assert Snapshot() == Popped(s, |s0.stack|);
    }

    /** What `Leave` relies on, for the current state: `LeftPopped` or `LeftOnStack`. */
    lemma Leaving(v: V, s0: State<V>, a0: set<V>)
      requires Valid() && active == a0 + {v} && v !in a0
      requires InVisit(s0, v, Out(out, v))
      ensures v in mapping
      ensures mapping[v].lowLink == mapping[v].index ==>
        && |s0.stack| < |stack| && stack[|s0.stack|] == v
        && (forall k :: |s0.stack| < k < |stack| ==> stack[k] != v)
        && Inv(vertices, out, Popped(Snapshot(), |s0.stack|), a0)
        && Connected(out, Popped(Snapshot(), |s0.stack|), a0)
        && VisitEffect(s0, Popped(Snapshot(), |s0.stack|), v, a0)
      ensures mapping[v].lowLink != mapping[v].index ==>
        Inv(vertices, out, Snapshot(), a0) && Connected(out, Snapshot(), a0) && VisitEffect(s0, Snapshot(), v, a0)
    {
      if mapping[v].lowLink == mapping[v].index {
        LeftPopped(vertices, out, s0, Snapshot(), v, a0);
        PopConnected(out, Snapshot(), a0 + {v}, |s0.stack|);
        assert a0 + {v} - {v} == a0;
      } else {
        LeftOnStack(vertices, out, s0, Snapshot(), v, a0);
        LeaveConnected(out, Snapshot(), a0, v);
      }
    }
  }

  /** In a valid graph every edge ends at a vertex. */
  lemma EdgesClosed<V>(g: Graph<V>)
    requires g.Valid()
    ensures GraphClosed(g.vertices, g.srcToDst.mapping)
  {
    forall u, w | u in g.srcToDst.mapping && w in g.srcToDst.mapping[u]
      ensures w in g.vertices
    {
      assert (u, w) in g.Edges();
    }
  }

  /**
    `strongconnect(g)`: visit every vertex not discovered yet; `sccs` holds
    the components in the order the generator yields them.
   */
  method Components<V(==, !new)>(g: Graph<V>) returns (sccs: seq<set<V>>)
    requires g.Valid()
    ensures Union(sccs) == g.vertices
    ensures forall i :: 0 <= i < |sccs| ==> sccs[i] != {}
    ensures forall i, j :: 0 <= i < j < |sccs| ==> sccs[i] !! sccs[j]
    ensures ReverseTopological(g.srcToDst.mapping, sccs)
    ensures forall i, u, w :: 0 <= i < |sccs| && u in sccs[i] && w in sccs[i] ==> Reach(g.srcToDst.mapping, u, w)
    ensures forall i, j, u, w ::
      (0 <= i < |sccs| && 0 <= j < |sccs| && u in sccs[i] && w in sccs[j] &&
       Reach(g.srcToDst.mapping, u, w) && Reach(g.srcToDst.mapping, w, u)) ==> i == j
  {
    EdgesClosed(g);
    var t := new Tarjan(g.vertices, g.srcToDst.mapping);
    var todo := g.vertices;
    while todo != {}
      invariant t.Valid() && t.active == {} && t.stack == []
      invariant t.vertices == g.vertices && t.out == g.srcToDst.mapping
      invariant g.vertices - todo <= t.mapping.Keys
      decreases todo
    {
      var v :| v in todo;
      if v !in t.mapping {
        ghost var s0 := t.Snapshot();
        t.Visit(v);
        TopLevelVisit(s0, t.Snapshot(), v, t.active);
      }
      todo := todo - {v};
    }
    Finished(t.vertices, t.out, t.Snapshot());
    sccs := t.sccs;
    forall i, j, u, w | 0 <= i < |sccs| && 0 <= j < |sccs| && u in sccs[i] && w in sccs[j] &&
                        Reach(t.out, u, w) && Reach(t.out, w, u)
      ensures i == j
    {
      ComponentsMaximal(t.out, sccs, i, j, u, w);
    }
  }
}
