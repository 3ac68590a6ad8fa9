/**
  `scl.graph`: a directed graph stored as a set of vertices and a set-valued
  dictionary from source to destinations, with the number of edges kept in a
  counter that every mutation adjusts instead of recomputing it.
 */
module Graphs {

  /** Every (key, value) pair stored in a set-valued dictionary. */
  function Pairs<K, T>(m: map<K, set<T>>): set<(K, T)>
  {
    set k, v | k in m && v in m[k] :: (k, v)
  }

  /** `mapping.get(k)` with an absent key read as the empty set. */
  function ValuesAt<K, T>(m: map<K, set<T>>, k: K): set<T>
  {
    if k in m then m[k] else {}
  }

  /** The pairs whose key is `k`. */
  function KeyPairs<K, T>(m: map<K, set<T>>, k: K): set<(K, T)>
  {
    set v | v in ValuesAt(m, k) :: (k, v)
  }

  lemma ValuesAtPairs<K, T>(m: map<K, set<T>>, k: K)
    ensures forall x :: x in ValuesAt(m, k) <==> (k, x) in Pairs(m)
  {
    forall x | (k, x) in Pairs(m) ensures x in ValuesAt(m, k) {
      assert k in m && x in m[k];
    }
  }

  /** Pairing every member of `s` with one fixed key keeps the number of members. */
  lemma {:induction false} PairedSize<K, T>(k: K, s: set<T>)
    ensures |set v | v in s :: (k, v)| == |s|
    decreases |s|
  {
    if s != {} {
      var x :| x in s;
      var rest := s - {x};
      PairedSize(k, rest);
      assert (set v | v in s :: (k, v)) == (set v | v in rest :: (k, v)) + {(k, x)};
    }
  }

  lemma PairsOfAdd<K, T>(m: map<K, set<T>>, k: K, v: T)
    ensures Pairs(m[k := ValuesAt(m, k) + {v}]) == Pairs(m) + {(k, v)}
  {
    var m' := m[k := ValuesAt(m, k) + {v}];
    forall p | p in Pairs(m') ensures p in Pairs(m) + {(k, v)} {
      if p.0 != k { assert p.0 in m && p.1 in m[p.0]; }
    }
    forall p | p in Pairs(m) + {(k, v)} ensures p in Pairs(m') {
      assert p.0 in m' && p.1 in m'[p.0];
    }
  }

  lemma PairsOfRemove<K, T>(m: map<K, set<T>>, k: K, v: T)
    requires k in m
    ensures Pairs(m[k := m[k] - {v}]) == Pairs(m) - {(k, v)}
  {
    var m' := m[k := m[k] - {v}];
    forall p | p in Pairs(m') ensures p in Pairs(m) - {(k, v)} {
      if p.0 != k { assert p.0 in m && p.1 in m[p.0]; }
    }
    forall p | p in Pairs(m) - {(k, v)} ensures p in Pairs(m') {
      assert p.0 in m' && p.1 in m'[p.0];
    }
  }

  lemma PairsOfRemoveKey<K, T>(m: map<K, set<T>>, k: K)
    ensures Pairs(m - {k}) == Pairs(m) - KeyPairs(m, k)
    ensures KeyPairs(m, k) <= Pairs(m)
    ensures |Pairs(m - {k})| == |Pairs(m)| - |ValuesAt(m, k)|
  {
    var m' := m - {k};
    forall p | p in Pairs(m') ensures p in Pairs(m) - KeyPairs(m, k) {
      assert p.0 in m && p.1 in m[p.0];
    }
    forall p | p in Pairs(m) - KeyPairs(m, k) ensures p in Pairs(m') {
      assert p.0 in m' && p.1 in m'[p.0];
    }
    PairedSize(k, ValuesAt(m, k));
    assert Pairs(m) * KeyPairs(m, k) == KeyPairs(m, k);
  }

  /** `_MultiDict`: a dictionary of sets together with the number of pairs it holds. */
  class MultiDict<K(==), T(==)> {
    var mapping: map<K, set<T>>
    var count: int

    ghost predicate Valid()
      reads this
    {
      count == |Pairs(mapping)|
    }

    constructor ()
      ensures Valid() && mapping == map[]
    {
      mapping := map[];
      count := 0;
    }

    /** `add`: creates the key's set on first use; counts the pair only when it is new. */
    method Add(k: K, v: T)
      requires Valid()
      modifies this
      ensures Valid()
      ensures mapping == old(mapping)[k := ValuesAt(old(mapping), k) + {v}]
      ensures Pairs(mapping) == old(Pairs(mapping)) + {(k, v)}
      ensures count == old(count) + if (k, v) in old(Pairs(mapping)) then 0 else 1
    {
      PairsOfAdd(mapping, k, v);
      ghost var mapping0 := mapping;
      var m: set<T>;
      if k !in mapping {
        mapping := mapping[k := {}];
        m := {};
      } else {
        m := mapping[k];
      }
      if v !in m {
        assert (k, v) !in Pairs(mapping0);
        mapping := mapping[k := mapping[k] + {v}];
        assert mapping == mapping0[k := ValuesAt(mapping0, k) + {v}];
        count := count + 1;
      } else {
        assert k in mapping0 && mapping == mapping0;
        assert mapping0[k] + {v} == mapping0[k];
      }
    }

    /** `has`: whether the pair is stored. */
    method Has(k: K, v: T) returns (b: bool)
      ensures b <==> (k, v) in Pairs(mapping)
    {
      b := k in mapping && v in mapping[k];
    }

    /** `count`: the size of the key's set, 0 for an absent key. */
    method Count(k: K) returns (n: nat)
      ensures n == |KeyPairs(mapping, k)|
    {
      PairedSize(k, ValuesAt(mapping, k));
      n := if k in mapping then |mapping[k]| else 0;
    }

    /** `remove_key`: drops the key and subtracts the size of its set. */
    method RemoveKey(k: K)
      requires Valid()
      modifies this
      ensures Valid()
      ensures mapping == old(mapping) - {k}
      ensures Pairs(mapping) == old(Pairs(mapping)) - old(KeyPairs(mapping, k))
      ensures count == old(count) - old(|ValuesAt(mapping, k)|)
    {
      PairsOfRemoveKey(mapping, k);
      if k in mapping {
        count := count - |mapping[k]|;
        mapping := mapping - {k};
      }
    }

    /** `remove`: removes the pair if present and only then decrements the count. */
    method Remove(k: K, v: T)
      requires Valid()
      modifies this
      ensures Valid()
      ensures Pairs(mapping) == old(Pairs(mapping)) - {(k, v)}
      ensures count == old(count) - if (k, v) in old(Pairs(mapping)) then 1 else 0
    {
      if k in mapping {
        if v !in mapping[k] {
          return;
        }
        PairsOfRemove(mapping, k, v);
        mapping := mapping[k := mapping[k] - {v}];
        count := count - 1;
      }
    }

    /** `__len__`: the counter, which equals the number of stored pairs. */
    method Len() returns (n: int)
      requires Valid()
      ensures n == |Pairs(mapping)|
    {
      n := count;
    }

    /** `__getitem__`: the key's set, empty for an absent key. */
    method Get(k: K) returns (s: set<T>)
      ensures forall v :: v in s <==> (k, v) in Pairs(mapping)
    {
      s := if k in mapping then mapping[k] else {};
    }
  }

  /** The edges of `edges` that start or end at `v`. */
  function Touching<V(==)>(edges: set<(V, V)>, v: V): set<(V, V)>
  {
    set e | e in edges && (e.0 == v || e.1 == v)
  }

  class Graph<V(==)> {
    var vertices: set<V>
    const srcToDst: MultiDict<V, V>
    var edgeCount: int

    /** The stored edges, as (source, destination) pairs. */
    ghost function Edges(): set<(V, V)>
      reads this, srcToDst
    {
      Pairs(srcToDst.mapping)
    }

    /**
      The edge counter agrees with the dictionary's own count, and every edge
      joins two vertices of the graph.
     */
    ghost predicate Valid()
      reads this, srcToDst
    {
      && srcToDst.Valid()
      && edgeCount == srcToDst.count
      && forall e :: e in Edges() ==> e.0 in vertices && e.1 in vertices
    }

    constructor ()
      ensures Valid() && fresh(srcToDst)
      ensures vertices == {} && Edges() == {}
    {
      vertices := {};
      srcToDst := new MultiDict();
      edgeCount := 0;
    }

    method AddVertex(v: V)
      requires Valid()
      modifies this
      ensures Valid()
      ensures vertices == old(vertices) + {v}
      ensures Edges() == old(Edges()) && edgeCount == old(edgeCount)
    {
      vertices := vertices + {v};
    }

    method HasVertex(v: V) returns (b: bool)
      ensures b <==> v in vertices
    {
      b := v in vertices;
    }

    method CountVertices() returns (n: nat)
      ensures n == |vertices|
    {
      n := |vertices|;
    }

    /** `count_edges`: the counter, which equals the number of stored edges. */
    method CountEdges() returns (n: int)
      requires Valid()
      ensures n == |Edges()|
    {
      n := edgeCount;
    }

    /** `has_edge`: exactly the stored pairs. */
    method HasEdge(src: V, dst: V) returns (b: bool)
      ensures b <==> (src, dst) in Edges()
    {
      b := srcToDst.Has(src, dst);
    }

    /** `get_out_vertices`: the destinations of the edges leaving `src`. */
    method GetOutVertices(src: V) returns (s: set<V>)
      ensures forall d :: d in s <==> (src, d) in Edges()
    {
      s := srcToDst.Get(src);
    }

    /** `add_edge`: adds both endpoints as vertices; counts the edge only when it is new. */
    method AddEdge(src: V, dst: V)
      requires Valid()
      modifies this, srcToDst
      ensures Valid()
      ensures vertices == old(vertices) + {src, dst}
      ensures Edges() == old(Edges()) + {(src, dst)}
      ensures edgeCount == old(edgeCount) + if (src, dst) in old(Edges()) then 0 else 1
    {
      AddingEdge(Edges(), vertices, src, dst);
      vertices := vertices + {src} + {dst};
      Store(src, dst);
    }

    /** The counted part of `add_edge`: stores the pair and counts it when it is new. */
    method Store(src: V, dst: V)
      requires srcToDst.Valid() && edgeCount == srcToDst.count
      modifies this, srcToDst
      ensures srcToDst.Valid() && edgeCount == srcToDst.count && vertices == old(vertices)
      ensures Edges() == old(Edges()) + {(src, dst)}
      ensures edgeCount == old(edgeCount) + if (src, dst) in old(Edges()) then 0 else 1
    {
      var present := srcToDst.Has(src, dst);
      if !present {
        srcToDst.Add(src, dst);
        edgeCount := edgeCount + 1;
      }
    }

    /** `remove_edge`: removes and uncounts the edge only if it exists. */
    method RemoveEdge(src: V, dst: V)
      requires Valid()
      modifies this, srcToDst
      ensures Valid()
      ensures vertices == old(vertices)
      ensures Edges() == old(Edges()) - {(src, dst)}
      ensures edgeCount == old(edgeCount) - if (src, dst) in old(Edges()) then 1 else 0
    {
      var present := srcToDst.Has(src, dst);
      if present {
        srcToDst.Remove(src, dst);
        edgeCount := edgeCount - 1;
      }
    }

    /**
      The first half of `remove_vertex`: scans every vertex's destinations and
      lists, once each, the edges that end at `v` and start at another vertex
      (all of them, once `v` is no longer a vertex).
     */
    method EdgesInto(v: V) returns (edgesToRemove: seq<(V, V)>)
      requires srcToDst.Valid()
      requires forall e :: e in Edges() ==> e.0 in vertices || e.0 == v
      ensures forall e :: e in edgesToRemove <==> e in Edges() && e.1 == v && e.0 != v
      ensures forall i, j :: 0 <= i < j < |edgesToRemove| ==> edgesToRemove[i] != edgesToRemove[j]
    {
      edgesToRemove := [];
      ghost var collected: set<(V, V)> := {};
      var todo := vertices - {v};
      while todo != {}
        invariant todo <= vertices - {v}
        invariant forall e :: e in collected <==> e in Edges() && e.1 == v && e.0 in vertices - {v} - todo
        invariant forall e :: e in collected <==> e in edgesToRemove
        invariant forall i, j :: 0 <= i < j < |edgesToRemove| ==> edgesToRemove[i] != edgesToRemove[j]
        decreases todo
      {
        var src :| src in todo;
        var dsts := srcToDst.Get(src);
        var rest := dsts;
        while rest != {}
          invariant rest <= dsts
          invariant forall e :: e in collected <==>
            e in Edges() && e.1 == v && (e.0 in vertices - {v} - todo || (e.0 == src && v !in rest))
          invariant forall e :: e in collected <==> e in edgesToRemove
          invariant forall i, j :: 0 <= i < j < |edgesToRemove| ==> edgesToRemove[i] != edgesToRemove[j]
          decreases rest
        {
          var d :| d in rest;
          if d == v {
            assert (src, d) !in collected;
            edgesToRemove := edgesToRemove + [(src, d)];
            collected := collected + {(src, d)};
          }
          rest := rest - {d};
        }
        todo := todo - {src};
      }
    }

    /**
      The loop of `remove_vertex` that removes the collected edges, none of
      which leaves `v`, one after the other.
     */
    method RemoveEach(edgesToRemove: seq<(V, V)>, v: V)
      requires srcToDst.Valid()
      requires forall e :: e in edgesToRemove ==> e in Edges() && e.0 != v
      requires forall i, j :: 0 <= i < j < |edgesToRemove| ==> edgesToRemove[i] != edgesToRemove[j]
      modifies srcToDst
      ensures srcToDst.Valid()
      ensures forall e :: e in Edges() <==> e in old(Edges()) && e !in edgesToRemove
      ensures srcToDst.count == old(srcToDst.count) - |edgesToRemove|
      ensures ValuesAt(srcToDst.mapping, v) == old(ValuesAt(srcToDst.mapping, v))
    {
      var k := 0;
      while k < |edgesToRemove|
        invariant k <= |edgesToRemove|
        invariant srcToDst.Valid()
        invariant forall e :: e in Edges() <==> e in old(Edges()) && e !in edgesToRemove[..k]
        invariant srcToDst.count == old(srcToDst.count) - k
        invariant ValuesAt(srcToDst.mapping, v) == old(ValuesAt(srcToDst.mapping, v))
      {
        var e := edgesToRemove[k];
        assert e !in edgesToRemove[..k];
        assert edgesToRemove[..k + 1] == edgesToRemove[..k] + [e];
        ghost var before := srcToDst.mapping;
        srcToDst.Remove(e.0, e.1);
        RemovingOtherKey(before, srcToDst.mapping, e, v);
        k := k + 1;
      }
      assert edgesToRemove[..k] == edgesToRemove;
    }

    /**
      `remove_vertex`: nothing happens for an absent vertex. Otherwise the
      vertex goes, the edges into it from other vertices are collected, the
      counter drops by those plus the vertex's own out-degree (a self-loop is
      counted among the latter only), and all of them are removed.
     */
    method RemoveVertex(v: V)
      requires Valid()
      modifies this, srcToDst
      ensures Valid()
      ensures vertices == old(vertices) - {v}
      ensures Edges() == old(Edges()) - Touching(old(Edges()), v)
      ensures edgeCount == old(edgeCount) - |Touching(old(Edges()), v)|
    {
      ghost var edges0 := Edges();
      ghost var mapping0 := srcToDst.mapping;
      if v !in vertices {
        assert Touching(edges0, v) == {};
        return;
      }
      vertices := vertices - {v};
      var edgesToRemove := EdgesInto(v);
      var outDegree := srcToDst.Count(v);
      edgeCount := edgeCount - (|edgesToRemove| + outDegree);
      RemoveEach(edgesToRemove, v);
      ghost var middle := Edges();
      KeyPairsOf(mapping0, v);
      srcToDst.RemoveKey(v);
      RemovalAccounting(edges0, v, edgesToRemove, middle, KeyPairs(mapping0, v), Edges());
      AvoidingVertex(edges0, old(vertices), v);
    }
  }

  /** An added edge joins two vertices once both of its endpoints are added. */
  lemma AddingEdge<V>(edges: set<(V, V)>, vertices: set<V>, src: V, dst: V)
    requires forall e :: e in edges ==> e.0 in vertices && e.1 in vertices
    ensures forall e :: e in edges + {(src, dst)} ==> e.0 in vertices + {src} + {dst} && e.1 in vertices + {src} + {dst}
  {
  }

  /** Once the edges at `v` are gone, the others join vertices other than `v`. */
  lemma AvoidingVertex<V>(edges: set<(V, V)>, vertices: set<V>, v: V)
    requires forall e :: e in edges ==> e.0 in vertices && e.1 in vertices
    ensures forall e :: e in edges - Touching(edges, v) ==> e.0 in vertices - {v} && e.1 in vertices - {v}
  {
  }

  /** A sequence without repetitions has as many elements as members. */
  lemma {:induction false} DistinctElements<T>(s: seq<T>)
    requires forall i, j :: 0 <= i < j < |s| ==> s[i] != s[j]
    ensures |set x | x in s| == |s|
  {
    if s != [] {
      var init := s[..|s| - 1];
      DistinctElements(init);
      assert (set x | x in s) == (set x | x in init) + {s[|s| - 1]};
    }
  }

  /** Removing a pair under another key leaves the values under `k` as they were. */
  lemma RemovingOtherKey<K, T>(m: map<K, set<T>>, m': map<K, set<T>>, p: (K, T), k: K)
    requires Pairs(m') == Pairs(m) - {p}
    requires p.0 != k
    ensures ValuesAt(m', k) == ValuesAt(m, k)
  {
    ValuesAtPairs(m, k);
    ValuesAtPairs(m', k);
  }

  /** The pairs under `k` are the stored pairs whose key is `k`. */
  lemma KeyPairsOf<K, T>(m: map<K, set<T>>, k: K)
    ensures forall p :: p in KeyPairs(m, k) <==> p in Pairs(m) && p.0 == k
    ensures |KeyPairs(m, k)| == |ValuesAt(m, k)|
  {
    PairedSize(k, ValuesAt(m, k));
    forall p | p in Pairs(m) && p.0 == k ensures p in KeyPairs(m, k) {
      assert p.0 in m && p.1 in m[p.0];
    }
  }

  /**
    Removing first the edges entering `v` from elsewhere (listed once each)
    and then the edges leaving `v` removes exactly the edges at `v`, and
    their number is the sum of the two counts.
   */
  lemma RemovalAccounting<V>(edges: set<(V, V)>, v: V, entering: seq<(V, V)>, middle: set<(V, V)>, leaving: set<(V, V)>, final: set<(V, V)>)
    requires forall e :: e in entering <==> e in edges && e.1 == v && e.0 != v
    requires forall i, j :: 0 <= i < j < |entering| ==> entering[i] != entering[j]
    requires forall e :: e in middle <==> e in edges && e !in entering
    requires forall e :: e in leaving <==> e in middle && e.0 == v
    requires final == middle - leaving
    ensures final == edges - Touching(edges, v)
    ensures |Touching(edges, v)| == |entering| + |leaving|
  {
    var into := set e | e in entering;
    DistinctElements(entering);
    assert Touching(edges, v) == into + leaving;
    assert into !! leaving;
  }
}
