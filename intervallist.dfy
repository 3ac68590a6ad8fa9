/**
  `scl.intervallist`: a list of closed intervals kept in order of `start`.
  New intervals are inserted after every interval whose start is no larger;
  membership is a stub and removal is not implemented.
 */
module IntervalLists {
  import opened Util

  datatype Interval = Interval(start: int, stop: int)

  /** The argument of `__contains__`, which accepts any object. */
  datatype Probe = IntervalProbe(interval: Interval) | OtherProbe

  /** The key the list is ordered by (`key='start'`). */
  function Start(iv: Interval): int { iv.start }

  /** The number of intervals in `s` whose start is at most `x`. */
  function CountStartAtMost(s: seq<Interval>, x: int): (n: nat)
    ensures n <= |s|
  {
    if s == [] then 0
    else CountStartAtMost(s[..|s| - 1], x) + (if s[|s| - 1].start <= x then 1 else 0)
  }

  /** On a sorted list the count splits it: starts up to `x` first, larger starts after. */
  lemma {:induction false} CountSplits(s: seq<Interval>, x: int)
    requires SortedBy(s, Start)
    ensures forall k :: 0 <= k < CountStartAtMost(s, x) ==> s[k].start <= x
    ensures forall k :: CountStartAtMost(s, x) <= k < |s| ==> s[k].start > x
  {
    if s != [] {
      var init := s[..|s| - 1];
      assert SortedBy(init, Start) by {
        forall a, b | 0 <= a < b < |init| ensures init[a].start <= init[b].start {
          assert init[a] == s[a] && init[b] == s[b];
        }
      }
      CountSplits(init, x);
      if s[|s| - 1].start > x {
        forall k | CountStartAtMost(init, x) <= k < |init|
          ensures s[k].start > x
        {
          assert init[k] == s[k];
        }
      } else {
        forall k | 0 <= k < |init|
          ensures s[k].start <= x
        {
          assert s[k].start <= s[|s| - 1].start;
        }
      }
    }
  }

  /** Any split point of the kind `binary_search_right` returns is the count. */
  lemma {:induction false} SplitIsCount(s: seq<Interval>, x: int, r: nat)
    requires r <= |s|
    requires forall k :: 0 <= k < r ==> s[k].start <= x
    requires forall k :: r <= k < |s| ==> s[k].start > x
    ensures CountStartAtMost(s, x) == r
  {
    if s != [] {
      var init := s[..|s| - 1];
      if r == |s| {
        SplitIsCount(init, x, r - 1);
      } else {
        SplitIsCount(init, x, r);
      }
    }
  }

  /** `s` with `v` inserted after every interval whose start is at most `v.start`. */
  function Inserted(s: seq<Interval>, v: Interval): seq<Interval>
  {
    InsertAt(s, CountStartAtMost(s, v.start), v)
  }

  /**
    Inserting keeps the list sorted by start and places `v` after every old
    interval with a start no larger than its own, before every larger one.
   */
  lemma InsertedKeepsOrder(s: seq<Interval>, v: Interval)
    requires SortedBy(s, Start)
    ensures SortedBy(Inserted(s, v), Start)
    ensures |Inserted(s, v)| == |s| + 1
    ensures multiset(Inserted(s, v)) == multiset(s) + multiset{v}
    ensures var i := CountStartAtMost(s, v.start);
      && Inserted(s, v)[i] == v
      && Inserted(s, v)[..i] + Inserted(s, v)[i + 1..] == s
      && (forall k :: 0 <= k < i ==> s[k].start <= v.start)
      && (forall k :: i <= k < |s| ==> s[k].start > v.start)
  {
    var i := CountStartAtMost(s, v.start);
    var r := Inserted(s, v);
    CountSplits(s, v.start);
    InsertAtShape(s, i, v);
    InsertAtSorted(s, i, v, Start);
  }

  /** The list the constructor builds: each value added in turn. */
  function AddAll(s: seq<Interval>, values: seq<Interval>): seq<Interval>
    decreases |values|
  {
    if values == [] then s else AddAll(Inserted(s, values[0]), values[1..])
  }

  lemma {:induction false} AddAllKeepsOrder(s: seq<Interval>, values: seq<Interval>)
    requires SortedBy(s, Start)
    ensures SortedBy(AddAll(s, values), Start)
    ensures multiset(AddAll(s, values)) == multiset(s) + multiset(values)
    decreases |values|
  {
    if values != [] {
      InsertedKeepsOrder(s, values[0]);
      AddAllKeepsOrder(Inserted(s, values[0]), values[1..]);
      assert values == [values[0]] + values[1..];
    }
  }

  class IntervalList {
    var elements: seq<Interval>

    ghost predicate Valid()
      reads this
    {
      SortedBy(elements, Start)
    }

    /** The number of stored intervals (`__len__`), each counted with its multiplicity. */
    function Len(): (r: nat)
      reads this
      ensures r == |multiset(elements)|
    {
      |elements|
    }

    /** Builds an empty list and adds `values` one by one, in order. */
    constructor (values: seq<Interval>)
      ensures Valid()
      ensures elements == AddAll([], values)
    {
      elements := [];
      new;
      var k := 0;
      while k < |values|
        invariant k <= |values|
        invariant Valid()
        invariant AddAll(elements, values[k..]) == AddAll([], values)
      {
        assert values[k..][1..] == values[k + 1..];
        Add(values[k]);
        k := k + 1;
      }
    }

    /**
      `add`: an empty list gets the value appended; otherwise it is inserted
      at the position `binary_search_right` finds for its start.
     */
    method Add(value: Interval)
      requires Valid()
      modifies this
      ensures Valid()
      ensures elements == Inserted(old(elements), value)
      ensures Len() == old(Len()) + 1
    {
      InsertedKeepsOrder(elements, value);
      if elements == [] {
        elements := elements + [value];
      } else {
        var i := BinarySearchRight(elements, value.start, Start);
        SplitIsCount(elements, value.start, i);
        elements := elements[..i] + [value] + elements[i..];
      }
    }

    /**
      `__contains__`: false for anything that is not an interval and true for
      every interval, whatever the list holds. The binary search it performs
      has no effect on the answer, and the loop after it has an empty body.
     */
    method Contains(x: Probe) returns (b: bool)
      ensures b <==> x.IntervalProbe?
    {
      if !x.IntervalProbe? {
        return false;
      }
      var i := BinarySearchLeft(elements, x.interval.start, Start);
      b := true;
    }

    /** `discard` raises `NotImplementedError` and changes nothing. */
    method Discard(value: Interval) returns (r: Unsupported)
      ensures r == NotImplemented
    {
      r := NotImplemented;
    }
  }

  /**
    The project's test expects `Interval(1, 2) in l` to be false on an empty
    list; `Contains` answers true.
   */
  method EmptyListContainsEveryInterval() {
    var l := new IntervalList([]);
    var b := l.Contains(IntervalProbe(Interval(1, 2)));
    assert b;
    assert l.Len() == 0;
  }
}
