/**
  Sorted-sequence utilities of `scl.util`: the `nonnull` guard, in-place
  insertion of one out-of-place element, insertion sort, and the three binary
  searches. Keys are integers; a key function is an ordinary total function
  `T -> int` (the attribute-name form of a key is not modelled).
 */
module Util {

  datatype Option<T> = None | Some(value: T)

  /** The outcome of an operation that raises `NotImplementedError`. */
  datatype Unsupported = NotImplemented

  /** The source's `nonnull`: its caller must hand it a present value. */
  function NonNull<T>(value: Option<T>): (r: T)
    requires value.Some?
    ensures value == Some(r)
  {
    value.value
  }

  /** `s` is in non-decreasing order of `key`. */
  ghost predicate SortedBy<T>(s: seq<T>, key: T -> int) {
    forall i, j :: 0 <= i < j < |s| ==> key(s[i]) <= key(s[j])
  }

  /** The natural order on integers, the order used when no key is given. */
  function Identity(x: int): int { x }

  /**
    Where `sort_inserted` puts the element it lifts out of index `i`: walking
    left from `j`, the first position whose left neighbour has a key no larger
    than `k`.
   */
  ghost function Slot<T>(s: seq<T>, j: nat, k: int, key: T -> int): (r: nat)
    requires j <= |s|
    ensures r <= j
    ensures forall m :: r <= m < j ==> key(s[m]) > k
    ensures r == 0 || key(s[r - 1]) <= k
  {
    if j > 0 && key(s[j - 1]) > k then Slot(s, j - 1, k, key) else j
  }

  /** `s[i]` moved to position `j <= i`, the elements in between shifted right. */
  function Moved<T>(s: seq<T>, j: nat, i: nat): (r: seq<T>)
    requires j <= i < |s|
  {
    s[..j] + [s[i]] + s[j..i] + s[i + 1..]
  }

  /** The sequence `sort_inserted` produces: `s[i]` moved down to its slot. */
  ghost function MovedDown<T>(s: seq<T>, i: nat, key: T -> int): seq<T>
    requires i < |s|
  {
    Moved(s, Slot(s, i, key(s[i]), key), i)
  }

  /** Element by element: before `j` unchanged, then the moved element, then shifted. */
  lemma MovedAt<T>(s: seq<T>, j: nat, i: nat)
    requires j <= i < |s|
    ensures |Moved(s, j, i)| == |s|
    ensures forall m :: 0 <= m < |s| ==> Moved(s, j, i)[m] == (if m < j then s[m] else if m == j then s[i] else if m <= i then s[m - 1] else s[m])
  {
    var r := Moved(s, j, i);
    var front, back := s[..j] + [s[i]], s[j..i] + s[i + 1..];
    assert r == front + back;
    forall m | 0 <= m < |s|
      ensures r[m] == if m < j then s[m] else if m == j then s[i] else if m <= i then s[m - 1] else s[m]
    {
      if m <= j {
        assert r[m] == front[m];
      } else {
        assert r[m] == back[m - j - 1];
      }
    }
  }

  /** Python's `list.insert(i, v)`: `v` placed before index `i`. */
  function InsertAt<T>(s: seq<T>, i: nat, v: T): (r: seq<T>)
    requires i <= |s|
  {
    s[..i] + [v] + s[i..]
  }

  /** Inserting adds exactly `v` at `i` and keeps the old elements in their order. */
  lemma InsertAtShape<T>(s: seq<T>, i: nat, v: T)
    requires i <= |s|
    ensures |InsertAt(s, i, v)| == |s| + 1
    ensures forall k :: 0 <= k < |s| + 1 ==> InsertAt(s, i, v)[k] == if k < i then s[k] else if k == i then v else s[k - 1]
    ensures InsertAt(s, i, v)[..i] + InsertAt(s, i, v)[i + 1..] == s
    ensures multiset(InsertAt(s, i, v)) == multiset(s) + multiset{v}
  {
    var r := InsertAt(s, i, v);
    assert s == s[..i] + s[i..];
    assert r[..i] == s[..i] && r[i + 1..] == s[i..];
    forall k | 0 <= k < |s| + 1
      ensures r[k] == if k < i then s[k] else if k == i then v else s[k - 1]
    {
      if k < i {
        assert r[k] == r[..i][k];
      } else if k > i {
        assert r[k] == r[i + 1..][k - i - 1];
      }
    }
  }

  /** Inserting between the smaller-or-equal keys and the larger-or-equal keys keeps the order. */
  lemma InsertAtSorted<T>(s: seq<T>, i: nat, v: T, key: T -> int)
    requires i <= |s|
    requires SortedBy(s, key)
    requires forall k :: 0 <= k < i ==> key(s[k]) <= key(v)
    requires forall k :: i <= k < |s| ==> key(s[k]) >= key(v)
    ensures SortedBy(InsertAt(s, i, v), key)
  {
    var r := InsertAt(s, i, v);
    InsertAtShape(s, i, v);
    forall a, b | 0 <= a < b < |r|
      ensures key(r[a]) <= key(r[b])
    {
      var ka := if a < i then key(s[a]) else if a == i then key(v) else key(s[a - 1]);
      var kb := if b < i then key(s[b]) else if b == i then key(v) else key(s[b - 1]);
      assert key(r[a]) == ka && key(r[b]) == kb;
    }
  }

  /** Moving an element keeps the multiset of the sequence. */
  lemma MovedDownPermutes<T>(s: seq<T>, i: nat, key: T -> int)
    requires i < |s|
    ensures multiset(MovedDown(s, i, key)) == multiset(s)
  {
    var j := Slot(s, i, key(s[i]), key);
    assert s == s[..j] + s[j..i] + [s[i]] + s[i + 1..];
  }

  /**
    Moving `s[i]` down to its slot turns a sorted prefix `s[..i]` into a
    sorted prefix one longer, and leaves everything after `i` alone.
   */
  lemma MovedDownSorts<T>(s: seq<T>, i: nat, key: T -> int)
    requires i < |s|
    requires SortedBy(s[..i], key)
    ensures |MovedDown(s, i, key)| == |s|
    ensures SortedBy(MovedDown(s, i, key)[..i + 1], key)
  {
    var j := Slot(s, i, key(s[i]), key);
    var r := MovedDown(s, i, key);
    MovedAt(s, j, i);
    forall a, b | 0 <= a < b <= i
      ensures key(r[a]) <= key(r[b])
    {
      assert forall m, n :: 0 <= m < n < i ==> key(s[m]) <= key(s[n]) by {
        forall m, n | 0 <= m < n < i ensures key(s[m]) <= key(s[n]) {
          assert s[..i][m] == s[m] && s[..i][n] == s[n];
        }
      }
    }
    assert forall a, b :: 0 <= a < b < |r[..i + 1]| ==> r[..i + 1][a] == r[a] && r[..i + 1][b] == r[b];
  }

  /**
    `sort_inserted(elements, i, key)`: lift `elements[i]` out and shift the
    larger elements before it one place right until its slot is found. The
    comparison is a strict `>`, so the element ends after those of equal key.
   */
  method SortInserted<T>(elements: array<T>, i: nat, key: T -> int)
    requires i < elements.Length
    modifies elements
    ensures elements[..] == MovedDown(old(elements[..]), i, key)
  {
    ghost var s := elements[..];
    var x := elements[i];
    var xKey := key(x);
    ghost var slot := Slot(s, i, xKey, key);
    var j := i;
    while j > 0 && key(elements[j - 1]) > xKey
      invariant slot <= j <= i
      invariant forall m :: 0 <= m < j ==> elements[m] == s[m]
      invariant forall m :: j < m <= i ==> elements[m] == s[m - 1]
      invariant forall m :: i < m < elements.Length ==> elements[m] == s[m]
    {
      elements[j] := elements[j - 1];
      j := j - 1;
    }
    elements[j] := x;
    MovedAt(s, j, i);
    assert forall m :: 0 <= m < elements.Length ==> elements[m] == Moved(s, j, i)[m];
    assert elements[..] == Moved(s, j, i);
  }

  /**
    `insertionsort(elements, key)`. The key is accepted and then ignored:
    every `sort_inserted` call uses the natural order, so the result is sorted
    by value whatever `key` is.
   */
  method InsertionSort(elements: array<int>, key: int -> int)
    modifies elements
    ensures SortedBy(elements[..], Identity)
    ensures multiset(elements[..]) == multiset(old(elements[..]))
  {
    var i := 1;
    var n := elements.Length;
    while i < n
      invariant 1 <= i
      invariant n == 0 || i <= n
      invariant i <= n ==> SortedBy(elements[..i], Identity)
      invariant multiset(elements[..]) == multiset(old(elements[..]))
    {
      ghost var before := elements[..];
      SortInserted(elements, i, Identity);
      MovedDownPermutes(before, i, Identity);
      MovedDownSorts(before, i, Identity);
      i := i + 1;
    }
    assert n > 0 ==> elements[..] == elements[..n];
  }

  /**
    `binary_search_left`: the leftmost index whose key is no smaller than
    `needle`.
   */
  method BinarySearchLeft<T>(elements: seq<T>, needle: int, key: T -> int) returns (r: nat)
    ensures r <= |elements|
    ensures SortedBy(elements, key) ==> forall k :: 0 <= k < r ==> key(elements[k]) < needle
    ensures SortedBy(elements, key) ==> forall k :: r <= k < |elements| ==> key(elements[k]) >= needle
  {
    var lo, hi := 0, |elements|;
    while lo < hi
      invariant 0 <= lo <= hi <= |elements|
      invariant SortedBy(elements, key) ==> forall k :: 0 <= k < lo ==> key(elements[k]) < needle
      invariant SortedBy(elements, key) ==> forall k :: hi <= k < |elements| ==> key(elements[k]) >= needle
    {
      var mid := (hi + lo) / 2;
      if key(elements[mid]) < needle {
        lo := mid + 1;
      } else {
        hi := mid;
      }
    }
    r := lo;
  }

  /**
    `binary_search_right`: despite its description, the result is the first
    index whose key is larger than `needle`, i.e. the number of elements whose
    key is at most `needle`.
   */
  method BinarySearchRight<T>(elements: seq<T>, needle: int, key: T -> int) returns (r: nat)
    ensures r <= |elements|
    ensures SortedBy(elements, key) ==> forall k :: 0 <= k < r ==> key(elements[k]) <= needle
    ensures SortedBy(elements, key) ==> forall k :: r <= k < |elements| ==> key(elements[k]) > needle
  {
    var lo, hi := 0, |elements|;
    while lo < hi
      invariant 0 <= lo <= hi <= |elements|
      invariant SortedBy(elements, key) ==> forall k :: 0 <= k < lo ==> key(elements[k]) <= needle
      invariant SortedBy(elements, key) ==> forall k :: hi <= k < |elements| ==> key(elements[k]) > needle
    {
      var mid := (hi + lo) / 2;
      if key(elements[mid]) > needle {
        hi := mid;
      } else {
        lo := mid + 1;
      }
    }
    r := hi;
  }

  /**
    `binary_search`: an index holding an element whose key is `needle`, or -1;
    on sorted input -1 means no element has that key.
   */
  method BinarySearch<T>(elements: seq<T>, needle: int, key: T -> int) returns (r: int)
    ensures -1 <= r < |elements|
    ensures 0 <= r ==> key(elements[r]) == needle
    ensures r == -1 && SortedBy(elements, key) ==> forall k :: 0 <= k < |elements| ==> key(elements[k]) != needle
  {
    var lo, hi := 0, |elements|;
    while lo < hi
      invariant 0 <= lo <= hi <= |elements|
      invariant SortedBy(elements, key) ==> forall k :: 0 <= k < lo ==> key(elements[k]) < needle
      invariant SortedBy(elements, key) ==> forall k :: hi <= k < |elements| ==> key(elements[k]) > needle
    {
      var mid := (hi + lo) / 2;
      var midKey := key(elements[mid]);
      if midKey > needle {
        hi := mid;
      } else if midKey < needle {
        lo := mid + 1;
      } else {
        return mid;
      }
    }
    r := -1;
  }

  /** `binary_search_right` on `[1, 2, 3]`, the sequence used by the project's own test. */
  method BinarySearchRightOnOneTwoThree() {
    var s := [1, 2, 3];
    assert SortedBy(s, Identity);
    var r0 := BinarySearchRight(s, 0, Identity);
    var r1 := BinarySearchRight(s, 1, Identity);
    var r2 := BinarySearchRight(s, 2, Identity);
    var r3 := BinarySearchRight(s, 3, Identity);
    var r4 := BinarySearchRight(s, 4, Identity);
    assert s[0] == 1 && s[1] == 2 && s[2] == 3;
    assert r0 == 0 && r1 == 1 && r2 == 2 && r3 == 3 && r4 == 3;
  }
}
