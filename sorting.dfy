/**
 * Sorting helpers shared by the trees.
 *
 * Python's `list.sort(key=...)` and `sorted(...)` are stable sorts; every stable
 * sort gives the same result, so a stable insertion sort stands for them here.
 * `SortBy` is the specification; `SortInPlace` is the same algorithm on an array.
 */
module Sorting {

  predicate SortedBy<T>(s: seq<T>, key: T -> int)
  {
    forall i, j :: 0 <= i < j < |s| ==> key(s[i]) <= key(s[j])
  }

  /** Inserts `x` into `s` after every element whose key is at most `x`'s,
      scanning from the back as an insertion sort shifts. */
  function InsertSorted<T>(x: T, s: seq<T>, key: T -> int): (r: seq<T>)
    ensures |r| == |s| + 1
  {
    if s == [] then [x]
    else if key(s[|s| - 1]) <= key(x) then s + [x]
    else
      var front, last := s[..|s| - 1], s[|s| - 1];
      assert s == front + [last];
      InsertSorted(x, front, key) + [last]
  }

  lemma {:induction false} InsertSortedPerm<T>(x: T, s: seq<T>, key: T -> int)
    ensures multiset(InsertSorted(x, s, key)) == multiset(s) + multiset{x}
  {
    if s != [] && key(s[|s| - 1]) > key(x) {
      var front, last := s[..|s| - 1], s[|s| - 1];
      assert s == front + [last];
      InsertSortedPerm(x, front, key);
    }
  }

  lemma {:induction false} InsertSortedBound<T>(x: T, s: seq<T>, key: T -> int, b: int)
    requires key(x) <= b
    requires forall k :: 0 <= k < |s| ==> key(s[k]) <= b
    ensures forall k :: 0 <= k < |s| + 1 ==> key(InsertSorted(x, s, key)[k]) <= b
  {
    if s != [] && key(s[|s| - 1]) > key(x) {
      InsertSortedBound(x, s[..|s| - 1], key, b);
    }
  }

  lemma {:induction false} InsertSortedKeeps<T>(x: T, s: seq<T>, key: T -> int)
    requires SortedBy(s, key)
    ensures SortedBy(InsertSorted(x, s, key), key)
  {
    if s != [] && key(s[|s| - 1]) > key(x) {
      var front, last := s[..|s| - 1], s[|s| - 1];
      InsertSortedKeeps(x, front, key);
      InsertSortedBound(x, front, key, key(last));
    }
  }

  /** Stable sort of `s` by `key`. */
  function SortBy<T>(s: seq<T>, key: T -> int): (r: seq<T>)
    ensures |r| == |s|
  {
    if s == [] then []
    else
      assert s == s[..|s| - 1] + [s[|s| - 1]];
      InsertSorted(s[|s| - 1], SortBy(s[..|s| - 1], key), key)
  }

  lemma {:induction false} SortByPerm<T>(s: seq<T>, key: T -> int)
    ensures multiset(SortBy(s, key)) == multiset(s)
  {
    if s != [] {
      SortByPerm(s[..|s| - 1], key);
      InsertSortedPerm(s[|s| - 1], SortBy(s[..|s| - 1], key), key);
      assert s == s[..|s| - 1] + [s[|s| - 1]];
    }
  }

  lemma {:induction false} SortBySorted<T>(s: seq<T>, key: T -> int)
    ensures SortedBy(SortBy(s, key), key)
  {
    if s != [] {
      SortBySorted(s[..|s| - 1], key);
      InsertSortedKeeps(s[|s| - 1], SortBy(s[..|s| - 1], key), key);
    }
  }

  /** The elements of `s` whose key is `v`, in their order in `s`. */
  function WithKey<T>(s: seq<T>, key: T -> int, v: int): (r: seq<T>)
    ensures |r| <= |s|
  {
    if s == [] then []
    else
      assert s == s[..|s| - 1] + [s[|s| - 1]];
      WithKey(s[..|s| - 1], key, v) + (if key(s[|s| - 1]) == v then [s[|s| - 1]] else [])
  }

  /** `InsertSorted` puts `x` after every element of its key, so among the
      elements of any one key it comes last and the others keep their
      order. */
  lemma {:induction false} InsertSortedStable<T>(x: T, s: seq<T>, key: T -> int, v: int)
    ensures WithKey(InsertSorted(x, s, key), key, v) == WithKey(s, key, v) + (if key(x) == v then [x] else [])
  {
    if s == [] {
      WithKeyAppend([], x, key, v);
    } else if key(s[|s| - 1]) <= key(x) {
      WithKeyAppend(s, x, key, v);
    } else {
      var front, last := s[..|s| - 1], s[|s| - 1];
      var inner := InsertSorted(x, front, key);
      assert InsertSorted(x, s, key) == inner + [last];
      InsertSortedStable(x, front, key, v);
      WithKeyAppend(inner, last, key, v);
      assert s == front + [last];
      WithKeyAppend(front, last, key, v);
      if key(x) == v {
        assert key(last) != v;
      } else if key(last) == v {
        assert WithKey(inner, key, v) == WithKey(front, key, v);
      }
    }
  }

  /** Appending one element to a list appends it to the elements of its key. */
  lemma WithKeyAppend<T>(s: seq<T>, x: T, key: T -> int, v: int)
    ensures WithKey(s + [x], key, v) == WithKey(s, key, v) + (if key(x) == v then [x] else [])
  {
    assert (s + [x])[..|s|] == s;
  }

  /** `SortBy` is stable: the elements of each key come out in the order
      they went in. */
  lemma {:induction false} SortByStable<T>(s: seq<T>, key: T -> int, v: int)
    ensures WithKey(SortBy(s, key), key, v) == WithKey(s, key, v)
  {
    if s != [] {
      var front, last := s[..|s| - 1], s[|s| - 1];
      SortByStable(front, key, v);
      InsertSortedStable(last, SortBy(front, key), key, v);
    }
  }

  /** Where the shifting loop stops, `InsertSorted` puts `x`. */
  lemma {:induction false} InsertSortedAt<T>(x: T, s: seq<T>, key: T -> int, j: nat)
    requires j <= |s|
    requires j == 0 || key(s[j - 1]) <= key(x)
    requires forall k :: j <= k < |s| ==> key(s[k]) > key(x)
    ensures InsertSorted(x, s, key) == s[..j] + [x] + s[j..]
    decreases |s| - j
  {
    if j < |s| {
      var front, last := s[..|s| - 1], s[|s| - 1];
      assert key(last) > key(x);
      assert InsertSorted(x, s, key) == InsertSorted(x, front, key) + [last];
      forall k | j <= k < |front| ensures key(front[k]) > key(x) {
        assert front[k] == s[k];
      }
      assert j == 0 || front[j - 1] == s[j - 1];
      InsertSortedAt(x, front, key, j);
      assert front[..j] == s[..j];
      assert front[j..] + [last] == s[j..];
    }
  }

  /** Stable insertion sort of an array in place. */
  method SortInPlace<T>(a: array<T>, key: T -> int)
    modifies a
    ensures a[..] == SortBy(old(a[..]), key)
  {
    ghost var input := a[..];
    var i := 0;
    while i < a.Length
      invariant 0 <= i <= a.Length
      invariant a[..i] == SortBy(input[..i], key)
      invariant a[i..] == input[i..]
    {
      assert input[..i + 1][..i] == input[..i];
      assert a[i] == input[i];
      InsertStep(a, i, key);
      assert a[..i + 1] == SortBy(input[..i + 1], key);
      assert a[i + 1..] == input[i + 1..];
      i := i + 1;
    }
    assert input[..a.Length] == input;
  }

  /** One pass of the insertion sort: shifts the larger keys of `a[..i]` up
      by one and drops `a[i]` into the gap. */
  method InsertStep<T>(a: array<T>, i: nat, key: T -> int)
    requires i < a.Length
    modifies a
    ensures a[..i + 1] == InsertSorted(old(a[i]), old(a[..i]), key)
    ensures a[i + 1..] == old(a[i + 1..])
  {
    ghost var sorted := a[..i];
    var x := a[i];
    var j := i;
    while j > 0 && key(a[j - 1]) > key(x)
      invariant 0 <= j <= i
      invariant forall k :: 0 <= k < j ==> a[k] == sorted[k]
      invariant forall k :: j < k <= i ==> a[k] == sorted[k - 1]
      invariant forall k :: i < k < a.Length ==> a[k] == old(a[k])
      invariant forall k :: j <= k < i ==> key(sorted[k]) > key(x)
    {
      a[j] := a[j - 1];
      j := j - 1;
    }
    a[j] := x;
    InsertSortedAt(x, sorted, key, j);
    assert a[..i + 1] == sorted[..j] + [x] + sorted[j..];
  }

  /** Inserts `x` into a strictly increasing sequence unless it is already there. */
  function InsertDistinct(x: int, s: seq<int>): (r: seq<int>)
    requires StrictlyIncreasing(s)
    ensures StrictlyIncreasing(r)
    ensures forall y :: y in r <==> y == x || y in s
  {
    if s == [] then [x]
    else if x < s[0] then [x] + s
    else if x == s[0] then s
    else
      var rest := InsertDistinct(x, s[1..]);
      assert forall k :: 0 <= k < |rest| ==> s[0] < rest[k] by {
        forall k | 0 <= k < |rest| ensures s[0] < rest[k] {
          assert rest[k] in rest;
        }
      }
      [s[0]] + rest
  }

  predicate StrictlyIncreasing(s: seq<int>)
  {
    forall i, j :: 0 <= i < j < |s| ==> s[i] < s[j]
  }

  /** `sorted(set(xs))`: the distinct values of `xs` in increasing order. */
  function SortedDistinct(xs: seq<int>): (r: seq<int>)
    ensures StrictlyIncreasing(r)
    ensures forall y :: y in r <==> y in xs
  {
    if xs == [] then []
    else InsertDistinct(xs[|xs| - 1], SortedDistinct(xs[..|xs| - 1]))
  }
}
