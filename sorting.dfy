/** Sorting by an integer key, stable on equal keys.

    Both analysers sort their tracks by year: script.js with `Array.prototype.sort`
    and a comparator on `year` (stable since ECMAScript 2019), main.py with pandas'
    `sort_values("year")`. `most_common` ranks counts with a stable descending sort.
    The reference order is insertion sort: each element goes after every element
    of the sorted prefix whose key is not larger. */
module Sorting {

  ghost predicate SortedBy<T>(s: seq<T>, key: T -> int)
  {
    forall i, j :: 0 <= i < j < |s| ==> key(s[i]) <= key(s[j])
  }

  /** `x` placed after the last element of `s` whose key does not exceed its own,
      found by walking back from the end. */
  function Insert<T>(s: seq<T>, x: T, key: T -> int): (r: seq<T>)
    ensures |r| == |s| + 1
    decreases |s|
  {
    if |s| == 0 || key(s[|s| - 1]) <= key(x) then s + [x]
    else
      var front := s[..|s| - 1];
      assert s == front + [s[|s| - 1]];
      Insert(front, x, key) + [s[|s| - 1]]
  }

  function InsSort<T>(s: seq<T>, key: T -> int): (r: seq<T>)
    ensures |r| == |s|
    decreases |s|
  {
    if |s| == 0 then []
    else
      var front := s[..|s| - 1];
      assert s == front + [s[|s| - 1]];
      Insert(InsSort(front, key), s[|s| - 1], key)
  }

  lemma MultisetSnoc<T>(s: seq<T>)
    requires |s| > 0
    ensures multiset(s) == multiset(s[..|s| - 1]) + multiset{s[|s| - 1]}
  {
    assert s == s[..|s| - 1] + [s[|s| - 1]];
  }

  lemma {:induction false} InsertPermutes<T>(s: seq<T>, x: T, key: T -> int)
    ensures multiset(Insert(s, x, key)) == multiset(s) + multiset{x}
    decreases |s|
  {
    if |s| > 0 && key(s[|s| - 1]) > key(x) {
      var front := s[..|s| - 1];
      InsertPermutes(front, x, key);
      MultisetSnoc(s);
      MultisetSnoc(Insert(s, x, key));
    }
  }

  /** The reference order is a permutation of its input. */
  lemma {:induction false} InsSortPermutes<T>(s: seq<T>, key: T -> int)
    ensures multiset(InsSort(s, key)) == multiset(s)
    decreases |s|
  {
    if |s| > 0 {
      var front := s[..|s| - 1];
      InsSortPermutes(front, key);
      InsertPermutes(InsSort(front, key), s[|s| - 1], key);
      MultisetSnoc(s);
    }
  }

  /** Appending an element whose key bounds every key keeps a list sorted. */
  lemma SortedAppend<T>(s: seq<T>, y: T, key: T -> int)
    requires SortedBy(s, key)
    requires forall i :: 0 <= i < |s| ==> key(s[i]) <= key(y)
    ensures SortedBy(s + [y], key)
  {
    var r := s + [y];
    forall i, j | 0 <= i < j < |r|
      ensures key(r[i]) <= key(r[j])
    {
      if j < |s| {
        assert r[i] == s[i] && r[j] == s[j];
      } else {
        assert r[i] == s[i] && r[j] == y;
      }
    }
  }

  /** A bound on the keys of `s` and of `x` bounds the keys of the insertion. */
  lemma {:induction false} InsertBounded<T>(s: seq<T>, x: T, key: T -> int, b: int)
    requires forall i :: 0 <= i < |s| ==> key(s[i]) <= b
    requires key(x) <= b
    ensures forall i :: 0 <= i < |Insert(s, x, key)| ==> key(Insert(s, x, key)[i]) <= b
    decreases |s|
  {
    var r := Insert(s, x, key);
    if |s| == 0 || key(s[|s| - 1]) <= key(x) {
      assert r == s + [x];
      assert forall i :: 0 <= i < |s| ==> r[i] == s[i];
    } else {
      var front, last := s[..|s| - 1], s[|s| - 1];
      InsertBounded(front, x, key, b);
      var ins := Insert(front, x, key);
      assert r == ins + [last];
      assert forall i :: 0 <= i < |ins| ==> r[i] == ins[i];
    }
  }

  lemma {:induction false} InsertSorted<T>(s: seq<T>, x: T, key: T -> int)
    requires SortedBy(s, key)
    ensures SortedBy(Insert(s, x, key), key)
    decreases |s|
  {
    if |s| == 0 || key(s[|s| - 1]) <= key(x) {
      SortedAppend(s, x, key);
    } else {
      var front, last := s[..|s| - 1], s[|s| - 1];
      assert SortedBy(front, key);
      InsertSorted(front, x, key);
      assert forall i :: 0 <= i < |front| ==> key(front[i]) <= key(last) by {
        assert forall i :: 0 <= i < |front| ==> front[i] == s[i];
      }
      InsertBounded(front, x, key, key(last));
      SortedAppend(Insert(front, x, key), last, key);
    }
  }

  /** The reference order is sorted. */
  lemma {:induction false} InsSortSorted<T>(s: seq<T>, key: T -> int)
    ensures SortedBy(InsSort(s, key), key)
    decreases |s|
  {
    if |s| > 0 {
      InsSortSorted(s[..|s| - 1], key);
      InsertSorted(InsSort(s[..|s| - 1], key), s[|s| - 1], key);
    }
  }

  /** The elements of `s` whose key is `k`, in their order in `s`. */
  function WithKey<T>(s: seq<T>, key: T -> int, k: int): seq<T>
    decreases |s|
  {
    if |s| == 0 then []
    else WithKey(s[..|s| - 1], key, k) + (if key(s[|s| - 1]) == k then [s[|s| - 1]] else [])
  }

  lemma {:induction false} WithKeyAppend<T>(a: seq<T>, b: seq<T>, key: T -> int, k: int)
    ensures WithKey(a + b, key, k) == WithKey(a, key, k) + WithKey(b, key, k)
    decreases |b|
  {
    if |b| == 0 {
      assert a + b == a;
    } else {
      var ab := a + b;
      assert ab[..|ab| - 1] == a + b[..|b| - 1];
      WithKeyAppend(a, b[..|b| - 1], key, k);
    }
  }

  lemma WithKeySingle<T>(x: T, key: T -> int, k: int)
    ensures WithKey([x], key, k) == if key(x) == k then [x] else []
  {
    assert [x][..0] == [];
  }

  lemma {:induction false} InsertWithKey<T>(s: seq<T>, x: T, key: T -> int, k: int)
    ensures WithKey(Insert(s, x, key), key, k) == WithKey(s, key, k) + WithKey([x], key, k)
    decreases |s|
  {
    if |s| == 0 || key(s[|s| - 1]) <= key(x) {
      WithKeyAppend(s, [x], key, k);
    } else {
      var front := s[..|s| - 1];
      var last := s[|s| - 1];
      var ins := Insert(front, x, key);
      calc {
        WithKey(Insert(s, x, key), key, k);
        == { assert Insert(s, x, key) == ins + [last]; }
        WithKey(ins + [last], key, k);
        == { WithKeyAppend(ins, [last], key, k); }
        WithKey(ins, key, k) + WithKey([last], key, k);
        == { InsertWithKey(front, x, key, k); }
        WithKey(front, key, k) + WithKey([x], key, k) + WithKey([last], key, k);
        == { WithKeySingle(x, key, k); WithKeySingle(last, key, k); }
        WithKey(front, key, k) + WithKey([last], key, k) + WithKey([x], key, k);
        == { assert s == front + [last]; WithKeyAppend(front, [last], key, k); }
        WithKey(s, key, k) + WithKey([x], key, k);
      }
    }
  }

  /** Sorting keeps, for every key, the elements with that key in their original
      order: the sort is stable, and (taken over all keys) a permutation. */
  lemma {:induction false} InsSortStable<T>(s: seq<T>, key: T -> int, k: int)
    ensures WithKey(InsSort(s, key), key, k) == WithKey(s, key, k)
    decreases |s|
  {
    if |s| > 0 {
      var front := s[..|s| - 1];
      var last := s[|s| - 1];
      calc {
        WithKey(InsSort(s, key), key, k);
        == { assert InsSort(s, key) == Insert(InsSort(front, key), last, key); }
        WithKey(Insert(InsSort(front, key), last, key), key, k);
        == { InsertWithKey(InsSort(front, key), last, key, k); }
        WithKey(InsSort(front, key), key, k) + WithKey([last], key, k);
        == { InsSortStable(front, key, k); }
        WithKey(front, key, k) + WithKey([last], key, k);
        == { assert s == front + [last]; WithKeyAppend(front, [last], key, k); }
        WithKey(s, key, k);
      }
    }
  }

  ghost predicate Distinct<T>(s: seq<T>)
  {
    forall i, j :: 0 <= i < j < |s| ==> s[i] != s[j]
  }

  lemma {:induction false} InsertDistinct<T>(s: seq<T>, x: T, key: T -> int)
    requires Distinct(s) && x !in s
    ensures Distinct(Insert(s, x, key))
    decreases |s|
  {
    if |s| > 0 && key(s[|s| - 1]) > key(x) {
      var front := s[..|s| - 1];
      var last := s[|s| - 1];
      assert x !in front;
      InsertDistinct(front, x, key);
      var ins := Insert(front, x, key);
      assert last !in ins by {
        assert last !in multiset(front);
        assert last != x;
        InsertPermutes(front, x, key);
        assert last !in multiset(ins);
      }
    } else {
      assert forall i :: 0 <= i < |s| ==> (s + [x])[i] == s[i];
    }
  }

  /** Sorting a list without repeats gives a list without repeats. */
  lemma {:induction false} InsSortDistinct<T>(s: seq<T>, key: T -> int)
    requires Distinct(s)
    ensures Distinct(InsSort(s, key))
    decreases |s|
  {
    if |s| > 0 {
      var front := s[..|s| - 1];
      var last := s[|s| - 1];
      assert Distinct(front);
      InsSortDistinct(front, key);
      InsSortPermutes(front, key);
      assert last !in multiset(InsSort(front, key));
      InsertDistinct(InsSort(front, key), last, key);
    }
  }

  /** Walking back over `s[..j]` past an element with a larger key. */
  lemma InsertStepBack<T>(s: seq<T>, x: T, key: T -> int, j: nat)
    requires 0 < j <= |s| && key(s[j - 1]) > key(x)
    ensures Insert(s[..j], x, key) + s[j..] == Insert(s[..j - 1], x, key) + s[j - 1..]
  {
    assert s[..j][..j - 1] == s[..j - 1];
    assert s[j - 1..] == [s[j - 1]] + s[j..];
  }

  /** The walk back stops at the first element whose key is not larger. */
  lemma InsertStop<T>(s: seq<T>, x: T, key: T -> int, j: nat)
    requires j <= |s| && (j == 0 || key(s[j - 1]) <= key(x))
    ensures Insert(s[..j], x, key) + s[j..] == s[..j] + [x] + s[j..]
  {
  }

  /** Moves `a[lo..hi]` one place to the right, over `a[hi]`. */
  method ShiftRight<T>(a: array<T>, lo: nat, hi: nat)
    requires lo <= hi < a.Length
    modifies a
    ensures a[..lo] == old(a[..lo])
    ensures a[lo + 1..hi + 1] == old(a[lo..hi])
    ensures a[hi + 1..] == old(a[hi + 1..])
  {
    var k := hi;
    while k > lo
      invariant lo <= k <= hi
      invariant forall m :: 0 <= m <= k ==> a[m] == old(a[m])
      invariant forall m :: k < m <= hi ==> a[m] == old(a[m - 1])
      invariant forall m :: hi < m < a.Length ==> a[m] == old(a[m])
    {
      a[k] := a[k - 1];
      k := k - 1;
    }
  }

  /** Where `x` goes in `a[..i]`: walking back from `i` past every element with a
      larger key. */
  method FindSlot<T>(a: array<T>, i: nat, x: T, key: T -> int) returns (j: nat)
    requires i <= a.Length
    ensures j <= i
    ensures Insert(a[..i], x, key) == a[..j] + [x] + a[j..i]
  {
    ghost var s := a[..i];
    j := i;
    assert s[..i] == s && s[i..] == [];
    while j > 0 && key(a[j - 1]) > key(x)
      invariant 0 <= j <= i
      invariant Insert(s, x, key) == Insert(s[..j], x, key) + s[j..]
    {
      InsertStepBack(s, x, key, j);
      j := j - 1;
    }
    InsertStop(s, x, key, j);
    assert s[..j] == a[..j] && s[j..] == a[j..i];
  }

  /** One step of insertion sort: the element at `i` goes left past every element
      of `a[..i]` with a larger key. */
  method InsertAt<T>(a: array<T>, i: nat, key: T -> int)
    requires i < a.Length
    modifies a
    ensures a[..i + 1] == Insert(old(a[..i]), old(a[i]), key)
    ensures a[i + 1..] == old(a[i + 1..])
  {
    var x := a[i];
    var j := FindSlot(a, i, x, key);
    ghost var left, right := a[..j], a[j..i];
    ShiftRight(a, j, i);
    assert a[j + 1..i + 1] == right;
    a[j] := x;
    assert a[..j] == left && a[j + 1..i + 1] == right;
    assert a[..i + 1] == left + [x] + right;
  }

  /** Insertion sort in place on an array, as `tracks.sort(...)` sorts the array it
      is given. */
  method SortInPlace<T>(a: array<T>, key: T -> int)
    modifies a
    ensures a[..] == InsSort(old(a[..]), key)
  {
    ghost var input := a[..];
    var i := 0;
    while i < a.Length
      invariant 0 <= i <= a.Length
      invariant a[..i] == InsSort(input[..i], key)
      invariant a[i..] == input[i..]
    {
      ghost var done, rest := a[..i], a[i..];
      InsertAt(a, i, key);
      ghost var next := input[..i + 1];
      assert next[..i] == input[..i] && next[i] == rest[0];
      assert a[..i + 1] == Insert(done, rest[0], key) == InsSort(next, key);
      assert a[i + 1..] == rest[1..];
      i := i + 1;
    }
    assert a[..] == a[..a.Length];
    assert input == input[..a.Length];
  }
}
