/** `Counter(xs).most_common(15)` of main.py (lines 142 and 152), as Python
    defines it: a `Counter` keeps its keys in order of first occurrence and maps
    each to its number of occurrences; `most_common(n)` is the list of
    (key, count) pairs sorted by count, largest first, with a stable sort, cut to
    its first n entries. */
module BatchCounter {
  import opened Common
  import opened Sorting

  /** The distinct elements of `xs` in order of first occurrence: the keys of
      `Counter(xs)`, in their order. */
  function FirstOccurrences<T(==)>(xs: seq<T>): seq<T>
    decreases |xs|
  {
    if |xs| == 0 then []
    else
      var keys := FirstOccurrences(xs[..|xs| - 1]);
      var last := xs[|xs| - 1];
      if last in keys then keys else keys + [last]
  }

  /** The keys are the elements of `xs`, each once. */
  lemma {:induction false} FirstOccurrencesMembers<T>(xs: seq<T>)
    ensures forall x :: x in FirstOccurrences(xs) <==> x in xs
    ensures Distinct(FirstOccurrences(xs))
    decreases |xs|
  {
    if |xs| > 0 {
      var front := xs[..|xs| - 1];
      FirstOccurrencesMembers(front);
      assert xs == front + [xs[|xs| - 1]];
    }
  }

  lemma KeyOccurs<T>(xs: seq<T>, x: T)
    ensures x in FirstOccurrences(xs) <==> x in xs
  {
    FirstOccurrencesMembers(xs);
  }

  /** `a` occurs in `xs` before the first occurrence of `b`, if any. */
  predicate Precedes<T(==)>(xs: seq<T>, a: T, b: T)
  {
    exists p :: 0 <= p < |xs| && xs[p] == a && forall q :: 0 <= q <= p ==> xs[q] != b
  }

  lemma PrecedesExtend<T>(front: seq<T>, x: T, a: T, b: T)
    requires Precedes(front, a, b)
    ensures Precedes(front + [x], a, b)
  {
    var xs := front + [x];
    var p :| 0 <= p < |front| && front[p] == a && forall q :: 0 <= q <= p ==> front[q] != b;
    assert xs[p] == a;
    forall q | 0 <= q <= p
      ensures xs[q] != b
    {
      assert xs[q] == front[q];
    }
  }

  lemma PrecedesNew<T>(front: seq<T>, a: T, x: T)
    requires a in front && x !in front
    ensures Precedes(front + [x], a, x)
  {
    var xs := front + [x];
    var p :| 0 <= p < |front| && front[p] == a;
    assert xs[p] == a;
    forall q | 0 <= q <= p
      ensures xs[q] != x
    {
      assert xs[q] == front[q];
    }
  }

  /** The keys are in order of first occurrence: each key occurs in `xs` before
      the first occurrence of any key after it. */
  lemma {:induction false} FirstOccurrencesOrder<T>(xs: seq<T>)
    ensures forall i, j :: 0 <= i < j < |FirstOccurrences(xs)| ==>
              Precedes(xs, FirstOccurrences(xs)[i], FirstOccurrences(xs)[j])
    decreases |xs|
  {
    if |xs| == 0 {
      assert FirstOccurrences(xs) == [];
    } else {
      var front, last := xs[..|xs| - 1], xs[|xs| - 1];
      assert xs == front + [last];
      FirstOccurrencesOrder(front);
      var keys, fk := FirstOccurrences(xs), FirstOccurrences(front);
      forall i, j | 0 <= i < j < |keys|
        ensures Precedes(xs, keys[i], keys[j])
      {
        assert keys[i] == fk[i];
        if j < |fk| {
          assert keys[j] == fk[j];
          PrecedesExtend(front, last, fk[i], fk[j]);
        } else {
          KeyOccurs(front, last);
          KeyOccurs(front, fk[i]);
          assert keys == fk + [last];
          PrecedesNew(front, fk[i], last);
        }
      }
    }
  }

  function CountIn<T>(tally: map<T, nat>, x: T): nat
  {
    if x in tally then tally[x] else 0
  }

  /** `Counter(xs)`: one more for each occurrence. */
  function Tally<T(==)>(xs: seq<T>): map<T, nat>
    decreases |xs|
  {
    if |xs| == 0 then map[]
    else
      var tally := Tally(xs[..|xs| - 1]);
      var last := xs[|xs| - 1];
      tally[last := CountIn(tally, last) + 1]
  }

  /** The counter holds exactly the elements of `xs`, each with its number of
      occurrences. */
  lemma {:induction false} TallyCounts<T>(xs: seq<T>)
    ensures forall x :: x in Tally(xs) <==> x in xs
    ensures forall x :: CountIn(Tally(xs), x) == multiset(xs)[x]
    decreases |xs|
  {
    if |xs| > 0 {
      var front := xs[..|xs| - 1];
      TallyCounts(front);
      assert xs == front + [xs[|xs| - 1]];
    }
  }

  /** Larger counts first. */
  function Rank<T>(tally: map<T, nat>): T -> int
  {
    x => -(CountIn(tally, x) as int)
  }

  /** The keys sorted by count, largest first, keys of equal count in order of
      first occurrence. */
  function Ranked<T(==)>(xs: seq<T>): seq<T>
  {
    InsSort(FirstOccurrences(xs), Rank(Tally(xs)))
  }

  /** `Counter(xs).most_common(n)` */
  function MostCommon<T(==)>(xs: seq<T>, n: nat): (top: seq<(T, nat)>)
    ensures |top| == Min(n, |FirstOccurrences(xs)|)
  {
    var ranked := Ranked(xs);
    var m := Min(n, |ranked|);
    seq(m, i requires 0 <= i < m => (ranked[i], CountIn(Tally(xs), ranked[i])))
  }

  /** The facts about the ranking the properties of `most_common` rest on. */
  lemma RankedFacts<T>(xs: seq<T>)
    ensures multiset(Ranked(xs)) == multiset(FirstOccurrences(xs))
    ensures SortedBy(Ranked(xs), Rank(Tally(xs)))
    ensures Distinct(Ranked(xs))
    ensures forall x :: x in Ranked(xs) <==> x in xs
    ensures forall x :: CountIn(Tally(xs), x) == multiset(xs)[x]
  {
    var keys := FirstOccurrences(xs);
    FirstOccurrencesMembers(xs);
    TallyCounts(xs);
    InsSortPermutes(keys, Rank(Tally(xs)));
    InsSortSorted(keys, Rank(Tally(xs)));
    InsSortDistinct(keys, Rank(Tally(xs)));
    forall x
      ensures x in Ranked(xs) <==> x in xs
    {
      assert x in Ranked(xs) <==> x in multiset(Ranked(xs));
      assert x in keys <==> x in multiset(keys);
    }
  }

  /** The pairs are distinct elements of `xs` with their true counts, from the
      most frequent down. */
  lemma MostCommonCounts<T>(xs: seq<T>, n: nat)
    ensures forall i :: 0 <= i < |MostCommon(xs, n)| ==>
              MostCommon(xs, n)[i].0 in xs && MostCommon(xs, n)[i].1 == multiset(xs)[MostCommon(xs, n)[i].0]
    ensures forall i, j :: 0 <= i < j < |MostCommon(xs, n)| ==> MostCommon(xs, n)[i].1 >= MostCommon(xs, n)[j].1
    ensures forall i, j :: 0 <= i < j < |MostCommon(xs, n)| ==> MostCommon(xs, n)[i].0 != MostCommon(xs, n)[j].0
  {
    var top := MostCommon(xs, n);
    var ranked := Ranked(xs);
    RankedFacts(xs);
    forall i | 0 <= i < |top|
      ensures top[i].0 in xs && top[i].1 == multiset(xs)[top[i].0]
    {
      assert top[i] == (ranked[i], CountIn(Tally(xs), ranked[i]));
      assert ranked[i] in ranked;
    }
    forall i, j | 0 <= i < j < |top|
      ensures top[i].1 >= top[j].1 && top[i].0 != top[j].0
    {
      assert Rank(Tally(xs))(ranked[i]) <= Rank(Tally(xs))(ranked[j]);
    }
  }

  /** Every element left out occurs no more often than any element listed. */
  lemma MostCommonOmitted<T>(xs: seq<T>, n: nat, x: T)
    requires x in xs
    requires forall j :: 0 <= j < |MostCommon(xs, n)| ==> MostCommon(xs, n)[j].0 != x
    ensures forall i :: 0 <= i < |MostCommon(xs, n)| ==> multiset(xs)[x] <= MostCommon(xs, n)[i].1
  {
    var top := MostCommon(xs, n);
    var ranked := Ranked(xs);
    RankedFacts(xs);
    var p :| 0 <= p < |ranked| && ranked[p] == x;
    assert forall j :: 0 <= j < |top| ==> top[j].0 == ranked[j];
    assert p >= |top|;
    forall i | 0 <= i < |top|
      ensures multiset(xs)[x] <= top[i].1
    {
      assert Rank(Tally(xs))(ranked[i]) <= Rank(Tally(xs))(ranked[p]);
    }
  }

  /** The list is empty exactly when `xs` is or `n` is 0 (the `if genre_counts`
      test of line 143). */
  lemma MostCommonEmpty<T>(xs: seq<T>, n: nat)
    ensures MostCommon(xs, n) == [] <==> n == 0 || xs == []
  {
    FirstOccurrencesMembers(xs);
    if xs != [] {
      assert xs[0] in FirstOccurrences(xs);
    }
  }

  /** Elements of equal count are ranked in order of first occurrence, and the
      pairs are the first entries of that ranking. */
  lemma MostCommonTies<T>(xs: seq<T>, n: nat, c: nat)
    ensures WithKey(Ranked(xs), Rank(Tally(xs)), -(c as int)) == WithKey(FirstOccurrences(xs), Rank(Tally(xs)), -(c as int))
    ensures forall i :: 0 <= i < |MostCommon(xs, n)| ==> MostCommon(xs, n)[i].0 == Ranked(xs)[i]
  {
    InsSortStable(FirstOccurrences(xs), Rank(Tally(xs)), -(c as int));
  }
}
