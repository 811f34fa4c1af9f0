/** Stable insertion sort by a strict order, and why the order of the input does not matter. */
module Sorting {

  /** After everything that is not greater. */
  function Insert<T>(less: (T, T) -> bool, list: seq<T>, x: T): seq<T> {
    if list == [] || !less(x, list[|list| - 1]) then list + [x]
    else Insert(less, list[..|list| - 1], x) + [list[|list| - 1]]
  }

  function SortBy<T>(less: (T, T) -> bool, list: seq<T>): seq<T> {
    if list == [] then [] else Insert(less, SortBy(less, list[..|list| - 1]), list[|list| - 1])
  }

  ghost predicate StrictOrder<T(!new)>(less: (T, T) -> bool) {
    && (forall x :: !less(x, x))
    && (forall x, y, z :: less(x, y) && less(y, z) ==> less(x, z))
  }

  predicate Increasing<T>(less: (T, T) -> bool, list: seq<T>) {
    forall i, j :: 0 <= i < j < |list| ==> less(list[i], list[j])
  }

  /** Different positions hold comparable elements. */
  predicate Comparable<T>(less: (T, T) -> bool, list: seq<T>) {
    forall i, j :: 0 <= i < j < |list| ==> less(list[i], list[j]) || less(list[j], list[i])
  }

  lemma {:induction false} InsertKeeps<T>(less: (T, T) -> bool, list: seq<T>, x: T)
    ensures multiset(Insert(less, list, x)) == multiset(list) + multiset{x}
  {
    if list == [] || !less(x, list[|list| - 1]) {
    } else {
      InsertKeeps(less, list[..|list| - 1], x);
      assert list == list[..|list| - 1] + [list[|list| - 1]];
    }
  }

  lemma {:induction false} SortKeeps<T>(less: (T, T) -> bool, list: seq<T>)
    ensures multiset(SortBy(less, list)) == multiset(list)
  {
    if list == [] {
    } else {
      SortKeeps(less, list[..|list| - 1]);
      InsertKeeps(less, SortBy(less, list[..|list| - 1]), list[|list| - 1]);
      assert list == list[..|list| - 1] + [list[|list| - 1]];
    }
  }

  lemma SameMembers<T>(a: seq<T>, b: seq<T>)
    requires multiset(a) == multiset(b)
    ensures |a| == |b| && forall x :: x in a <==> x in b
  {
    assert |a| == |multiset(a)| == |multiset(b)| == |b|;
    forall x
      ensures x in a <==> x in b
    {
      assert x in a <==> x in multiset(a);
      assert x in b <==> x in multiset(b);
    }
  }

  lemma {:induction false} InsertIncreases<T(!new)>(less: (T, T) -> bool, list: seq<T>, x: T)
    requires StrictOrder(less) && Increasing(less, list)
    requires forall i :: 0 <= i < |list| ==> less(list[i], x) || less(x, list[i])
    ensures Increasing(less, Insert(less, list, x))
  {
    if list == [] {
    } else if less(x, list[|list| - 1]) {
      var front, last := list[..|list| - 1], list[|list| - 1];
      InsertIncreases(less, front, x);
      InsertKeeps(less, front, x);
      var inserted := Insert(less, front, x);
      forall i | 0 <= i < |inserted|
        ensures less(inserted[i], last)
      {
        assert inserted[i] in multiset(inserted);
        assert inserted[i] in multiset(front) || inserted[i] == x;
        assert inserted[i] in front || inserted[i] == x;
      }
    } else {
    }
  }

  lemma {:induction false} SortIncreases<T(!new)>(less: (T, T) -> bool, list: seq<T>)
    requires StrictOrder(less) && Comparable(less, list)
    ensures Increasing(less, SortBy(less, list))
  {
    if list == [] {
    } else {
      var front, last := list[..|list| - 1], list[|list| - 1];
      var sorted := SortBy(less, front);
      SortIncreases(less, front);
      SortKeeps(less, front);
      SameMembers(sorted, front);
      forall i | 0 <= i < |sorted|
        ensures less(sorted[i], last) || less(last, sorted[i])
      {
        assert sorted[i] in front;
        var k :| 0 <= k < |front| && front[k] == sorted[i];
        assert list[k] == sorted[i] && list[|list| - 1] == last;
      }
      InsertIncreases(less, sorted, last);
    }
  }

  lemma FrontMultiset<T>(a: seq<T>)
    requires a != []
    ensures multiset(a[..|a| - 1]) == multiset(a) - multiset{a[|a| - 1]}
  {
    assert a == a[..|a| - 1] + [a[|a| - 1]];
  }

  /** The last of an increasing list is not below any of its members. */
  lemma LastIsGreatest<T(!new)>(less: (T, T) -> bool, a: seq<T>, x: T)
    requires StrictOrder(less) && Increasing(less, a) && x in a
    ensures x == a[|a| - 1] || less(x, a[|a| - 1])
  {
  }

  lemma SameLast<T(!new)>(less: (T, T) -> bool, a: seq<T>, b: seq<T>)
    requires StrictOrder(less) && Increasing(less, a) && Increasing(less, b) && multiset(a) == multiset(b) && a != []
    ensures |a| == |b| && a[|a| - 1] == b[|b| - 1]
  {
    SameMembers(a, b);
    var x, y := a[|a| - 1], b[|b| - 1];
    assert x in a && y in b;
    LastIsGreatest(less, a, y);
    LastIsGreatest(less, b, x);
    assert !(less(x, y) && less(y, x));
  }

  lemma {:induction false} IncreasingUnique<T(!new)>(less: (T, T) -> bool, a: seq<T>, b: seq<T>)
    requires StrictOrder(less) && Increasing(less, a) && Increasing(less, b) && multiset(a) == multiset(b)
    ensures a == b
    decreases |a|
  {
    SameMembers(a, b);
    if a == [] {
    } else {
      SameLast(less, a, b);
      FrontMultiset(a);
      FrontMultiset(b);
      IncreasingUnique(less, a[..|a| - 1], b[..|b| - 1]);
      assert a == a[..|a| - 1] + [a[|a| - 1]];
    }
  }

  /** Sorting forgets the order of its input. */
  lemma SortOrderFree<T(!new)>(less: (T, T) -> bool, a: seq<T>, b: seq<T>)
    requires StrictOrder(less) && Comparable(less, a) && Comparable(less, b) && multiset(a) == multiset(b)
    ensures SortBy(less, a) == SortBy(less, b)
  {
    SortIncreases(less, a);
    SortIncreases(less, b);
    SortKeeps(less, a);
    SortKeeps(less, b);
    IncreasingUnique(less, SortBy(less, a), SortBy(less, b));
  }
}
