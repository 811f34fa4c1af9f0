/** Least elements and sorted lists of finite sets. */
module SortedSets {

  /** Strictly increasing with exactly the elements of the set. */
  ghost predicate SortedListOf(list: seq<int>, s: set<int>) {
    && (forall i, j :: 0 <= i < j < |list| ==> list[i] < list[j])
    && (forall x :: x in s <==> x in list)
  }

  lemma NonEmpty(s: set<int>)
    requires s != {}
    ensures exists x :: x in s
  {
    assert (forall x :: x !in s) ==> s == {};
  }

  lemma Memberless(s: set<int>)
    requires forall x :: x !in s
    ensures s == {}
  {
    if s != {} {
      NonEmpty(s);
    }
  }

  lemma LeftOver(all: set<int>, fewer: set<int>, more: set<int>)
    requires fewer < more <= all
    ensures |all - more| < |all - fewer|
  {
    NonEmpty(more - fewer);
    var x :| x in more - fewer;
    assert all - more <= all - fewer - {x};
    Subset(all - more, all - fewer - {x});
  }

  lemma Subset(a: set<int>, b: set<int>)
    requires a <= b
    ensures |a| <= |b|
  {
    assert b == a + (b - a);
  }

  method Least(s: set<int>) returns (least: int)
    requires s != {}
    ensures least in s && forall x :: x in s ==> least <= x
  {
    NonEmpty(s);
    least :| least in s;
    var rest := s - {least};
    while rest != {}
      invariant rest <= s && least in s
      invariant forall x :: x in s ==> x in rest || least <= x
      decreases |rest|
    {
      NonEmpty(rest);
      var x :| x in rest;
      rest := rest - {x};
      if x < least {
        least := x;
      }
    }
  }

  lemma AppendLarger(list: seq<int>, s: set<int>, x: int)
    requires SortedListOf(list, s) && forall y :: y in list ==> y < x
    ensures SortedListOf(list + [x], s + {x})
  {
    assert forall i :: 0 <= i < |list| ==> list[i] in list;
  }

  method SortedList(s: set<int>) returns (list: seq<int>)
    ensures SortedListOf(list, s)
  {
    list := [];
    var rest := s;
    while rest != {}
      invariant rest <= s && SortedListOf(list, s - rest)
      invariant forall x, y :: x in list && y in rest ==> x < y
      decreases |rest|
    {
      var x := Least(rest);
      AppendLarger(list, s - rest, x);
      assert s - (rest - {x}) == (s - rest) + {x};
      rest := rest - {x};
      list := list + [x];
    }
    assert s - rest == s;
  }

  /** A set has only one sorted list. */
  lemma {:induction false} SortedListUnique(a: seq<int>, b: seq<int>, s: set<int>)
    requires SortedListOf(a, s) && SortedListOf(b, s)
    ensures a == b
    decreases |a|
  {
    assert a != [] ==> a[0] in a && a[0] in b;
    assert b != [] ==> b[0] in b && b[0] in a;
    if a == [] {
    } else {
      assert a[0] == b[0];
      TailSorted(a, s);
      TailSorted(b, s);
      SortedListUnique(a[1..], b[1..], s - {a[0]});
      assert a == [a[0]] + a[1..] && b == [b[0]] + b[1..];
    }
  }

  lemma TailSorted(a: seq<int>, s: set<int>)
    requires SortedListOf(a, s) && a != []
    ensures SortedListOf(a[1..], s - {a[0]})
  {
    assert a == [a[0]] + a[1..];
  }
}
