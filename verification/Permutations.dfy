/** Permutations of 0..n-1 as sequences: pigeonhole, counting and reordered sums. */
module Permutations {

  ghost predicate Injective(s: seq<int>) { forall i, j :: 0 <= i < j < |s| ==> s[i] != s[j] }

  ghost predicate IsPermutation(s: seq<int>, n: nat) {
    |s| == n && (forall i :: 0 <= i < n ==> 0 <= s[i] < n) && Injective(s)
  }

  /** The values 0..n-1. */
  ghost function Range(n: nat): (r: set<int>)
    ensures forall i :: i in r <==> 0 <= i < n
  {
    if n == 0 then {} else Range(n - 1) + {n - 1}
  }

  lemma {:induction false} RangeSize(n: nat)
    ensures |Range(n)| == n
  {
    if n == 0 {
    } else {
      RangeSize(n - 1);
    }
  }

  ghost function Values(s: seq<int>): set<int> { set i | 0 <= i < |s| :: s[i] }

  lemma {:induction false} ValuesSize(s: seq<int>)
    requires Injective(s)
    ensures |Values(s)| == |s|
  {
    if s == [] {
    } else {
      var t, last := s[..|s| - 1], s[|s| - 1];
      ValuesSize(t);
      assert Values(s) == Values(t) + {last};
      assert last !in Values(t);
    }
  }

  lemma SubsetSize(a: set<int>, b: set<int>)
    requires a <= b
    ensures |a| <= |b|
    ensures |a| == |b| ==> a == b
  {
    assert b == a + (b - a);
    assert |b| == |a| + |b - a|;
  }

  /** More distinct values than the range can hold is impossible. */
  lemma Pigeonhole(s: seq<int>, n: nat)
    requires Injective(s) && (forall i :: 0 <= i < |s| ==> 0 <= s[i] < n)
    ensures |s| <= n
    ensures |s| == n ==> Values(s) == Range(n)
  {
    ValuesSize(s);
    RangeSize(n);
    SubsetSize(Values(s), Range(n));
  }

  /** Every value below n occurs in a permutation. */
  lemma Surjective(s: seq<int>, n: nat, j: int) returns (i: nat)
    requires IsPermutation(s, n) && 0 <= j < n
    ensures i < n && s[i] == j
  {
    Pigeonhole(s, n);
    assert j in Values(s);
    i :| 0 <= i < n && s[i] == j;
  }

  /** How many of the first k entries are below m. */
  function CountBelow(s: seq<int>, m: int, k: nat): nat
    requires k <= |s|
  {
    if k == 0 then 0 else CountBelow(s, m, k - 1) + if s[k - 1] < m then 1 else 0
  }

  ghost function ValuesBelow(s: seq<int>, m: int, k: nat): set<int>
    requires k <= |s|
  {
    set i | 0 <= i < k && s[i] < m :: s[i]
  }

  lemma {:induction false} CountBelowIsSize(s: seq<int>, m: int, k: nat)
    requires k <= |s| && Injective(s)
    ensures CountBelow(s, m, k) == |ValuesBelow(s, m, k)|
  {
    if k == 0 {
    } else {
      CountBelowIsSize(s, m, k - 1);
      if s[k - 1] < m {
        assert ValuesBelow(s, m, k) == ValuesBelow(s, m, k - 1) + {s[k - 1]};
        assert s[k - 1] !in ValuesBelow(s, m, k - 1);
      } else {
        assert ValuesBelow(s, m, k) == ValuesBelow(s, m, k - 1);
      }
    }
  }

  /** A permutation takes exactly m values below m. */
  lemma PermutationCounts(s: seq<int>, n: nat, m: nat)
    requires IsPermutation(s, n) && m <= n
    ensures CountBelow(s, m, n) == m
  {
    CountBelowIsSize(s, m, n);
    RangeSize(m);
    forall j | j in Range(m)
      ensures j in ValuesBelow(s, m, n)
    {
      var i := Surjective(s, n, j);
    }
    assert ValuesBelow(s, m, n) == Range(m);
  }

  /** Sum of f over the first k entries. */
  function SumOver(s: seq<int>, f: int -> int, k: nat): int
    requires k <= |s|
  {
    if k == 0 then 0 else SumOver(s, f, k - 1) + f(s[k - 1])
  }

  /** Sum of f over 0..n-1. */
  function SumBelow(f: int -> int, n: nat): int {
    if n == 0 then 0 else SumBelow(f, n - 1) + f(n - 1)
  }

  lemma {:induction false} SumOverPrefix(s: seq<int>, t: seq<int>, f: int -> int, k: nat)
    requires k <= |s| && k <= |t| && s[..k] == t[..k]
    ensures SumOver(s, f, k) == SumOver(t, f, k)
  {
    if k == 0 {
    } else {
      assert s[k - 1] == s[..k][k - 1] && t[k - 1] == t[..k][k - 1];
      assert s[..k - 1] == s[..k][..k - 1] && t[..k - 1] == t[..k][..k - 1];
      SumOverPrefix(s, t, f, k - 1);
    }
  }

  lemma {:induction false} SumOverUpdate(s: seq<int>, f: int -> int, i: nat, v: int, k: nat)
    requires i < k <= |s|
    ensures SumOver(s[i := v], f, k) == SumOver(s, f, k) - f(s[i]) + f(v)
  {
    if i == k - 1 {
      SumOverPrefix(s[i := v], s, f, k - 1);
    } else {
      SumOverUpdate(s, f, i, v, k - 1);
    }
  }

  /** A permutation without its greatest value, the last entry put in the place of that value. */
  lemma LastValueOut(s: seq<int>, f: int -> int, n: nat) returns (u: seq<int>)
    requires n > 0 && IsPermutation(s, n)
    ensures IsPermutation(u, n - 1) && SumOver(s, f, n) == SumOver(u, f, n - 1) + f(n - 1)
  {
    var k := Surjective(s, n, n - 1);
    var t := s[k := s[n - 1]];
    u := t[..n - 1];
    SumOverPrefix(t, u, f, n - 1);
    if k < n - 1 {
      SumOverUpdate(s, f, k, s[n - 1], n - 1);
    } else {
      SumOverPrefix(s, u, f, n - 1);
    }
  }

  /** Reordering does not change a sum. */
  lemma {:induction false} SumReordered(s: seq<int>, f: int -> int, n: nat)
    requires IsPermutation(s, n)
    ensures SumOver(s, f, n) == SumBelow(f, n)
    decreases n
  {
    if n == 0 {
    } else {
      var u := LastValueOut(s, f, n);
      SumReordered(u, f, n - 1);
    }
  }
}
