/** Exact nearest neighbours of the sparse backend, from candidate sets that need only be large enough. */
module SparseNeighbours {
  import opened Basics
  import opened SortedSets

  /** The canonical distance between two rows. */
  type Distance = (int, int) -> real

  const MAX_TOTAL_QUERY_CANDIDATES := 64_000_000
  const MAX_BATCH_QUERY_CANDIDATES := 2_000_000

  datatype Error = Budget | NotCovered

  datatype Outcome<T> = Done(value: T) | Failed(error: Error)

  /** By distance from the row, ties by row id. */
  predicate Nearer(distance: Distance, row: int, a: int, b: int) {
    distance(row, a) < distance(row, b) || (distance(row, a) == distance(row, b) && a < b)
  }

  /** The ids in order of distance and id. */
  ghost predicate RankedListOf(distance: Distance, row: int, list: seq<int>, ids: set<int>) {
    && (forall i, j :: 0 <= i < j < |list| ==> Nearer(distance, row, list[i], list[j]))
    && (forall x :: x in ids ==> x in list)
    && (forall x :: x in list ==> x in ids)
  }

  /** All rows but one. */
  function Others(count: nat, row: int): (others: set<int>)
    ensures forall v :: v in others <==> 0 <= v < count && v != row
  {
    if count == 0 then {} else Others(count - 1, row) + if row == count - 1 then {} else {count - 1}
  }

  // ----- Ranking -----

  method NearestOf(distance: Distance, row: int, ids: set<int>) returns (best: int)
    requires ids != {}
    ensures best in ids && forall x :: x in ids ==> x == best || Nearer(distance, row, best, x)
  {
    NonEmpty(ids);
    best :| best in ids;
    var rest := ids - {best};
    while rest != {}
      invariant rest <= ids && best in ids
      invariant forall x :: x in ids ==> x in rest || x == best || Nearer(distance, row, best, x)
      decreases |rest|
    {
      NonEmpty(rest);
      var x :| x in rest;
      rest := rest - {x};
      if Nearer(distance, row, x, best) {
        best := x;
      }
    }
  }

  lemma RankNext(distance: Distance, row: int, list: seq<int>, ids: set<int>, x: int)
    requires RankedListOf(distance, row, list, ids) && forall y :: y in list ==> Nearer(distance, row, y, x)
    ensures RankedListOf(distance, row, list + [x], ids + {x})
  {
    assert forall i :: 0 <= i < |list| ==> list[i] in list;
  }

  method Rank(distance: Distance, row: int, ids: set<int>) returns (list: seq<int>)
    ensures RankedListOf(distance, row, list, ids) && |list| == |ids|
  {
    list := [];
    var rest := ids;
    while rest != {}
      invariant rest <= ids && RankedListOf(distance, row, list, ids - rest)
      invariant forall x, y :: x in list && y in rest ==> Nearer(distance, row, x, y)
      decreases |rest|
    {
      var x := NearestOf(distance, row, rest);
      RankNext(distance, row, list, ids - rest, x);
      assert ids - (rest - {x}) == (ids - rest) + {x};
      rest := rest - {x};
      list := list + [x];
    }
    assert ids - rest == ids;
    RankedSize(distance, row, list, ids);
  }

  lemma {:induction false} RankedSize(distance: Distance, row: int, list: seq<int>, ids: set<int>)
    requires RankedListOf(distance, row, list, ids)
    ensures |list| == |ids|
  {
    if list == [] {
      Memberless(ids);
    } else {
      var last := |list| - 1;
      RankedFront(distance, row, list, ids);
      RankedSize(distance, row, list[..last], ids - {list[last]});
      assert list[last] in list;
    }
  }

  lemma RankedFront(distance: Distance, row: int, list: seq<int>, ids: set<int>)
    requires RankedListOf(distance, row, list, ids) && list != []
    ensures RankedListOf(distance, row, list[..|list| - 1], ids - {list[|list| - 1]})
  {
    var last := |list| - 1;
    forall i | 0 <= i < last
      ensures list[i] != list[last]
    {
      assert Nearer(distance, row, list[i], list[last]);
    }
    assert list == list[..last] + [list[last]];
  }

  /** A set has only one ranking. */
  lemma {:induction false} RankingUnique(distance: Distance, row: int, a: seq<int>, b: seq<int>, ids: set<int>)
    requires RankedListOf(distance, row, a, ids) && RankedListOf(distance, row, b, ids)
    ensures a == b
    decreases |a|
  {
    RankedSize(distance, row, a, ids);
    RankedSize(distance, row, b, ids);
    if a == [] {
    } else {
      var last := |a| - 1;
      SameLast(distance, row, a, b, ids);
      RankedFront(distance, row, a, ids);
      RankedFront(distance, row, b, ids);
      RankingUnique(distance, row, a[..last], b[..last], ids - {a[last]});
      assert a == a[..last] + [a[last]] && b == b[..last] + [b[last]];
    }
  }

  lemma LastIsFarthest(distance: Distance, row: int, list: seq<int>, ids: set<int>, x: int)
    requires RankedListOf(distance, row, list, ids) && x in list
    ensures x == list[|list| - 1] || Nearer(distance, row, x, list[|list| - 1])
  {
  }

  lemma SameLast(distance: Distance, row: int, a: seq<int>, b: seq<int>, ids: set<int>)
    requires RankedListOf(distance, row, a, ids) && RankedListOf(distance, row, b, ids) && |a| == |b| > 0
    ensures a[|a| - 1] == b[|b| - 1]
  {
    var x, y := a[|a| - 1], b[|b| - 1];
    assert x in a && y in b;
    LastIsFarthest(distance, row, b, ids, x);
    LastIsFarthest(distance, row, a, ids, y);
    assert !(Nearer(distance, row, x, y) && Nearer(distance, row, y, x));
  }

  // ----- Candidates -----

  /** The ids within a distance of the row. */
  ghost function Ball(distance: Distance, row: int, ids: set<int>, radius: real): set<int> {
    set v | v in ids && distance(row, v) <= radius
  }

  /** In a ranking the ids within a distance come first. */
  lemma {:induction false} BallFirst(distance: Distance, row: int, list: seq<int>, ids: set<int>, radius: real)
    requires RankedListOf(distance, row, list, ids)
    ensures var size := |Ball(distance, row, ids, radius)|;
      size <= |list| && RankedListOf(distance, row, list[..size], Ball(distance, row, ids, radius))
  {
    if list == [] {
      Memberless(ids);
    } else {
      var last := |list| - 1;
      if distance(row, list[last]) <= radius {
        AllInBall(distance, row, list, ids, radius);
        RankedSize(distance, row, list, ids);
        assert list[..|list|] == list;
      } else {
        RankedFront(distance, row, list, ids);
        BallFirst(distance, row, list[..last], ids - {list[last]}, radius);
        assert Ball(distance, row, ids - {list[last]}, radius) == Ball(distance, row, ids, radius);
        var size := |Ball(distance, row, ids, radius)|;
        assert list[..last][..size] == list[..size];
      }
    }
  }

  lemma AllInBall(distance: Distance, row: int, list: seq<int>, ids: set<int>, radius: real)
    requires RankedListOf(distance, row, list, ids) && list != [] && distance(row, list[|list| - 1]) <= radius
    ensures Ball(distance, row, ids, radius) == ids
  {
    forall v | v in ids
      ensures distance(row, v) <= radius
    {
      var i :| 0 <= i < |list| && list[i] == v;
      assert i < |list| - 1 ==> Nearer(distance, row, list[i], list[|list| - 1]);
    }
  }

  /** Candidates that include everything within a radius covering enough other rows. */
  ghost predicate Covering(distance: Distance, count: nat, row: int, proposed: set<int>, needed: nat) {
    exists radius ::
      && |Ball(distance, row, Others(count, row), radius)| >= needed
      && Ball(distance, row, Others(count, row), radius) <= proposed
  }

  /** From covering candidates the first needed ranks are those among all other rows, ties included. */
  lemma CoveringRanksExact(distance: Distance, count: nat, row: int, proposed: set<int>, needed: nat, list: seq<int>,
                           all: seq<int>)
    requires Covering(distance, count, row, proposed, needed) && proposed - {row} <= Others(count, row)
    requires RankedListOf(distance, row, list, proposed - {row})
    requires RankedListOf(distance, row, all, Others(count, row))
    ensures |list| >= needed && |all| >= needed && list[..needed] == all[..needed]
  {
    var radius :|
      && |Ball(distance, row, Others(count, row), radius)| >= needed
      && Ball(distance, row, Others(count, row), radius) <= proposed;
    var ball := Ball(distance, row, Others(count, row), radius);
    assert Ball(distance, row, proposed - {row}, radius) == ball;
    BallFirst(distance, row, list, proposed - {row}, radius);
    BallFirst(distance, row, all, Others(count, row), radius);
    RankingUnique(distance, row, list[..|ball|], all[..|ball|], ball);
    assert list[..needed] == list[..|ball|][..needed] && all[..needed] == all[..|ball|][..needed];
  }

  // ----- All rows -----

  /** The stored neighbours and fourth distance of a row are those of a ranking of the given ids. */
  ghost predicate RowOf(distance: Distance, row: int, ids: set<int>, k: nat, stored: seq<int>, fourth: real) {
    exists list ::
      && RankedListOf(distance, row, list, ids) && |list| >= Max(k, 4)
      && stored == list[..k] && fourth == distance(row, list[3])
  }

  function TotalCount(candidates: seq<set<int>>, lo: nat, hi: nat): nat
    requires lo <= hi <= |candidates|
  {
    if lo == hi then 0 else TotalCount(candidates, lo, hi - 1) + |candidates[hi - 1]|
  }

  /** Every batch from the given row on stays within the batch budget. */
  predicate BatchesWithin(candidates: seq<set<int>>, batch: nat, start: nat)
    requires batch > 0
    decreases |candidates| - start
  {
    start >= |candidates|
    || (TotalCount(candidates, start, Min(start + batch, |candidates|)) <= MAX_BATCH_QUERY_CANDIDATES
        && BatchesWithin(candidates, batch, start + batch))
  }

  predicate WithinBudget(candidates: seq<set<int>>, batch: nat)
    requires batch > 0
  {
    TotalCount(candidates, 0, |candidates|) <= MAX_TOTAL_QUERY_CANDIDATES && BatchesWithin(candidates, batch, 0)
  }

  predicate EnoughCandidates(candidates: seq<set<int>>, k: nat, row: nat)
    requires row < |candidates|
  {
    |candidates[row] - {row}| >= Max(k, 4)
  }

  /** The rows up to the given one have enough candidates and are filled from them. */
  ghost predicate Filled(distance: Distance, k: nat, candidates: seq<set<int>>, neighbours: seq<seq<int>>,
                         fourth: seq<real>, upto: nat)
    requires |neighbours| == |fourth| == |candidates|
  {
    forall row :: 0 <= row < upto && row < |candidates| ==> RowFilled(distance, k, candidates, neighbours, fourth, row)
  }

  ghost predicate RowFilled(distance: Distance, k: nat, candidates: seq<set<int>>, neighbours: seq<seq<int>>,
                            fourth: seq<real>, row: nat)
    requires row < |neighbours| == |fourth| == |candidates|
  {
    && EnoughCandidates(candidates, k, row)
    && RowOf(distance, row, candidates[row] - {row}, k, neighbours[row], fourth[row])
  }

  lemma FillNext(distance: Distance, k: nat, candidates: seq<set<int>>, neighbours: seq<seq<int>>, fourth: seq<real>,
                 row: nat, stored: seq<int>, fourthHere: real)
    requires row < |neighbours| == |fourth| == |candidates| && Filled(distance, k, candidates, neighbours, fourth, row)
    requires EnoughCandidates(candidates, k, row)
      && RowOf(distance, row, candidates[row] - {row}, k, stored, fourthHere)
    ensures Filled(distance, k, candidates, neighbours[row := stored], fourth[row := fourthHere], row + 1)
  {
    var neighbours', fourth' := neighbours[row := stored], fourth[row := fourthHere];
    forall r | 0 <= r < row + 1 && r < |candidates|
      ensures RowFilled(distance, k, candidates, neighbours', fourth', r)
    {
      assert r < row ==> RowFilled(distance, k, candidates, neighbours, fourth, r);
    }
  }

  predicate AllEnough(candidates: seq<set<int>>, k: nat) {
    forall row :: 0 <= row < |candidates| ==> EnoughCandidates(candidates, k, row)
  }

  /** One row: its ranked candidates, unless there are too few. */
  method OneRow(distance: Distance, row: int, ids: set<int>, k: nat)
    returns (enough: bool, stored: seq<int>, fourth: real)
    ensures enough <==> |ids| >= Max(k, 4)
    ensures enough ==> RowOf(distance, row, ids, k, stored, fourth)
  {
    var order := Rank(distance, row, ids);
    if |order| < Max(k, 4) {
      return false, [], 0.0;
    }
    enough, stored, fourth := true, order[..k], distance(row, order[3]);
  }

  /** The rows of one batch, written in place; it stops at a row with too few candidates. */
  method FillBatch(distance: Distance, k: nat, candidates: seq<set<int>>, start: nat, end: nat,
                   neighbours: array<seq<int>>, fourth: array<real>)
    returns (enough: bool)
    requires neighbours.Length == fourth.Length == |candidates| && start <= end <= |candidates|
    requires Filled(distance, k, candidates, neighbours[..], fourth[..], start)
    modifies neighbours, fourth
    ensures enough ==> Filled(distance, k, candidates, neighbours[..], fourth[..], end)
    ensures !enough ==> !AllEnough(candidates, k)
  {
    var row := start;
    while row < end
      invariant start <= row <= end
      invariant Filled(distance, k, candidates, neighbours[..], fourth[..], row)
    {
      var stored, distance4;
      enough, stored, distance4 := OneRow(distance, row, candidates[row] - {row}, k);
      if !enough {
        assert !EnoughCandidates(candidates, k, row);
        return;
      }
      FillNext(distance, k, candidates, neighbours[..], fourth[..], row, stored, distance4);
      ghost var neighbours', fourth' := neighbours[..][row := stored], fourth[..][row := distance4];
      neighbours[row] := stored;
      fourth[row] := distance4;
      assert neighbours[..] == neighbours' && fourth[..] == fourth';
      row := row + 1;
    }
    enough := true;
  }

  /**
   The directed neighbour table, filled batch by batch. It fails exactly when a budget is exceeded
   or a row has too few candidates; otherwise each row ranks its own candidates.
   */
  method DirectedNeighbours(distance: Distance, k: nat, candidates: seq<set<int>>, batch: nat)
    returns (outcome: Outcome<(seq<seq<int>>, seq<real>)>)
    requires k >= 1 && batch >= 1
    ensures outcome.Done? <==> WithinBudget(candidates, batch) && AllEnough(candidates, k)
    ensures outcome == Failed(Budget) ==> !WithinBudget(candidates, batch)
    ensures outcome == Failed(NotCovered) ==> !AllEnough(candidates, k)
    ensures outcome.Done? ==>
      && |outcome.value.0| == |outcome.value.1| == |candidates|
      && Filled(distance, k, candidates, outcome.value.0, outcome.value.1, |candidates|)
  {
    var count := |candidates|;
    if TotalCount(candidates, 0, count) > MAX_TOTAL_QUERY_CANDIDATES {
      return Failed(Budget);
    }
    var neighbours := new seq<int>[count](_ => []);
    var fourth := new real[count](_ => 0.0);
    var start := 0;
    while start < count
      invariant BatchesWithin(candidates, batch, 0) <==> BatchesWithin(candidates, batch, start)
      invariant Filled(distance, k, candidates, neighbours[..], fourth[..], start)
      decreases count - start
    {
      var end := Min(start + batch, count);
      if TotalCount(candidates, start, end) > MAX_BATCH_QUERY_CANDIDATES {
        return Failed(Budget);
      }
      var enough := FillBatch(distance, k, candidates, start, end, neighbours, fourth);
      if !enough {
        return Failed(NotCovered);
      }
      start := start + batch;
    }
    AllFilled(distance, k, candidates, neighbours[..], fourth[..], start);
    outcome := Done((neighbours[..], fourth[..]));
  }

  lemma AllFilled(distance: Distance, k: nat, candidates: seq<set<int>>, neighbours: seq<seq<int>>, fourth: seq<real>,
                  upto: nat)
    requires |neighbours| == |fourth| == |candidates| <= upto
    requires Filled(distance, k, candidates, neighbours, fourth, upto)
    ensures Filled(distance, k, candidates, neighbours, fourth, |candidates|) && AllEnough(candidates, k)
  {
    forall row | 0 <= row < |candidates|
      ensures EnoughCandidates(candidates, k, row) && RowFilled(distance, k, candidates, neighbours, fourth, row)
    {
      assert RowFilled(distance, k, candidates, neighbours, fourth, row);
    }
  }

  /** When the candidates cover a row, its stored neighbours and fourth distance are the brute-force ones. */
  lemma CoveredRowExact(distance: Distance, count: nat, row: int, proposed: set<int>, k: nat, stored: seq<int>,
                        fourth: real)
    requires Covering(distance, count, row, proposed, Max(k, 4)) && proposed - {row} <= Others(count, row)
    requires RowOf(distance, row, proposed - {row}, k, stored, fourth)
    ensures RowOf(distance, row, Others(count, row), k, stored, fourth)
  {
    var list :|
      && RankedListOf(distance, row, list, proposed - {row}) && |list| >= Max(k, 4)
      && stored == list[..k] && fourth == distance(row, list[3]);
    var all := RankingExists(distance, row, Others(count, row));
    CoveringRanksExact(distance, count, row, proposed, Max(k, 4), list, all);
    var needed := Max(k, 4);
    assert list[..k] == list[..needed][..k] && all[..k] == all[..needed][..k];
    assert list[..needed][3] == all[..needed][3];
  }

  /**
   A row's stored neighbours and fourth distance are determined by its ids, so no batch size or candidate order
   matters.
   */
  lemma RowDetermined(distance: Distance, row: int, ids: set<int>, k: nat, a: seq<int>, fourthA: real, b: seq<int>,
                      fourthB: real)
    requires RowOf(distance, row, ids, k, a, fourthA) && RowOf(distance, row, ids, k, b, fourthB)
    ensures a == b && fourthA == fourthB
  {
    var first :|
      && RankedListOf(distance, row, first, ids) && |first| >= Max(k, 4)
      && a == first[..k] && fourthA == distance(row, first[3]);
    var second :|
      && RankedListOf(distance, row, second, ids) && |second| >= Max(k, 4)
      && b == second[..k] && fourthB == distance(row, second[3]);
    RankingUnique(distance, row, first, second, ids);
  }

  /** Covering candidates are always enough: the failure for too few cannot be reached. */
  lemma CoveringIsEnough(distance: Distance, count: nat, row: int, proposed: set<int>, needed: nat)
    requires Covering(distance, count, row, proposed, needed)
    ensures |proposed - {row}| >= needed
  {
    var radius :|
      && |Ball(distance, row, Others(count, row), radius)| >= needed
      && Ball(distance, row, Others(count, row), radius) <= proposed;
    Subset(Ball(distance, row, Others(count, row), radius), proposed - {row});
  }

  lemma {:induction false} RankingExists(distance: Distance, row: int, ids: set<int>) returns (list: seq<int>)
    ensures RankedListOf(distance, row, list, ids)
  {
    if ids == {} {
      list := [];
    } else {
      var far := FarthestOf(distance, row, ids);
      list := RankingExists(distance, row, ids - {far});
      RankNext(distance, row, list, ids - {far}, far);
      list := list + [far];
      assert ids - {far} + {far} == ids;
    }
  }

  lemma {:induction false} FarthestOf(distance: Distance, row: int, ids: set<int>) returns (far: int)
    requires ids != {}
    ensures far in ids && forall x :: x in ids ==> x == far || Nearer(distance, row, x, far)
  {
    NonEmpty(ids);
    var x :| x in ids;
    if ids - {x} == {} {
      far := x;
      forall y | y in ids
        ensures y == far
      {
        assert y != x ==> y in ids - {x};
      }
    } else {
      var rest := FarthestOf(distance, row, ids - {x});
      far := if Nearer(distance, row, rest, x) then x else rest;
      forall y | y in ids
        ensures y == far || Nearer(distance, row, y, far)
      {
        assert y != x ==> y in ids - {x};
      }
    }
  }

  /** The ids strictly closer than a distance. */
  ghost function Closer(distance: Distance, row: int, ids: set<int>, radius: real): set<int> {
    set v | v in ids && distance(row, v) < radius
  }

  /** The ids are listed by distance, equal distances by id. */
  predicate ByDistance(distance: Distance, row: int, list: seq<int>) {
    forall i, j :: 0 <= i < j < |list| ==>
      && distance(row, list[i]) <= distance(row, list[j])
      && (distance(row, list[i]) == distance(row, list[j]) ==> list[i] < list[j])
  }

  /**
   A stored row by its distances: k ids by distance, none that is not stored is closer than one that is, and the fourth
   distance has at least four ids within it and at most three strictly closer.
   */
  lemma RowByDistances(distance: Distance, row: int, ids: set<int>, k: nat, stored: seq<int>, fourth: real)
    requires RowOf(distance, row, ids, k, stored, fourth)
    ensures |stored| == k && ByDistance(distance, row, stored) && forall v :: v in stored ==> v in ids
    ensures forall u, v :: u in stored && v in ids && v !in stored ==> distance(row, u) <= distance(row, v)
    ensures |Ball(distance, row, ids, fourth)| >= 4 && |Closer(distance, row, ids, fourth)| <= 3
  {
    var list :|
      && RankedListOf(distance, row, list, ids) && |list| >= Max(k, 4)
      && stored == list[..k] && fourth == distance(row, list[3]);
    forall v | v in stored
      ensures v in ids
    {
      assert v in list;
    }
    forall u, v | u in stored && v in ids && v !in stored
      ensures distance(row, u) <= distance(row, v)
    {
      StoredFirst(distance, row, list, ids, k, u, v);
    }
    FourRanks(distance, row, list, ids);
  }

  lemma StoredFirst(distance: Distance, row: int, list: seq<int>, ids: set<int>, k: nat, u: int, v: int)
    requires RankedListOf(distance, row, list, ids) && k <= |list|
    requires u in list[..k] && v in ids && v !in list[..k]
    ensures Nearer(distance, row, u, v)
  {
    forall m | 0 <= m < k
      ensures list[m] in list[..k]
    {
      assert list[..k][m] == list[m];
    }
    var i :| 0 <= i < k && list[..k][i] == u;
    var j :| 0 <= j < |list| && list[j] == v;
  }

  /** The four first ranks are within the fourth distance, and nothing else than the first three is strictly closer. */
  lemma FourRanks(distance: Distance, row: int, list: seq<int>, ids: set<int>)
    requires RankedListOf(distance, row, list, ids) && |list| >= 4
    ensures |Ball(distance, row, ids, distance(row, list[3]))| >= 4
    ensures |Closer(distance, row, ids, distance(row, list[3]))| <= 3
  {
    var fourth := distance(row, list[3]);
    var three := {list[0], list[1], list[2]};
    assert list[0] in list && list[1] in list && list[2] in list && list[3] in list;
    assert list[3] !in three;
    Subset(three + {list[3]}, Ball(distance, row, ids, fourth));
    ThreeIds(list[0], list[1], list[2]);
    forall v | v in Closer(distance, row, ids, fourth)
      ensures v in three
    {
      var i :| 0 <= i < |list| && list[i] == v;
      assert i > 3 ==> Nearer(distance, row, list[3], list[i]);
    }
    Subset(Closer(distance, row, ids, fourth), three);
  }

  lemma ThreeIds(a: int, b: int, c: int)
    ensures |{a, b, c}| <= 3 && (a != b && b != c && a != c ==> |{a, b, c}| == 3)
  {
    assert {a, b, c} == {a, b} + {c} && {a, b} == {a} + {b};
  }
}
