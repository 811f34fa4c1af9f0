/** Which verdicts of the score depend on the minimum that the assignment solver happens to return. */
module ScoreVerdicts {
  import opened Permutations
  import opened Scoring

  /** A partial injection of least value among all of them. */
  ghost predicate BestMatching(n: nat, m: nat, d: Distances, p: seq<int>) {
    IsMatching(p, n, m) && forall q :: IsMatching(q, n, m) ==> AtMost(m, d, p, q)
  }

  predicate AtMost(m: nat, d: Distances, p: seq<int>, q: seq<int>) { MatchingValue(d, p, m) <= MatchingValue(d, q, m) }

  // ----- Minima of the solver and best matchings -----

  /** A long pair makes a matching strictly worse than leaving its ends unmatched. */
  lemma {:induction false} LongPairCosts(p: seq<int>, d: Distances, k: nat, i: nat)
    requires i < k <= |p| && p[i] >= 0 && d(i, p[i]) > MATCH_LIMIT
    ensures Matched(Near(p, d), k) <= Matched(p, k)
    ensures CandidateValue(d, Near(p, d), k) + UNMATCHED * ((Matched(p, k) - Matched(Near(p, d), k)) as real)
         < CandidateValue(d, p, k)
  {
    if i == k - 1 {
      NearIsCheaper(p, d, k - 1);
    } else {
      LongPairCosts(p, d, k - 1, i);
    }
  }

  lemma BestHasNoLongPair(n: nat, m: nat, d: Distances, p: seq<int>, i: nat)
    requires BestMatching(n, m, d, p) && i < n && p[i] >= 0
    ensures d(i, p[i]) <= MATCH_LIMIT
  {
    NearIsMatching(p, n, m, d);
    assert AtMost(m, d, p, Near(p, d));
    if d(i, p[i]) > MATCH_LIMIT {
      LongPairCosts(p, d, n, i);
    }
  }

  /** Every minimum of the solver is read off as a best matching. */
  lemma MinimumIsBest(n: nat, m: nat, d: Distances, s: seq<int>)
    requires IsOptimal(n, m, d, s)
    ensures BestMatching(n, m, d, Extract(n, m, d, s))
  {
    ExtractIsMatching(n, m, d, s);
    forall q | IsMatching(q, n, m)
      ensures AtMost(m, d, Extract(n, m, d, s), q)
    {
      ExtractedMatchingOptimal(n, m, d, s, q);
    }
  }

  /** Every best matching is read off some minimum: the solver may return any of them. */
  lemma BestIsMinimum(n: nat, m: nat, d: Distances, s: seq<int>, p: seq<int>) returns (t: seq<int>)
    requires IsOptimal(n, m, d, s) && BestMatching(n, m, d, p)
    ensures IsOptimal(n, m, d, t) && Extract(n, m, d, t) == p
  {
    t := Complete(p, m);
    forall i | 0 <= i < n && p[i] >= 0
      ensures d(i, p[i]) <= MATCH_LIMIT
    {
      BestHasNoLongPair(n, m, d, p, i);
    }
    CompleteIsPermutation(p, n, m);
    CompleteExtracts(p, n, m, d);
    CostIsValue(n, m, d, t);
    ExtractIsMatching(n, m, d, s);
    CostIsValue(n, m, d, s);
    assert AtMost(m, d, p, Extract(n, m, d, s));
    forall u | IsPermutation(u, n + m)
      ensures NoWorse(n, m, d, t, u)
    {
      assert NoWorse(n, m, d, s, u);
    }
  }

  // ----- The verdict -----

  /** Every candidate matched, and to a truth of its own charge, with no truth left over. */
  predicate ExactMatching(measured: seq<int>, expected: seq<int>, p: seq<int>) {
    && |measured| == |expected| == |p|
    && forall i :: 0 <= i < |p| ==> 0 <= p[i] < |expected| && measured[i] == expected[p[i]]
  }

  lemma {:induction false} CorrectMatches(measured: seq<int>, expected: seq<int>, d: Distances, p: seq<int>, k: nat)
    requires ExactMatching(measured, expected, p) && k <= |p|
    ensures |MatchList(measured, expected, d, p, k)| == k && AllCorrect(MatchList(measured, expected, d, p, k))
  {
    if k == 0 {
    } else {
      CorrectMatches(measured, expected, d, p, k - 1);
    }
  }

  /** The verdict is that of the matching read off. */
  lemma ExactByMatching(measured: seq<int>, expected: seq<int>, d: Distances, s: seq<int>)
    requires IsOptimal(|measured|, |expected|, d, s)
    ensures IsExact(measured, expected, d, s) <==>
      ExactMatching(measured, expected, Extract(|measured|, |expected|, d, s))
  {
    var q := Extract(|measured|, |expected|, d, s);
    ExtractIsMatching(|measured|, |expected|, d, s);
    if IsExact(measured, expected, d, s) {
      ExactChargesAgree(measured, expected, d, q);
    } else if ExactMatching(measured, expected, q) {
      CorrectMatches(measured, expected, d, q, |q|);
    }
  }

  /** Two minima with different verdicts. */
  ghost predicate Varies(measured: seq<int>, expected: seq<int>, d: Distances) {
    exists s, t ::
      && IsOptimal(|measured|, |expected|, d, s) && IsOptimal(|measured|, |expected|, d, t)
      && IsExact(measured, expected, d, s) && !IsExact(measured, expected, d, t)
  }

  /** An exact and an inexact matching tie for the least value. */
  ghost predicate Tied(measured: seq<int>, expected: seq<int>, d: Distances) {
    exists p, q ::
      && BestMatching(|measured|, |expected|, d, p) && BestMatching(|measured|, |expected|, d, q)
      && ExactMatching(measured, expected, p) && !ExactMatching(measured, expected, q)
  }

  /** The verdict depends on the solver's choice exactly when an exact and an inexact matching tie for the least. */
  lemma VariesIffTied(measured: seq<int>, expected: seq<int>, d: Distances, s: seq<int>)
    requires IsOptimal(|measured|, |expected|, d, s)
    ensures Varies(measured, expected, d) <==> Tied(measured, expected, d)
  {
    if Varies(measured, expected, d) {
      VariesTies(measured, expected, d);
    }
    if Tied(measured, expected, d) {
      TiesVary(measured, expected, d, s);
    }
  }

  lemma VariesTies(measured: seq<int>, expected: seq<int>, d: Distances)
    requires Varies(measured, expected, d)
    ensures Tied(measured, expected, d)
  {
    var n, m := |measured|, |expected|;
    var s, t :|
      && IsOptimal(n, m, d, s) && IsOptimal(n, m, d, t)
      && IsExact(measured, expected, d, s) && !IsExact(measured, expected, d, t);
    MinimumIsBest(n, m, d, s);
    MinimumIsBest(n, m, d, t);
    ExactByMatching(measured, expected, d, s);
    ExactByMatching(measured, expected, d, t);
  }

  lemma TiesVary(measured: seq<int>, expected: seq<int>, d: Distances, s: seq<int>)
    requires IsOptimal(|measured|, |expected|, d, s) && Tied(measured, expected, d)
    ensures Varies(measured, expected, d)
  {
    var n, m := |measured|, |expected|;
    var p, q :|
      && BestMatching(n, m, d, p) && BestMatching(n, m, d, q)
      && ExactMatching(measured, expected, p) && !ExactMatching(measured, expected, q);
    var t := BestIsMinimum(n, m, d, s, p);
    var u := BestIsMinimum(n, m, d, s, q);
    ExactByMatching(measured, expected, d, t);
    ExactByMatching(measured, expected, d, u);
  }

  // ----- When the choice does not matter -----

  /** All truths within the limit of one candidate carry one charge. */
  ghost predicate OneChargeInReach(n: nat, expected: seq<int>, d: Distances) {
    forall i, j, k ::
      && 0 <= i < n && 0 <= j < |expected| && 0 <= k < |expected|
      && d(i, j) <= MATCH_LIMIT && d(i, k) <= MATCH_LIMIT
      ==> expected[j] == expected[k]
  }

  /** Then minima with equally many matches have the same verdict. */
  lemma EqualSizesAgree(measured: seq<int>, expected: seq<int>, d: Distances, p: seq<int>, q: seq<int>)
    requires BestMatching(|measured|, |expected|, d, p) && BestMatching(|measured|, |expected|, d, q)
    requires OneChargeInReach(|measured|, expected, d) && Matched(p, |p|) == Matched(q, |q|)
    requires ExactMatching(measured, expected, p)
    ensures ExactMatching(measured, expected, q)
  {
    var n, m := |measured|, |expected|;
    AllMatched(p, n);
    FullMatching(q, n);
    forall i | 0 <= i < n
      ensures measured[i] == expected[q[i]]
    {
      BestHasNoLongPair(n, m, d, p, i);
      BestHasNoLongPair(n, m, d, q, i);
    }
  }

  lemma {:induction false} AllMatched(p: seq<int>, k: nat)
    requires k <= |p| && forall i :: 0 <= i < k ==> p[i] >= 0
    ensures Matched(p, k) == k
  {
    if k == 0 {
    } else {
      AllMatched(p, k - 1);
    }
  }

  /**
   No competition: nothing lies at the limit exactly, and no two truths are within the limit of one candidate,
   nor two candidates within the limit of one truth.
   */
  ghost predicate Uncontested(n: nat, m: nat, d: Distances) {
    && (forall i, j :: 0 <= i < n && 0 <= j < m ==> d(i, j) != MATCH_LIMIT)
    && (forall i, j, k :: 0 <= i < n && 0 <= j < k < m ==> d(i, j) > MATCH_LIMIT || d(i, k) > MATCH_LIMIT)
    && (forall i, j, k :: 0 <= i < j < n && 0 <= k < m ==> d(i, k) > MATCH_LIMIT || d(j, k) > MATCH_LIMIT)
  }

  lemma {:induction false} ValueWithPair(p: seq<int>, d: Distances, i: nat, j: nat, k: nat)
    requires i < |p| && p[i] < 0 && k <= |p|
    ensures Matched(p[i := j], k) == Matched(p, k) + if i < k then 1 else 0
    ensures CandidateValue(d, p[i := j], k) == CandidateValue(d, p, k) + if i < k then d(i, j) - UNMATCHED else 0.0
  {
    if k == 0 {
    } else {
      ValueWithPair(p, d, i, j, k - 1);
    }
  }

  /** Without competition a best matching takes every pair within the limit. */
  lemma UncontestedTakes(n: nat, m: nat, d: Distances, p: seq<int>, i: nat, j: nat)
    requires BestMatching(n, m, d, p) && Uncontested(n, m, d) && i < n && j < m && d(i, j) <= MATCH_LIMIT
    ensures p[i] == j
  {
    if p[i] >= 0 {
      BestHasNoLongPair(n, m, d, p, i);
    } else {
      var q := p[i := j];
      forall k | 0 <= k < n && p[k] == j
        ensures k == i
      {
        BestHasNoLongPair(n, m, d, p, k);
      }
      assert IsMatching(q, n, m);
      assert AtMost(m, d, p, q);
      ValueWithPair(p, d, i, j, n);
    }
  }

  /** Without competition there is one best matching, so every minimum gives the same matches and the same verdict. */
  lemma UncontestedForced(measured: seq<int>, expected: seq<int>, d: Distances, s: seq<int>, t: seq<int>)
    requires Uncontested(|measured|, |expected|, d)
    requires IsOptimal(|measured|, |expected|, d, s) && IsOptimal(|measured|, |expected|, d, t)
    ensures Extract(|measured|, |expected|, d, s) == Extract(|measured|, |expected|, d, t)
    ensures IsExact(measured, expected, d, s) <==> IsExact(measured, expected, d, t)
  {
    var n, m := |measured|, |expected|;
    MinimumIsBest(n, m, d, s);
    MinimumIsBest(n, m, d, t);
    var p, q := Extract(n, m, d, s), Extract(n, m, d, t);
    forall i | 0 <= i < n
      ensures p[i] == q[i]
    {
      if p[i] >= 0 {
        BestHasNoLongPair(n, m, d, p, i);
        UncontestedTakes(n, m, d, q, i, p[i]);
      } else if q[i] >= 0 {
        BestHasNoLongPair(n, m, d, q, i);
        UncontestedTakes(n, m, d, p, i, q[i]);
      }
    }
    ExactByMatching(measured, expected, d, s);
    ExactByMatching(measured, expected, d, t);
  }

  /** Some truth of the candidate's charge lies within the limit. */
  ghost predicate HasOwnTruth(measured: seq<int>, expected: seq<int>, d: Distances, i: nat)
    requires i < |measured|
  {
    exists j :: 0 <= j < |expected| && d(i, j) <= MATCH_LIMIT && measured[i] == expected[j]
  }

  /** And the verdict can be told from distances and charges alone. */
  lemma UncontestedVerdict(measured: seq<int>, expected: seq<int>, d: Distances, s: seq<int>)
    requires Uncontested(|measured|, |expected|, d) && IsOptimal(|measured|, |expected|, d, s)
    ensures IsExact(measured, expected, d, s) <==>
      |measured| == |expected| && forall i :: 0 <= i < |measured| ==> HasOwnTruth(measured, expected, d, i)
  {
    var n, m := |measured|, |expected|;
    var p := Extract(n, m, d, s);
    MinimumIsBest(n, m, d, s);
    ExactByMatching(measured, expected, d, s);
    forall i | 0 <= i < n
      ensures HasOwnTruth(measured, expected, d, i) <==> p[i] >= 0 && measured[i] == expected[p[i]]
    {
      if p[i] >= 0 {
        BestHasNoLongPair(n, m, d, p, i);
      }
      if HasOwnTruth(measured, expected, d, i) {
        var j :| 0 <= j < m && d(i, j) <= MATCH_LIMIT && measured[i] == expected[j];
        UncontestedTakes(n, m, d, p, i, j);
      }
    }
  }

  // ----- Two inputs whose verdict is open -----

  /** No assignment costs less than 0.05 per candidate when no distance is smaller. */
  lemma {:induction false} CostAtLeast(n: nat, m: nat, d: Distances, s: seq<int>, k: nat)
    requires k <= |s| && forall i, j :: d(i, j) >= UNMATCHED
    ensures RowsCost(n, m, d, s, k) >= UNMATCHED * (if k < n then k else n) as real
  {
    if k == 0 {
    } else {
      CostAtLeast(n, m, d, s, k - 1);
    }
  }

  function Everywhere(x: real): Distances { (i: int, j: int) => x }

  /** Two candidates and two truths of opposite charges, all equally far: crossing over costs the same. */
  lemma CrossingVaries()
    ensures Varies([1, -1], [1, -1], Everywhere(0.05))
  {
    var d, s, t := Everywhere(0.05), [0, 1, 2, 3], [1, 0, 2, 3];
    assert IsPermutation(s, 4) && IsPermutation(t, 4);
    assert RowsCost(2, 2, d, s, 2) == 0.1 && RowsCost(2, 2, d, t, 2) == 0.1;
    assert RowsCost(2, 2, d, s, 4) == 0.1 && RowsCost(2, 2, d, t, 4) == 0.1;
    forall u | IsPermutation(u, 4)
      ensures NoWorse(2, 2, d, s, u) && NoWorse(2, 2, d, t, u)
    {
      CostAtLeast(2, 2, d, u, 4);
    }
    ExactByMatching([1, -1], [1, -1], d, s);
    ExactByMatching([1, -1], [1, -1], d, t);
    assert Extract(2, 2, d, s) == [0, 1] && Extract(2, 2, d, t) == [1, 0];
  }

  /** One candidate at exactly the limit from its truth: a match costs as much as leaving both out. */
  lemma LimitVaries()
    ensures Varies([1], [1], Everywhere(0.1))
  {
    var d, s, t := Everywhere(0.1), [0, 1], [1, 0];
    assert RowsCost(1, 1, d, s, 1) == 0.1 && RowsCost(1, 1, d, t, 1) == 0.05;
    assert RowsCost(1, 1, d, s, 2) == 0.1 && RowsCost(1, 1, d, t, 2) == 0.1;
    forall u | IsPermutation(u, 2)
      ensures u == s || u == t
    {
    }
    ExactByMatching([1], [1], d, s);
    ExactByMatching([1], [1], d, t);
    assert Extract(1, 1, d, s) == [0] && Extract(1, 1, d, t) == [-1];
  }
}
