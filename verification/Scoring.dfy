/** Scoring a reconstruction: the padded assignment and the partial matching it computes. */
module Scoring {
  import opened Basics
  import opened Permutations
  import opened Complex
  import opened Winding
  import opened LoopReadout
  import opened SpatialFidelity

  /** Distance from resolved candidate i to truth j. */
  type Distances = (int, int) -> real

  const MATCH_LIMIT := 0.1
  const UNMATCHED := 0.05
  const FORBIDDEN := 1000000.0

  /** The padded square cost of an assignment between n candidates and m truths. */
  function PaddedCost(n: nat, m: nat, d: Distances, i: int, j: int): real {
    if i < n && j < m then (if d(i, j) <= MATCH_LIMIT then d(i, j) else FORBIDDEN)
    else if i < n || j < m then UNMATCHED
    else 0.0
  }

  /** Fill the square cost matrix block by block. */
  method FillCost(n: nat, m: nat, d: Distances) returns (cost: array2<real>)
    ensures cost.Length0 == n + m && cost.Length1 == n + m
    ensures forall i, j :: 0 <= i < n + m && 0 <= j < n + m ==> cost[i, j] == PaddedCost(n, m, d, i, j)
  {
    cost := new real[n + m, n + m]((_, _) => FORBIDDEN);
    forall i, j | 0 <= i < n && 0 <= j < m {
      cost[i, j] := if d(i, j) <= MATCH_LIMIT then d(i, j) else FORBIDDEN;
    }
    forall i, j | 0 <= i < n && m <= j < n + m {
      cost[i, j] := UNMATCHED;
    }
    forall i, j | n <= i < n + m && 0 <= j < m {
      cost[i, j] := UNMATCHED;
    }
    forall i, j | n <= i < n + m && m <= j < n + m {
      cost[i, j] := 0.0;
    }
  }

  /** Cost of the first k rows of an assignment. */
  function RowsCost(n: nat, m: nat, d: Distances, s: seq<int>, k: nat): real
    requires k <= |s|
  {
    if k == 0 then 0.0 else RowsCost(n, m, d, s, k - 1) + PaddedCost(n, m, d, k - 1, s[k - 1])
  }

  /** The contract of the library's assignment solver. */
  ghost predicate IsOptimal(n: nat, m: nat, d: Distances, s: seq<int>) {
    && IsPermutation(s, n + m)
    && (forall t :: IsPermutation(t, n + m) ==> NoWorse(n, m, d, s, t))
  }

  predicate NoWorse(n: nat, m: nat, d: Distances, s: seq<int>, t: seq<int>)
    requires |s| == |t|
  {
    RowsCost(n, m, d, s, |s|) <= RowsCost(n, m, d, t, |t|)
  }

  /** A partial injection from candidates to truths: entry -1 leaves a candidate unmatched. */
  ghost predicate IsMatching(p: seq<int>, n: nat, m: nat) {
    && |p| == n
    && (forall i :: 0 <= i < n ==> -1 <= p[i] < m)
    && (forall i, j :: 0 <= i < j < n && p[i] >= 0 ==> p[i] != p[j])
  }

  /** Number of matched candidates among the first k. */
  function Matched(p: seq<int>, k: nat): nat
    requires k <= |p|
  {
    if k == 0 then 0 else Matched(p, k - 1) + if p[k - 1] >= 0 then 1 else 0
  }

  /** Distances of matched candidates plus the charge for unmatched ones, over the first k candidates. */
  function CandidateValue(d: Distances, p: seq<int>, k: nat): real
    requires k <= |p|
  {
    if k == 0 then 0.0
    else CandidateValue(d, p, k - 1) + if p[k - 1] >= 0 then d(k - 1, p[k - 1]) else UNMATCHED
  }

  /** Total distance plus 0.05 per unmatched item on either side. */
  function MatchingValue(d: Distances, p: seq<int>, m: nat): real {
    CandidateValue(d, p, |p|) + UNMATCHED * ((m - Matched(p, |p|)) as real)
  }

  /** The matching read off an assignment. */
  function Extract(n: nat, m: nat, d: Distances, s: seq<int>): seq<int>
    requires n <= |s|
  {
    seq(n, i requires 0 <= i < n => if s[i] < m && d(i, s[i]) <= MATCH_LIMIT then s[i] else -1)
  }

  // ----- A minimum never uses a forbidden pair -----

  /** With a real pair in use there is a dummy row on a dummy column. */
  lemma SpareDummy(n: nat, m: nat, s: seq<int>, i: nat) returns (r: nat)
    requires IsPermutation(s, n + m) && i < n && s[i] < m
    ensures n <= r < n + m && s[r] >= m
  {
    if forall r :: n <= r < n + m ==> s[r] < m {
      var t := s[n..] + [s[i]];
      Pigeonhole(t, m);
    }
    r :| n <= r < n + m && s[r] >= m;
  }

  lemma {:induction false} SameRows(n: nat, m: nat, d: Distances, s: seq<int>, t: seq<int>, k: nat)
    requires k <= |s| && k <= |t| && (forall i :: 0 <= i < k ==> s[i] == t[i])
    ensures RowsCost(n, m, d, s, k) == RowsCost(n, m, d, t, k)
  {
    if k == 0 {
    } else {
      SameRows(n, m, d, s, t, k - 1);
    }
  }

  lemma {:induction false} RowsCostUpdate(n: nat, m: nat, d: Distances, s: seq<int>, i: nat, v: int, k: nat)
    requires i < k <= |s|
    ensures RowsCost(n, m, d, s[i := v], k)
         == RowsCost(n, m, d, s, k) - PaddedCost(n, m, d, i, s[i]) + PaddedCost(n, m, d, i, v)
  {
    if i == k - 1 {
      SameRows(n, m, d, s[i := v], s, k - 1);
    } else {
      RowsCostUpdate(n, m, d, s, i, v, k - 1);
    }
  }

  /** Sending a real pair to dummies instead; when the pair is long this makes the assignment cheaper. */
  lemma ReleasePair(n: nat, m: nat, d: Distances, s: seq<int>, i: nat) returns (t: seq<int>)
    requires IsPermutation(s, n + m) && i < n && s[i] < m
    ensures IsPermutation(t, n + m)
    ensures d(i, s[i]) > MATCH_LIMIT ==> RowsCost(n, m, d, t, n + m) < RowsCost(n, m, d, s, n + m)
  {
    var r := SpareDummy(n, m, s, i);
    var half := s[i := s[r]];
    t := half[r := s[i]];
    RowsCostUpdate(n, m, d, s, i, s[r], n + m);
    RowsCostUpdate(n, m, d, half, r, s[i], n + m);
  }

  lemma OptimalAvoidsForbidden(n: nat, m: nat, d: Distances, s: seq<int>, i: nat)
    requires IsOptimal(n, m, d, s) && i < n && s[i] < m
    ensures d(i, s[i]) <= MATCH_LIMIT
  {
    var t := ReleasePair(n, m, d, s, i);
    assert NoWorse(n, m, d, s, t);
  }

  // ----- The cost of an admissible assignment is the value of its matching -----

  /** No real pair of s is longer than the limit. */
  ghost predicate Admissible(n: nat, m: nat, d: Distances, s: seq<int>) {
    n <= |s| && forall i :: 0 <= i < n && s[i] < m ==> d(i, s[i]) <= MATCH_LIMIT
  }

  lemma {:induction false} CandidateRows(n: nat, m: nat, d: Distances, s: seq<int>, k: nat)
    requires Admissible(n, m, d, s) && k <= n && IsPermutation(s, n + m)
    ensures RowsCost(n, m, d, s, k) == CandidateValue(d, Extract(n, m, d, s), k)
    ensures CountBelow(s, m, k) == Matched(Extract(n, m, d, s), k)
  {
    if k == 0 {
    } else {
      CandidateRows(n, m, d, s, k - 1);
    }
  }

  lemma {:induction false} DummyRows(n: nat, m: nat, d: Distances, s: seq<int>, k: nat)
    requires n <= k <= |s|
    ensures CountBelow(s, m, k) >= CountBelow(s, m, n)
    ensures RowsCost(n, m, d, s, k)
         == RowsCost(n, m, d, s, n) + UNMATCHED * ((CountBelow(s, m, k) - CountBelow(s, m, n)) as real)
    decreases k
  {
    if k <= n {
    } else {
      DummyRows(n, m, d, s, k - 1);
    }
  }

  lemma CostIsValue(n: nat, m: nat, d: Distances, s: seq<int>)
    requires IsPermutation(s, n + m) && Admissible(n, m, d, s)
    ensures RowsCost(n, m, d, s, n + m) == MatchingValue(d, Extract(n, m, d, s), m)
  {
    CandidateRows(n, m, d, s, n);
    DummyRows(n, m, d, s, n + m);
    PermutationCounts(s, n + m, m);
  }

  // ----- Every matching is the matching of some assignment -----

  /** Row of dummy n + j: its own truth j when unmatched, else the dummy column of the matched candidate. */
  ghost function DummyColumn(p: seq<int>, m: nat, j: int): int {
    if exists i :: 0 <= i < |p| && p[i] == j then
      var i :| 0 <= i < |p| && p[i] == j;
      m + i
    else j
  }

  ghost function Complete(p: seq<int>, m: nat): seq<int> {
    seq(|p|, i requires 0 <= i < |p| => if p[i] >= 0 then p[i] else m + i)
    + seq(m, j => DummyColumn(p, m, j))
  }

  lemma CompleteIsPermutation(p: seq<int>, n: nat, m: nat)
    requires IsMatching(p, n, m)
    ensures IsPermutation(Complete(p, m), n + m)
  {
    var s := Complete(p, m);
    forall a, b | 0 <= a < b < n + m
      ensures s[a] != s[b]
    {
      if b < n {
      } else if a < n {
        assert s[b] == DummyColumn(p, m, b - n);
      } else {
        assert s[a] == DummyColumn(p, m, a - n) && s[b] == DummyColumn(p, m, b - n);
      }
    }
  }

  lemma CompleteExtracts(p: seq<int>, n: nat, m: nat, d: Distances)
    requires IsMatching(p, n, m) && (forall i :: 0 <= i < n && p[i] >= 0 ==> d(i, p[i]) <= MATCH_LIMIT)
    ensures Admissible(n, m, d, Complete(p, m)) && Extract(n, m, d, Complete(p, m)) == p
  {
  }

  // ----- Dropping long pairs never costs -----

  ghost function Near(p: seq<int>, d: Distances): seq<int> {
    seq(|p|, i requires 0 <= i < |p| => if p[i] >= 0 && d(i, p[i]) <= MATCH_LIMIT then p[i] else -1)
  }

  lemma {:induction false} NearIsCheaper(p: seq<int>, d: Distances, k: nat)
    requires k <= |p|
    ensures Matched(Near(p, d), k) <= Matched(p, k)
    ensures CandidateValue(d, Near(p, d), k) + UNMATCHED * ((Matched(p, k) - Matched(Near(p, d), k)) as real)
         <= CandidateValue(d, p, k)
  {
    if k == 0 {
    } else {
      NearIsCheaper(p, d, k - 1);
    }
  }

  /**
   The padded assignment is a faithful reduction: the matching read off any minimum-cost permutation
   is a partial injection without long pairs, and no partial injection at all has a smaller value.
   */
  lemma ExtractedMatchingOptimal(n: nat, m: nat, d: Distances, s: seq<int>, p: seq<int>)
    requires IsOptimal(n, m, d, s) && IsMatching(p, n, m)
    ensures var q := Extract(n, m, d, s);
      && IsMatching(q, n, m)
      && (forall i :: 0 <= i < n && q[i] >= 0 ==> d(i, q[i]) <= MATCH_LIMIT)
      && MatchingValue(d, q, m) <= MatchingValue(d, p, m)
  {
    ExtractIsMatching(n, m, d, s);
    CostIsValue(n, m, d, s);
    var near := Near(p, d);
    NearIsMatching(p, n, m, d);
    CompleteIsPermutation(near, n, m);
    CompleteExtracts(near, n, m, d);
    CostIsValue(n, m, d, Complete(near, m));
    assert NoWorse(n, m, d, s, Complete(near, m));
    NearIsCheaper(p, d, n);
  }

  lemma ExtractIsMatching(n: nat, m: nat, d: Distances, s: seq<int>)
    requires IsOptimal(n, m, d, s)
    ensures Admissible(n, m, d, s) && IsMatching(Extract(n, m, d, s), n, m)
    ensures forall i :: 0 <= i < n && Extract(n, m, d, s)[i] >= 0 ==> d(i, Extract(n, m, d, s)[i]) <= MATCH_LIMIT
  {
    forall i | 0 <= i < n && s[i] < m
      ensures d(i, s[i]) <= MATCH_LIMIT
    {
      OptimalAvoidsForbidden(n, m, d, s, i);
    }
  }

  lemma NearIsMatching(p: seq<int>, n: nat, m: nat, d: Distances)
    requires IsMatching(p, n, m)
    ensures IsMatching(Near(p, d), n, m)
    ensures forall i :: 0 <= i < n && Near(p, d)[i] >= 0 ==> d(i, Near(p, d)[i]) <= MATCH_LIMIT
  {
  }

  // ----- The score record -----

  datatype Match = Match(candidate: int, truth: int, distance: real, chargeCorrect: bool)

  datatype Score = Score(matches: seq<Match>, missed: int, falsePositives: int, exact: bool)

  /** The records of the matched pairs among the first k candidates, in candidate order. */
  function MatchList(measured: seq<int>, expected: seq<int>, d: Distances, q: seq<int>, k: nat): seq<Match>
    requires k <= |q| == |measured| && (forall i :: 0 <= i < |q| ==> q[i] < |expected|)
  {
    if k == 0 then []
    else
      var i := k - 1;
      var last := if q[i] >= 0 then [Match(i, q[i], d(i, q[i]), measured[i] == expected[q[i]])] else [];
      MatchList(measured, expected, d, q, i) + last
  }

  lemma {:induction false} MatchListSize(measured: seq<int>, expected: seq<int>, d: Distances, q: seq<int>, k: nat)
    requires k <= |q| == |measured| && (forall i :: 0 <= i < |q| ==> q[i] < |expected|)
    ensures |MatchList(measured, expected, d, q, k)| == Matched(q, k)
  {
    if k == 0 {
    } else {
      MatchListSize(measured, expected, d, q, k - 1);
    }
  }

  predicate AllCorrect(matches: seq<Match>) { forall i :: 0 <= i < |matches| ==> matches[i].chargeCorrect }

  /** Truths hit by the first k candidates of a matching. */
  ghost function Hit(q: seq<int>, k: nat): set<int>
    requires k <= |q|
  {
    if k == 0 then {} else Hit(q, k - 1) + if q[k - 1] >= 0 then {q[k - 1]} else {}
  }

  lemma {:induction false} FreshHit(q: seq<int>, k: nat, j: int)
    requires k <= |q| && (forall i :: 0 <= i < k ==> q[i] != j)
    ensures j !in Hit(q, k)
  {
    if k == 0 {
    } else {
      FreshHit(q, k - 1, j);
    }
  }

  lemma {:induction false} HitInRange(q: seq<int>, k: nat, m: nat)
    requires k <= |q| && (forall i :: 0 <= i < k ==> q[i] < m)
    ensures Hit(q, k) <= Range(m)
  {
    if k == 0 {
    } else {
      HitInRange(q, k - 1, m);
    }
  }

  lemma {:induction false} MatchedIsHit(q: seq<int>, k: nat)
    requires k <= |q| && (forall i, j :: 0 <= i < j < |q| && q[j] >= 0 ==> q[i] != q[j])
    ensures Matched(q, k) == |Hit(q, k)|
  {
    if k == 0 {
    } else {
      MatchedIsHit(q, k - 1);
      if q[k - 1] >= 0 {
        FreshHit(q, k - 1, q[k - 1]);
      }
    }
  }

  /** What a match record says: a candidate, the truth the solver gave it, their distance, and whether charges agree. */
  predicate Recorded(measured: seq<int>, expected: seq<int>, d: Distances, s: seq<int>, e: Match) {
    && 0 <= e.candidate < |measured| && e.candidate < |s|
    && 0 <= e.truth < |expected| && s[e.candidate] == e.truth
    && e.distance == d(e.candidate, e.truth) <= MATCH_LIMIT
    && (e.chargeCorrect <==> measured[e.candidate] == expected[e.truth])
  }

  predicate Mentions(matches: seq<Match>, i: int) { exists a :: 0 <= a < |matches| && matches[a].candidate == i }

  /** The records of the first k candidates: in increasing order, each right, and one for every admitted pair. */
  ghost predicate RecordsOf(measured: seq<int>, expected: seq<int>, d: Distances, s: seq<int>, matches: seq<Match>,
                            k: nat)
    requires k <= |s|
  {
    && (forall a :: 0 <= a < |matches| ==>
          Recorded(measured, expected, d, s, matches[a]) && matches[a].candidate < k)
    && (forall a, b :: 0 <= a < b < |matches| ==> matches[a].candidate < matches[b].candidate)
    && (forall i :: 0 <= i < k && s[i] < |expected| && d(i, s[i]) <= MATCH_LIMIT ==> Mentions(matches, i))
  }

  /** A candidate with an admitted truth adds its record. */
  lemma RecordAdded(measured: seq<int>, expected: seq<int>, d: Distances, s: seq<int>, matches: seq<Match>, k: nat)
    requires k < |measured| && k < |s| && RecordsOf(measured, expected, d, s, matches, k)
    requires 0 <= s[k] < |expected| && d(k, s[k]) <= MATCH_LIMIT
    ensures RecordsOf(measured, expected, d, s,
                      matches + [Match(k, s[k], d(k, s[k]), measured[k] == expected[s[k]])], k + 1)
  {
    var e := Match(k, s[k], d(k, s[k]), measured[k] == expected[s[k]]);
    var more := matches + [e];
    assert more[|matches|] == e;
    forall i | 0 <= i <= k && s[i] < |expected| && d(i, s[i]) <= MATCH_LIMIT
      ensures Mentions(more, i)
    {
      if i < k {
        assert Mentions(matches, i);
        var a :| 0 <= a < |matches| && matches[a].candidate == i;
        assert more[a].candidate == i;
      }
    }
  }

  /** Another candidate adds none. */
  lemma RecordKept(measured: seq<int>, expected: seq<int>, d: Distances, s: seq<int>, matches: seq<Match>, k: nat)
    requires k < |measured| && k < |s| && RecordsOf(measured, expected, d, s, matches, k)
    requires !(s[k] < |expected| && d(k, s[k]) <= MATCH_LIMIT)
    ensures RecordsOf(measured, expected, d, s, matches, k + 1)
  {
  }

  /** The listed matches are those records. */
  lemma {:induction false} MatchListRecords(measured: seq<int>, expected: seq<int>, d: Distances, s: seq<int>,
                                            q: seq<int>, k: nat)
    requires k <= |measured| <= |s| && (forall i :: 0 <= i < |measured| ==> s[i] >= 0)
    requires q == Extract(|measured|, |expected|, d, s) && forall i :: 0 <= i < |q| ==> q[i] < |expected|
    ensures RecordsOf(measured, expected, d, s, MatchList(measured, expected, d, q, k), k)
  {
    if k == 0 {
    } else {
      MatchListRecords(measured, expected, d, s, q, k - 1);
      ListStep(measured, expected, d, s, q, k);
    }
  }

  lemma ListStep(measured: seq<int>, expected: seq<int>, d: Distances, s: seq<int>, q: seq<int>, k: nat)
    requires 0 < k <= |measured| <= |s| && s[k - 1] >= 0
    requires |q| == |measured| && forall i :: 0 <= i < |q| ==> q[i] < |expected|
    requires q[k - 1] == if s[k - 1] < |expected| && d(k - 1, s[k - 1]) <= MATCH_LIMIT then s[k - 1] else -1
    requires RecordsOf(measured, expected, d, s, MatchList(measured, expected, d, q, k - 1), k - 1)
    ensures RecordsOf(measured, expected, d, s, MatchList(measured, expected, d, q, k), k)
  {
    var matches := MatchList(measured, expected, d, q, k - 1);
    ListGrows(measured, expected, d, q, k);
    if q[k - 1] >= 0 {
      RecordAdded(measured, expected, d, s, matches, k - 1);
    } else {
      RecordKept(measured, expected, d, s, matches, k - 1);
    }
  }

  lemma ListGrows(measured: seq<int>, expected: seq<int>, d: Distances, q: seq<int>, k: nat)
    requires 0 < k <= |q| == |measured| && (forall i :: 0 <= i < |q| ==> q[i] < |expected|)
    ensures q[k - 1] >= 0 ==>
      MatchList(measured, expected, d, q, k) == MatchList(measured, expected, d, q, k - 1)
        + [Match(k - 1, q[k - 1], d(k - 1, q[k - 1]), measured[k - 1] == expected[q[k - 1]])]
    ensures q[k - 1] < 0 ==>
      MatchList(measured, expected, d, q, k) == MatchList(measured, expected, d, q, k - 1)
  {
  }

  /** Read the matches off the solver's assignment. */
  method ScoreMatches(measured: seq<int>, expected: seq<int>, d: Distances, s: seq<int>) returns (r: Score)
    requires IsOptimal(|measured|, |expected|, d, s)
    ensures var q := Extract(|measured|, |expected|, d, s);
      && (forall i :: 0 <= i < |q| ==> q[i] < |expected|)
      && r.matches == MatchList(measured, expected, d, q, |q|)
      && RecordsOf(measured, expected, d, s, r.matches, |measured|)
      && r.missed == |Range(|expected|) - Hit(q, |q|)|
      && r.falsePositives == |measured| - |Hit(q, |q|)|
      && |r.matches| + r.missed == |expected|
      && |r.matches| + r.falsePositives == |measured|
    ensures r.exact <==> IsExact(measured, expected, d, s)
  {
    var n, m := |measured|, |expected|;
    ghost var q := Extract(n, m, d, s);
    ghost var none := seq(n, _ => -1);
    ExtractedMatchingOptimal(n, m, d, s, none);
    var matches: seq<Match> := [];
    for i := 0 to n
      invariant matches == MatchList(measured, expected, d, q, i)
    {
      if s[i] < m && d(i, s[i]) <= MATCH_LIMIT {
        matches := matches + [Match(i, s[i], d(i, s[i]), measured[i] == expected[s[i]])];
      }
    }
    HitCounts(n, m, measured, expected, d, q);
    MatchListRecords(measured, expected, d, s, q, n);
    r := Score(matches, m - |matches|, n - |matches|, |matches| == n && n == m && AllCorrect(matches));
  }

  lemma HitCounts(n: nat, m: nat, measured: seq<int>, expected: seq<int>, d: Distances, q: seq<int>)
    requires IsMatching(q, n, m) && |measured| == n && |expected| == m
    ensures |MatchList(measured, expected, d, q, n)| == |Hit(q, n)|
    ensures |Range(m) - Hit(q, n)| == m - |Hit(q, n)|
  {
    MatchListSize(measured, expected, d, q, n);
    MatchedIsHit(q, n);
    RangeSize(m);
    HitInRange(q, n, m);
    assert Range(m) == Hit(q, n) + (Range(m) - Hit(q, n));
  }

  // ----- Exact local structure forces the outer charge -----

  lemma {:induction false} AllCorrectCharges(measured: seq<int>, expected: seq<int>, d: Distances, q: seq<int>, k: nat)
    requires k <= |q| == |measured| && (forall i :: 0 <= i < |q| ==> 0 <= q[i] < |expected|)
    requires AllCorrect(MatchList(measured, expected, d, q, k))
    ensures forall i :: 0 <= i < k ==> measured[i] == expected[q[i]]
  {
    if k == 0 {
    } else {
      var rest := MatchList(measured, expected, d, q, k - 1);
      var last := Match(k - 1, q[k - 1], d(k - 1, q[k - 1]), measured[k - 1] == expected[q[k - 1]]);
      assert MatchList(measured, expected, d, q, k) == rest + [last];
      assert (rest + [last])[|rest|] == last;
      forall i | 0 <= i < |rest|
        ensures rest[i].chargeCorrect
      {
        assert (rest + [last])[i] == rest[i];
      }
      AllCorrectCharges(measured, expected, d, q, k - 1);
    }
  }

  lemma {:induction false} FullMatching(q: seq<int>, k: nat)
    requires k <= |q| && Matched(q, k) == k
    ensures forall i :: 0 <= i < k ==> q[i] >= 0
  {
    if k == 0 {
    } else {
      MatchedAtMost(q, k - 1);
      FullMatching(q, k - 1);
    }
  }

  lemma {:induction false} MatchedAtMost(q: seq<int>, k: nat)
    requires k <= |q|
    ensures Matched(q, k) <= k
  {
    if k == 0 {
    } else {
      MatchedAtMost(q, k - 1);
    }
  }

  function Total(charges: seq<int>): int {
    if charges == [] then 0 else charges[0] + Total(charges[1..])
  }

  function ChargeAt(charges: seq<int>): int -> int {
    i => if 0 <= i < |charges| then charges[i] else 0
  }

  lemma {:induction false} TotalPrefix(charges: seq<int>, k: nat)
    requires k <= |charges|
    ensures Total(charges[..k]) == SumBelow(ChargeAt(charges), k)
  {
    if k == 0 {
    } else {
      TotalPrefix(charges, k - 1);
      assert charges[..k] == charges[..k - 1] + [charges[k - 1]];
      TotalAppend(charges[..k - 1], [charges[k - 1]]);
    }
  }

  lemma {:induction false} TotalAppend(a: seq<int>, b: seq<int>)
    ensures Total(a + b) == Total(a) + Total(b)
  {
    if a == [] {
      assert a + b == b;
    } else {
      assert (a + b)[1..] == a[1..] + b;
      TotalAppend(a[1..], b);
    }
  }

  /** Under an exact score the measured charges are a reordering of the true ones, so their totals agree. */
  lemma ExactChargesAgree(measured: seq<int>, expected: seq<int>, d: Distances, q: seq<int>)
    requires IsMatching(q, |measured|, |expected|) && |measured| == |expected|
    requires |MatchList(measured, expected, d, q, |q|)| == |measured|
      && AllCorrect(MatchList(measured, expected, d, q, |q|))
    ensures IsPermutation(q, |measured|) && (forall i :: 0 <= i < |q| ==> measured[i] == expected[q[i]])
    ensures Total(measured) == Total(expected)
  {
    var n := |measured|;
    MatchListSize(measured, expected, d, q, n);
    FullMatching(q, n);
    AllCorrectCharges(measured, expected, d, q, n);
    SumReordered(q, ChargeAt(expected), n);
    PulledBack(measured, expected, q, n);
    TotalPrefix(measured, n);
    TotalPrefix(expected, n);
    assert measured[..n] == measured && expected[..n] == expected;
  }

  lemma {:induction false} PulledBack(measured: seq<int>, expected: seq<int>, q: seq<int>, k: nat)
    requires k <= |q| == |measured|
    requires forall i :: 0 <= i < |q| ==> 0 <= q[i] < |expected| && measured[i] == expected[q[i]]
    ensures SumOver(q, ChargeAt(expected), k) == SumBelow(ChargeAt(measured), k)
  {
    if k == 0 {
    } else {
      PulledBack(measured, expected, q, k - 1);
    }
  }

  /** The charge a reading contributes to the scored candidates. */
  function ResolvedCharge(r: Reading): seq<int> {
    if r.resolvedCharged && r.diagnostic.winding.Some? then [r.diagnostic.winding.value] else []
  }

  /** The windings of the resolved charged components, in order. */
  function ResolvedCharges(readings: seq<Reading>): seq<int> {
    if readings == [] then [] else ResolvedCharge(readings[0]) + ResolvedCharges(readings[1..])
  }

  /** When nothing is unresolved, the resolved charges account for the whole local winding. */
  lemma {:induction false} ResolvedChargesTotal(readings: seq<Reading>)
    requires forall i :: 0 <= i < |readings| ==>
      && readings[i].diagnostic.winding.Some?
      && readings[i].resolvedCharged == (readings[i].diagnostic.winding != Some(0))
    ensures Total(ResolvedCharges(readings)) == TotalWinding(readings)
  {
    if readings == [] {
    } else {
      ResolvedChargesTotal(readings[1..]);
      TotalAppend(ResolvedCharge(readings[0]), ResolvedCharges(readings[1..]));
    }
  }

  /**
   Exact local structure forces the outer charge: when no component is unresolved, the outer loop is
   reliable and the score is exact, the outer winding is the total of the true charges.
   */
  lemma ExactScoreFixesOuterCharge(step: StepFn, limit: real, g: Field, cells: nat, labels: Labels, count: nat,
                                   components: seq<Component>, r: Reconstruction,
                                   expected: seq<int>, d: Distances, s: seq<int>)
    requires StepLaws(step) && cells > 0
    requires IsLabelling(g, cells, labels, count) && LocatorResult(components, labels, cells, count)
    requires IsReading(r, step, limit, g, cells, components)
    requires forall i :: 0 <= i < |r.components| ==> r.components[i].unresolved == {}
    requires r.outer.winding.Some?
    requires IsOptimal(|ResolvedCharges(r.components)|, |expected|, d, s)
    requires IsExact(ResolvedCharges(r.components), expected, d, s)
    ensures r.outer.winding.value == Total(expected)
  {
    var measured := ResolvedCharges(r.components);
    forall i | 0 <= i < count
      ensures r.components[i].diagnostic.winding.Some?
      ensures r.components[i].resolvedCharged == (r.components[i].diagnostic.winding != Some(0))
      ensures OverlappingLoops !in r.components[i].unresolved
    {
      ResolvedHasWinding(step, limit, components[i], LoopSamples(g, components[i].loopBox));
    }
    WindingConserved(step, limit, g, cells, labels, count, components, r);
    ResolvedChargesTotal(r.components);
    ExtractIsMatching(|measured|, |expected|, d, s);
    ExactChargesAgree(measured, expected, d, Extract(|measured|, |expected|, d, s));
  }

  ghost predicate IsExact(measured: seq<int>, expected: seq<int>, d: Distances, s: seq<int>)
    requires IsOptimal(|measured|, |expected|, d, s)
  {
    var q := Extract(|measured|, |expected|, d, s);
    && |measured| == |expected|
    && (forall i :: 0 <= i < |q| ==> q[i] < |expected|)
    && |MatchList(measured, expected, d, q, |q|)| == |measured|
    && AllCorrect(MatchList(measured, expected, d, q, |q|))
  }

  lemma ResolvedHasWinding(step: StepFn, limit: real, c: Component, samples: seq<C>)
    requires |samples| >= 3 && ReadComponent(step, limit, c, samples).unresolved == {}
    ensures var reading := ReadComponent(step, limit, c, samples);
      reading.diagnostic.winding.Some? && reading.resolvedCharged == (reading.diagnostic.winding != Some(0))
  {
    ReasonsAreUnresolved(step, limit, c, samples);
  }

  lemma ReasonsAreUnresolved(step: StepFn, limit: real, c: Component, samples: seq<C>)
    requires |samples| >= 3
    ensures var reasons := Diagnostic(step, limit, samples).reasons;
      reasons != [] ==> reasons[0] in ReadComponent(step, limit, c, samples).unresolved
  {
  }
}
