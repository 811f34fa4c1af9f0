/** Selection of one transport law by its coordinatewise worst objective over the calibration cases. */
module LawSelection {
  import opened Basics
  import opened Rationals
  import opened Sorting

  datatype Law = Law(id: string, neighbourFraction: Rational, scaleFraction: Rational, radiusMultiplier: Rational,
                     sharedFraction: Rational)

  predicate ValidLaw(law: Law) {
    && Canonical(law.neighbourFraction) && Canonical(law.scaleFraction)
    && Canonical(law.radiusMultiplier) && Canonical(law.sharedFraction)
    && law.neighbourFraction.numerator <= law.neighbourFraction.denominator
    && law.scaleFraction.numerator <= law.scaleFraction.denominator
    && law.sharedFraction.numerator <= law.sharedFraction.denominator
  }

  function ParameterKey(law: Law): seq<int> {
    [law.neighbourFraction.numerator, law.neighbourFraction.denominator,
     law.scaleFraction.numerator, law.scaleFraction.denominator,
     law.radiusMultiplier.numerator, law.radiusMultiplier.denominator,
     law.sharedFraction.numerator, law.sharedFraction.denominator]
  }

  /** Two laws have the same key exactly when their four parameters have the same values. */
  lemma KeysTellValues(a: Law, b: Law)
    requires ValidLaw(a) && ValidLaw(b)
    ensures ParameterKey(a) == ParameterKey(b) <==>
      && SameValue(a.neighbourFraction, b.neighbourFraction) && SameValue(a.scaleFraction, b.scaleFraction)
      && SameValue(a.radiusMultiplier, b.radiusMultiplier) && SameValue(a.sharedFraction, b.sharedFraction)
  {
    SameComponents(a.neighbourFraction, b.neighbourFraction);
    SameComponents(a.scaleFraction, b.scaleFraction);
    SameComponents(a.radiusMultiplier, b.radiusMultiplier);
    SameComponents(a.sharedFraction, b.sharedFraction);
    assert ParameterKey(a) == ParameterKey(b) ==> forall i :: 0 <= i < 8 ==> ParameterKey(a)[i] == ParameterKey(b)[i];
  }

  lemma SameComponents(p: Rational, q: Rational)
    requires Canonical(p) && Canonical(q)
    ensures SameValue(p, q) <==> p.numerator == q.numerator && p.denominator == q.denominator
  {
    if SameValue(p, q) {
      CanonicalUnique(p, q);
    }
  }

  // ----- Transported counts -----

  datatype Counts = Counts(neighbours: int, scaleNeighbours: int, shared: int)

  /** The counts derived for a number of rows; fewer than three rows are insufficient. */
  function TransportedCounts(law: Law, rowCount: nat): Option<Counts>
    requires ValidLaw(law)
  {
    if rowCount < 3 then None
    else
      var available := rowCount - 1;
      var neighbours := Min(available, Max(2, CeilTimes(law.neighbourFraction, available)));
      var scaleNeighbours := Min(available, Max(1, CeilTimes(law.scaleFraction, available)));
      Some(Counts(neighbours, scaleNeighbours, Min(neighbours, Max(1, CeilTimes(law.sharedFraction, neighbours)))))
  }

  /** The derived counts always fit: every graph constructor's bound on the neighbour count is met. */
  lemma CountsFit(law: Law, rowCount: nat)
    requires ValidLaw(law) && rowCount >= 3
    ensures TransportedCounts(law, rowCount).Some?
    ensures var counts := TransportedCounts(law, rowCount).value;
      && 2 <= counts.neighbours < rowCount && 1 <= counts.scaleNeighbours < rowCount
      && 1 <= counts.shared <= counts.neighbours
      && counts.neighbours == Max(2, CeilTimes(law.neighbourFraction, rowCount - 1))
      && counts.scaleNeighbours == CeilTimes(law.scaleFraction, rowCount - 1)
      && counts.shared == CeilTimes(law.sharedFraction, counts.neighbours)
  {
    CeilOfFraction(law.neighbourFraction, rowCount - 1);
    CeilOfFraction(law.scaleFraction, rowCount - 1);
    var neighbours := Max(2, CeilTimes(law.neighbourFraction, rowCount - 1));
    CeilOfFraction(law.sharedFraction, neighbours);
  }

  // ----- Orders -----

  /** Lexicographic order of integer tuples. */
  predicate LexLess(a: seq<int>, b: seq<int>) {
    b != [] && (a == [] || a[0] < b[0] || (a[0] == b[0] && LexLess(a[1..], b[1..])))
  }

  lemma {:induction false} LexIrreflexive(a: seq<int>)
    ensures !LexLess(a, a)
  {
    if a == [] {
    } else {
      LexIrreflexive(a[1..]);
    }
  }

  lemma {:induction false} LexTransitive(a: seq<int>, b: seq<int>, c: seq<int>)
    requires LexLess(a, b) && LexLess(b, c)
    ensures LexLess(a, c)
  {
    if a == [] || a[0] != b[0] || b[0] != c[0] {
    } else {
      LexTransitive(a[1..], b[1..], c[1..]);
    }
  }

  lemma {:induction false} LexTotal(a: seq<int>, b: seq<int>)
    ensures a == b || LexLess(a, b) || LexLess(b, a)
  {
    if a == [] || b == [] || a[0] != b[0] {
    } else {
      LexTotal(a[1..], b[1..]);
      assert a == [a[0]] + a[1..] && b == [b[0]] + b[1..];
    }
  }

  function Codes(s: string): seq<int> { seq(|s|, i requires 0 <= i < |s| => s[i] as int) }

  lemma CodesInjective(s: string, t: string)
    requires Codes(s) == Codes(t)
    ensures s == t
  {
    assert |s| == |Codes(s)| == |Codes(t)| == |t|;
    forall i | 0 <= i < |s|
      ensures s[i] == t[i]
    {
      assert Codes(s)[i] == Codes(t)[i];
    }
  }

  datatype Objective = Objective(edgeRatio: real, degreeDeviation: real, coreDeficit: real, componentSum: real)

  predicate ObjectiveLess(a: Objective, b: Objective) {
    a.edgeRatio < b.edgeRatio
    || (a.edgeRatio == b.edgeRatio
        && (a.degreeDeviation < b.degreeDeviation
            || (a.degreeDeviation == b.degreeDeviation
                && (a.coreDeficit < b.coreDeficit
                    || (a.coreDeficit == b.coreDeficit && a.componentSum < b.componentSum)))))
  }

  /** At most in every coordinate. */
  predicate Dominated(a: Objective, b: Objective) {
    a.edgeRatio <= b.edgeRatio && a.degreeDeviation <= b.degreeDeviation && a.coreDeficit <= b.coreDeficit
      && a.componentSum <= b.componentSum
  }

  // ----- Evaluation -----

  datatype Role = Calibration | HeldOut

  datatype Case = Case(id: string, role: Role, input: nat)

  datatype Evaluation = Evaluation(passed: bool, objective: Objective)

  type Evaluator = (Law, Case) -> Evaluation

  function Evaluations(evaluate: Evaluator, law: Law, cases: seq<Case>): seq<Evaluation> {
    seq(|cases|, i requires 0 <= i < |cases| => evaluate(law, cases[i]))
  }

  predicate PassesAll(evaluate: Evaluator, law: Law, cases: seq<Case>) {
    forall i :: 0 <= i < |cases| ==> evaluate(law, cases[i]).passed
  }

  function Join(a: Objective, b: Objective): Objective {
    Objective(MaxReal(a.edgeRatio, b.edgeRatio), MaxReal(a.degreeDeviation, b.degreeDeviation),
              MaxReal(a.coreDeficit, b.coreDeficit), MaxReal(a.componentSum, b.componentSum))
  }

  /** The coordinatewise worst objective. */
  function Worst(evaluations: seq<Evaluation>): Objective
    requires evaluations != []
  {
    if |evaluations| == 1 then evaluations[0].objective
    else Join(Worst(evaluations[..|evaluations| - 1]), evaluations[|evaluations| - 1].objective)
  }

  /** The worst objective is the least one that dominates every case. */
  lemma {:induction false} WorstIsLeast(evaluations: seq<Evaluation>, bound: Objective)
    requires evaluations != []
    ensures Dominated(Worst(evaluations), bound) <==>
      forall i :: 0 <= i < |evaluations| ==> Dominated(evaluations[i].objective, bound)
  {
    if |evaluations| <= 1 {
    } else {
      var front := evaluations[..|evaluations| - 1];
      WorstIsLeast(front, bound);
      assert forall i :: 0 <= i < |front| ==> front[i] == evaluations[i];
      assert (forall i :: 0 <= i < |evaluations| ==> Dominated(evaluations[i].objective, bound)) ==>
        forall i :: 0 <= i < |front| ==> Dominated(front[i].objective, bound);
    }
  }

  function WorstOf(evaluate: Evaluator, law: Law, cases: seq<Case>): Objective
    requires cases != []
  {
    Worst(Evaluations(evaluate, law, cases))
  }

  /** More cases can only worsen the worst objective. */
  lemma MoreCasesDominate(evaluate: Evaluator, law: Law, cases: seq<Case>, more: seq<Case>)
    requires cases != [] && more != [] && forall c :: c in cases ==> c in more
    ensures Dominated(WorstOf(evaluate, law, cases), WorstOf(evaluate, law, more))
  {
    var few, many := Evaluations(evaluate, law, cases), Evaluations(evaluate, law, more);
    WorstIsLeast(many, Worst(many));
    forall i | 0 <= i < |few|
      ensures Dominated(few[i].objective, Worst(many))
    {
      assert cases[i] in more;
      var k :| 0 <= k < |more| && more[k] == cases[i];
      assert many[k] == few[i];
    }
    WorstIsLeast(few, Worst(many));
  }

  lemma WorstOrderFree(evaluate: Evaluator, law: Law, a: seq<Case>, b: seq<Case>)
    requires a != [] && b != [] && forall c :: c in a <==> c in b
    ensures WorstOf(evaluate, law, a) == WorstOf(evaluate, law, b)
  {
    MoreCasesDominate(evaluate, law, a, b);
    MoreCasesDominate(evaluate, law, b, a);
  }

  // ----- Ranking laws -----

  datatype Ranked = Ranked(worst: Objective, law: Law)

  /** The sort key of an eligible law: its worst objective, then its parameters. */
  predicate RankLess(a: Ranked, b: Ranked) {
    ObjectiveLess(a.worst, b.worst) || (a.worst == b.worst && LexLess(ParameterKey(a.law), ParameterKey(b.law)))
  }

  predicate LawLess(a: Law, b: Law) { LexLess(ParameterKey(a), ParameterKey(b)) }

  predicate CaseLess(a: Case, b: Case) { LexLess(Codes(a.id), Codes(b.id)) }

  lemma RankOrder()
    ensures StrictOrder(RankLess)
  {
    forall a: Ranked
      ensures !RankLess(a, a)
    {
      LexIrreflexive(ParameterKey(a.law));
    }
    forall a: Ranked, b: Ranked, c: Ranked | RankLess(a, b) && RankLess(b, c)
      ensures RankLess(a, c)
    {
      if a.worst == b.worst && b.worst == c.worst {
        LexTransitive(ParameterKey(a.law), ParameterKey(b.law), ParameterKey(c.law));
      }
    }
  }

  lemma LawOrder()
    ensures StrictOrder(LawLess)
  {
    forall a: Law
      ensures !LawLess(a, a)
    {
      LexIrreflexive(ParameterKey(a));
    }
    forall a: Law, b: Law, c: Law | LawLess(a, b) && LawLess(b, c)
      ensures LawLess(a, c)
    {
      LexTransitive(ParameterKey(a), ParameterKey(b), ParameterKey(c));
    }
  }

  lemma CaseOrder()
    ensures StrictOrder(CaseLess)
  {
    forall a: Case
      ensures !CaseLess(a, a)
    {
      LexIrreflexive(Codes(a.id));
    }
    forall a: Case, b: Case, c: Case | CaseLess(a, b) && CaseLess(b, c)
      ensures CaseLess(a, c)
    {
      LexTransitive(Codes(a.id), Codes(b.id), Codes(c.id));
    }
  }

  // ----- Validation -----

  datatype SelectionError = NoLaws | DuplicateLawIds | DuplicateParameters | NoCases | NotCalibration | DuplicateCaseIds

  function Elements<T>(s: seq<T>): set<T> { set x | x in s }

  function LawIds(laws: seq<Law>): seq<string> { seq(|laws|, i requires 0 <= i < |laws| => laws[i].id) }

  function LawKeys(laws: seq<Law>): seq<seq<int>> { seq(|laws|, i requires 0 <= i < |laws| => ParameterKey(laws[i])) }

  function CaseIds(cases: seq<Case>): seq<string> { seq(|cases|, i requires 0 <= i < |cases| => cases[i].id) }

  /** The checks in the order they are made. */
  function Validation(laws: seq<Law>, cases: seq<Case>): Option<SelectionError> {
    if laws == [] then Some(NoLaws)
    else if |Elements(LawIds(laws))| != |laws| then Some(DuplicateLawIds)
    else if |Elements(LawKeys(laws))| != |laws| then Some(DuplicateParameters)
    else if cases == [] then Some(NoCases)
    else if exists c :: c in cases && c.role != Calibration then Some(NotCalibration)
    else if |Elements(CaseIds(cases))| != |cases| then Some(DuplicateCaseIds)
    else None
  }

  ghost predicate Different<T>(s: seq<T>) { forall i, j :: 0 <= i < j < |s| ==> s[i] != s[j] }

  /** A sequence has as many different elements as positions exactly when no element repeats. */
  lemma {:induction false} FullIffDifferent<T>(s: seq<T>)
    ensures |Elements(s)| <= |s|
    ensures |Elements(s)| == |s| <==> Different(s)
  {
    if s != [] {
      var front, last := s[..|s| - 1], s[|s| - 1];
      FullIffDifferent(front);
      assert s == front + [last];
      assert Elements(s) == Elements(front) + {last};
      assert last in Elements(front) <==> last in front;
    } else {
      assert Elements(s) == {};
    }
  }

  lemma ValidLawsComparable(laws: seq<Law>)
    requires |Elements(LawKeys(laws))| == |laws|
    ensures Comparable(LawLess, laws)
  {
    var keys := LawKeys(laws);
    FullIffDifferent(keys);
    forall i, j | 0 <= i < j < |laws|
      ensures LawLess(laws[i], laws[j]) || LawLess(laws[j], laws[i])
    {
      assert keys[i] != keys[j];
      LexTotal(ParameterKey(laws[i]), ParameterKey(laws[j]));
    }
  }

  lemma ValidCasesComparable(cases: seq<Case>)
    requires |Elements(CaseIds(cases))| == |cases|
    ensures Comparable(CaseLess, cases)
  {
    var ids := CaseIds(cases);
    FullIffDifferent(ids);
    forall i, j | 0 <= i < j < |cases|
      ensures CaseLess(cases[i], cases[j]) || CaseLess(cases[j], cases[i])
    {
      assert ids[i] != ids[j];
      if Codes(cases[i].id) == Codes(cases[j].id) {
        CodesInjective(cases[i].id, cases[j].id);
      }
      LexTotal(Codes(cases[i].id), Codes(cases[j].id));
    }
  }

  // ----- The decision -----

  datatype Record = Record(law: Law, eligible: bool, worst: Objective, passed: seq<bool>)

  datatype Decision = Rejected(error: SelectionError) | Decided(selected: Option<Law>, records: seq<Record>)

  function RecordOf(evaluate: Evaluator, law: Law, cases: seq<Case>): Record
    requires cases != []
  {
    Record(law, PassesAll(evaluate, law, cases), WorstOf(evaluate, law, cases),
           seq(|cases|, i requires 0 <= i < |cases| => evaluate(law, cases[i]).passed))
  }

  function Records(evaluate: Evaluator, laws: seq<Law>, cases: seq<Case>): seq<Record>
    requires cases != []
  {
    seq(|laws|, i requires 0 <= i < |laws| => RecordOf(evaluate, laws[i], cases))
  }

  /** The eligible laws with their worst objectives, in the order of the laws. */
  function EligibleOf(evaluate: Evaluator, laws: seq<Law>, cases: seq<Case>): seq<Ranked>
    requires cases != []
  {
    if laws == [] then []
    else
      var law := laws[|laws| - 1];
      EligibleOf(evaluate, laws[..|laws| - 1], cases) +
      if PassesAll(evaluate, law, cases) then [Ranked(WorstOf(evaluate, law, cases), law)] else []
  }

  function FirstLaw(ranked: seq<Ranked>): Option<Law> { if ranked == [] then None else Some(ranked[0].law) }

  function Decide(evaluate: Evaluator, laws: seq<Law>, cases: seq<Case>): Decision {
    var error := Validation(laws, cases);
    if error.Some? then Rejected(error.value)
    else
      SortNonempty(CaseLess, cases);
      var orderedLaws, orderedCases := SortBy(LawLess, laws), SortBy(CaseLess, cases);
      Decided(FirstLaw(SortBy(RankLess, EligibleOf(evaluate, orderedLaws, orderedCases))),
              Records(evaluate, orderedLaws, orderedCases))
  }

  /** One law on every case. */
  method EvaluateLaw(evaluate: Evaluator, law: Law, cases: seq<Case>) returns (record: Record)
    requires cases != []
    ensures record == RecordOf(evaluate, law, cases)
  {
    var evaluations := Evaluations(evaluate, law, cases);
    var passed := forall k :: 0 <= k < |evaluations| ==> evaluations[k].passed;
    assert forall k :: 0 <= k < |cases| ==> evaluations[k] == evaluate(law, cases[k]);
    var states := seq(|cases|, k requires 0 <= k < |cases| => evaluate(law, cases[k]).passed);
    record := Record(law, passed, Worst(evaluations), states);
  }

  lemma NextLaw(evaluate: Evaluator, laws: seq<Law>, cases: seq<Case>, i: nat)
    requires cases != [] && i < |laws|
    ensures Records(evaluate, laws[..i + 1], cases) ==
      Records(evaluate, laws[..i], cases) + [RecordOf(evaluate, laws[i], cases)]
    ensures EligibleOf(evaluate, laws[..i + 1], cases) == EligibleOf(evaluate, laws[..i], cases) +
      if PassesAll(evaluate, laws[i], cases) then [Ranked(WorstOf(evaluate, laws[i], cases), laws[i])] else []
  {
    assert laws[..i + 1] == laws[..i] + [laws[i]];
  }

  /** The loop over the laws: one record each, and the eligible ones collected. */
  method EvaluateLaws(evaluate: Evaluator, laws: seq<Law>, cases: seq<Case>)
    returns (records: seq<Record>, eligible: seq<Ranked>)
    requires cases != []
    ensures records == Records(evaluate, laws, cases) && eligible == EligibleOf(evaluate, laws, cases)
  {
    records, eligible := [], [];
    var i := 0;
    while i < |laws|
      invariant i <= |laws|
      invariant records == Records(evaluate, laws[..i], cases)
      invariant eligible == EligibleOf(evaluate, laws[..i], cases)
    {
      NextLaw(evaluate, laws, cases, i);
      var record := EvaluateLaw(evaluate, laws[i], cases);
      records := records + [record];
      if record.eligible {
        eligible := eligible + [Ranked(record.worst, laws[i])];
      }
      i := i + 1;
    }
    assert laws[..|laws|] == laws;
  }

  /** The selector: laws and cases in canonical order, eligible laws collected and sorted, the first one chosen. */
  method SelectTransportLaw(laws: seq<Law>, cases: seq<Case>, evaluate: Evaluator) returns (decision: Decision)
    ensures decision == Decide(evaluate, laws, cases)
  {
    var error := Validation(laws, cases);
    if error.Some? {
      return Rejected(error.value);
    }
    var orderedLaws, orderedCases := SortBy(LawLess, laws), SortBy(CaseLess, cases);
    SortNonempty(CaseLess, cases);
    var records, eligible := EvaluateLaws(evaluate, orderedLaws, orderedCases);
    eligible := SortBy(RankLess, eligible);
    decision := Decided(FirstLaw(eligible), records);
  }

  lemma SortNonempty<T>(less: (T, T) -> bool, list: seq<T>)
    ensures SortBy(less, list) == [] <==> list == []
  {
    SortKeeps(less, list);
    SameMembers(SortBy(less, list), list);
  }

  // ----- Optimality -----

  /** The law passes every case, and every other passing law ranks after it. */
  ghost predicate BestLaw(evaluate: Evaluator, laws: seq<Law>, cases: seq<Case>, law: Law)
    requires cases != []
  {
    && law in laws && PassesAll(evaluate, law, cases)
    && forall other :: other in laws && PassesAll(evaluate, other, cases) && other != law ==>
      RankLess(Ranked(WorstOf(evaluate, law, cases), law), Ranked(WorstOf(evaluate, other, cases), other))
  }

  lemma {:induction false} EligibleMembers(evaluate: Evaluator, laws: seq<Law>, cases: seq<Case>, r: Ranked)
    requires cases != []
    ensures r in EligibleOf(evaluate, laws, cases) <==>
      r.law in laws && PassesAll(evaluate, r.law, cases) && r.worst == WorstOf(evaluate, r.law, cases)
  {
    if laws == [] {
    } else {
      var front, law := laws[..|laws| - 1], laws[|laws| - 1];
      EligibleMembers(evaluate, front, cases, r);
      assert laws == front + [law];
      assert EligibleOf(evaluate, laws, cases) == EligibleOf(evaluate, front, cases) +
        if PassesAll(evaluate, law, cases) then [Ranked(WorstOf(evaluate, law, cases), law)] else [];
    }
  }

  predicate LawBefore(a: Ranked, b: Ranked) { LawLess(a.law, b.law) }

  lemma {:induction false} EligibleIncreasing(evaluate: Evaluator, laws: seq<Law>, cases: seq<Case>)
    requires cases != [] && Increasing(LawLess, laws)
    ensures Increasing(LawBefore, EligibleOf(evaluate, laws, cases))
  {
    if laws == [] {
    } else {
      var front, law := laws[..|laws| - 1], laws[|laws| - 1];
      var before := EligibleOf(evaluate, front, cases);
      EligibleIncreasing(evaluate, front, cases);
      forall r | r in before
        ensures LawBefore(r, Ranked(WorstOf(evaluate, law, cases), law))
      {
        EligibleMembers(evaluate, front, cases, r);
        LaterLaw(laws, r.law);
      }
      assert forall i :: 0 <= i < |before| ==> before[i] in before;
    }
  }

  lemma LaterLaw(laws: seq<Law>, law: Law)
    requires laws != [] && Increasing(LawLess, laws) && law in laws[..|laws| - 1]
    ensures LawLess(law, laws[|laws| - 1])
  {
    var i :| 0 <= i < |laws| - 1 && laws[..|laws| - 1][i] == law;
    assert laws[i] == law;
  }

  lemma RankComparable(a: Ranked, b: Ranked)
    requires LawBefore(a, b)
    ensures RankLess(a, b) || RankLess(b, a)
  {
  }

  lemma EligibleComparable(evaluate: Evaluator, laws: seq<Law>, cases: seq<Case>)
    requires cases != [] && Increasing(LawLess, laws)
    ensures Comparable(RankLess, EligibleOf(evaluate, laws, cases))
  {
    EligibleIncreasing(evaluate, laws, cases);
    var eligible := EligibleOf(evaluate, laws, cases);
    forall i, j | 0 <= i < j < |eligible|
      ensures RankLess(eligible[i], eligible[j]) || RankLess(eligible[j], eligible[i])
    {
      RankComparable(eligible[i], eligible[j]);
    }
  }

  /** What the canonical order of a valid input is: increasing, with the same members. */
  lemma CanonicalOrder(laws: seq<Law>, cases: seq<Case>)
    requires Validation(laws, cases).None?
    ensures Increasing(LawLess, SortBy(LawLess, laws)) && (forall x :: x in SortBy(LawLess, laws) <==> x in laws)
    ensures SortBy(CaseLess, cases) != [] && (forall x :: x in SortBy(CaseLess, cases) <==> x in cases)
  {
    LawOrder();
    ValidLawsComparable(laws);
    SortIncreases(LawLess, laws);
    SortKeeps(LawLess, laws);
    SameMembers(SortBy(LawLess, laws), laws);
    SortNonempty(CaseLess, cases);
    SortKeeps(CaseLess, cases);
    SameMembers(SortBy(CaseLess, cases), cases);
  }

  /** The chosen law is the best one; none is chosen exactly when no law passes every case. */
  lemma SelectionBest(evaluate: Evaluator, laws: seq<Law>, cases: seq<Case>)
    requires Validation(laws, cases).None?
    ensures var decision := Decide(evaluate, laws, cases);
      && decision.Decided?
      && (decision.selected.Some? ==> BestLaw(evaluate, laws, cases, decision.selected.value))
      && (decision.selected.None? <==> forall law :: law in laws ==> !PassesAll(evaluate, law, cases))
  {
    CanonicalOrder(laws, cases);
    var ordered, orderedCases := SortBy(LawLess, laws), SortBy(CaseLess, cases);
    forall law | law in laws
      ensures WorstOf(evaluate, law, orderedCases) == WorstOf(evaluate, law, cases)
      ensures PassesAll(evaluate, law, orderedCases) <==> PassesAll(evaluate, law, cases)
    {
      WorstOrderFree(evaluate, law, orderedCases, cases);
      PassOrderFree(evaluate, law, orderedCases, cases);
      PassOrderFree(evaluate, law, cases, orderedCases);
    }
    FirstIsBest(evaluate, ordered, orderedCases);
  }

  lemma PassOrderFree(evaluate: Evaluator, law: Law, a: seq<Case>, b: seq<Case>)
    requires forall c :: c in a ==> c in b
    ensures PassesAll(evaluate, law, b) ==> PassesAll(evaluate, law, a)
  {
    if PassesAll(evaluate, law, b) {
      forall i | 0 <= i < |a|
        ensures evaluate(law, a[i]).passed
      {
        assert a[i] in b;
      }
    }
  }

  lemma FirstIsBest(evaluate: Evaluator, laws: seq<Law>, cases: seq<Case>)
    requires cases != [] && Increasing(LawLess, laws)
    ensures var first := FirstLaw(SortBy(RankLess, EligibleOf(evaluate, laws, cases)));
      && (first.Some? ==> BestLaw(evaluate, laws, cases, first.value))
      && (first.None? <==> forall law :: law in laws ==> !PassesAll(evaluate, law, cases))
  {
    var eligible := EligibleOf(evaluate, laws, cases);
    var sorted := SortBy(RankLess, eligible);
    RankOrder();
    EligibleComparable(evaluate, laws, cases);
    SortIncreases(RankLess, eligible);
    SortKeeps(RankLess, eligible);
    SameMembers(sorted, eligible);
    forall law | law in laws && PassesAll(evaluate, law, cases)
      ensures Ranked(WorstOf(evaluate, law, cases), law) in sorted
    {
      EligibleMembers(evaluate, laws, cases, Ranked(WorstOf(evaluate, law, cases), law));
    }
    if sorted != [] {
      assert sorted[0] in sorted;
      EligibleMembers(evaluate, laws, cases, sorted[0]);
      forall r | r in sorted && r != sorted[0]
        ensures RankLess(sorted[0], r)
      {
        var k :| 0 <= k < |sorted| && sorted[k] == r;
      }
    }
  }

  /** The four parameters in the order in which they decide a full tie. */
  function Parameters(law: Law): seq<Rational> {
    [law.neighbourFraction, law.scaleFraction, law.radiusMultiplier, law.sharedFraction]
  }

  /** At the first parameter in which they differ the numerator is smaller, or it is equal and the denominator is. */
  ghost predicate SmallerParameters(a: Law, b: Law) {
    exists i :: 0 <= i < 4 && Parameters(a)[..i] == Parameters(b)[..i]
      && (Parameters(a)[i].numerator < Parameters(b)[i].numerator
          || (Parameters(a)[i].numerator == Parameters(b)[i].numerator
              && Parameters(a)[i].denominator < Parameters(b)[i].denominator))
  }

  /** The first position in which two tuples of one length differ, with the smaller number on the left. */
  lemma {:induction false} FirstDifference(a: seq<int>, b: seq<int>) returns (k: nat)
    requires LexLess(a, b) && |a| == |b|
    ensures k < |a| && a[..k] == b[..k] && a[k] < b[k]
  {
    if a[0] < b[0] {
      k := 0;
    } else {
      var rest := FirstDifference(a[1..], b[1..]);
      k := rest + 1;
      assert a[..k] == [a[0]] + a[1..][..rest] && b[..k] == [b[0]] + b[1..][..rest];
    }
  }

  lemma KeyByParameters(a: Law, b: Law, k: nat)
    requires k < 8 && ParameterKey(a)[..k] == ParameterKey(b)[..k] && ParameterKey(a)[k] < ParameterKey(b)[k]
    ensures SmallerParameters(a, b)
  {
    var x, y, i := ParameterKey(a), ParameterKey(b), k / 2;
    forall j | 0 <= j < k
      ensures x[j] == y[j]
    {
      assert x[j] == x[..k][j] && y[j] == y[..k][j];
    }
    forall j | 0 <= j < i
      ensures Parameters(a)[j] == Parameters(b)[j]
    {
      KeyAt(a, j);
      KeyAt(b, j);
    }
    assert Parameters(a)[..i] == Parameters(b)[..i];
    KeyAt(a, i);
    KeyAt(b, i);
  }

  lemma KeyAt(law: Law, j: nat)
    requires j < 4
    ensures ParameterKey(law)[2 * j] == Parameters(law)[j].numerator
    ensures ParameterKey(law)[2 * j + 1] == Parameters(law)[j].denominator
  {
  }

  /** The chosen law's worst figures against another passing law's, in the order in which they count. */
  ghost predicate PreferredTo(a: Objective, b: Objective, tie: bool) {
    && a.edgeRatio <= b.edgeRatio
    && (a.edgeRatio == b.edgeRatio ==> a.degreeDeviation <= b.degreeDeviation)
    && (a.edgeRatio == b.edgeRatio && a.degreeDeviation == b.degreeDeviation ==> a.coreDeficit <= b.coreDeficit)
    && (a.edgeRatio == b.edgeRatio && a.degreeDeviation == b.degreeDeviation && a.coreDeficit == b.coreDeficit ==>
          a.componentSum <= b.componentSum)
    && (a == b ==> tie)
  }

  /**
   The chosen law has the least worst edge ratio of all passing laws; among equals the least degree deviation, then the
   least core deficit, then the least component sum; and on a full tie the smaller parameters.
   */
  lemma SelectionLeast(evaluate: Evaluator, laws: seq<Law>, cases: seq<Case>, other: Law)
    requires Validation(laws, cases).None? && other in laws && PassesAll(evaluate, other, cases)
    ensures var selected := Decide(evaluate, laws, cases).selected;
      && selected.Some? && selected.value in laws && PassesAll(evaluate, selected.value, cases)
      && (selected.value != other ==>
            PreferredTo(WorstOf(evaluate, selected.value, cases), WorstOf(evaluate, other, cases),
                        SmallerParameters(selected.value, other)))
  {
    SelectionBest(evaluate, laws, cases);
    var law := Decide(evaluate, laws, cases).selected.value;
    if law != other {
      if WorstOf(evaluate, law, cases) == WorstOf(evaluate, other, cases) {
        var k := FirstDifference(ParameterKey(law), ParameterKey(other));
        KeyByParameters(law, other, k);
      }
    }
  }

  ghost predicate AllDominated(evaluate: Evaluator, law: Law, cases: seq<Case>, bound: Objective) {
    forall c :: c in cases ==> Dominated(evaluate(law, c).objective, bound)
  }

  /** Eligible exactly when every case passes; the worst objective is the least bound of those of the cases. */
  ghost predicate RightRecord(evaluate: Evaluator, cases: seq<Case>, record: Record) {
    && (record.eligible <==> forall c :: c in cases ==> evaluate(record.law, c).passed)
    && forall bound :: Dominated(record.worst, bound) <==> AllDominated(evaluate, record.law, cases, bound)
  }

  ghost predicate HasRightRecord(evaluate: Evaluator, cases: seq<Case>, records: seq<Record>, law: Law) {
    exists i :: 0 <= i < |records| && records[i].law == law && RightRecord(evaluate, cases, records[i])
  }

  predicate RecordsAscend(records: seq<Record>) {
    forall i, j :: 0 <= i < j < |records| ==> LawLess(records[i].law, records[j].law)
  }

  /** The decision lists one record per law, in increasing order of the parameters, and each is right about its law. */
  lemma RecordsMeaning(evaluate: Evaluator, laws: seq<Law>, cases: seq<Case>, law: Law)
    requires Validation(laws, cases).None? && law in laws
    ensures var records := Decide(evaluate, laws, cases).records;
      |records| == |laws| && RecordsAscend(records) && HasRightRecord(evaluate, cases, records, law)
  {
    CanonicalOrder(laws, cases);
    SortedSize(laws);
    RecordsOfDecision(evaluate, laws, cases);
    RecordsIncrease(evaluate, SortBy(LawLess, laws), SortBy(CaseLess, cases));
    RecordOfLaw(evaluate, SortBy(LawLess, laws), SortBy(CaseLess, cases), cases, law);
  }

  lemma SortedSize(laws: seq<Law>)
    ensures |SortBy(LawLess, laws)| == |laws|
  {
    SortKeeps(LawLess, laws);
    assert |SortBy(LawLess, laws)| == |multiset(SortBy(LawLess, laws))| == |multiset(laws)| == |laws|;
  }

  lemma RecordOfLaw(evaluate: Evaluator, laws: seq<Law>, ordered: seq<Case>, cases: seq<Case>, law: Law)
    requires ordered != [] && law in laws && forall c :: c in ordered <==> c in cases
    ensures HasRightRecord(evaluate, cases, Records(evaluate, laws, ordered), law)
  {
    RecordOfIsRight(evaluate, law, ordered, cases);
    var i :| 0 <= i < |laws| && laws[i] == law;
    assert Records(evaluate, laws, ordered)[i] == RecordOf(evaluate, law, ordered);
  }

  lemma RecordsIncrease(evaluate: Evaluator, laws: seq<Law>, cases: seq<Case>)
    requires cases != [] && Increasing(LawLess, laws)
    ensures RecordsAscend(Records(evaluate, laws, cases))
  {
  }

  lemma RecordsOfDecision(evaluate: Evaluator, laws: seq<Law>, cases: seq<Case>)
    requires Validation(laws, cases).None?
    ensures SortBy(CaseLess, cases) != []
    ensures Decide(evaluate, laws, cases).Decided?
    ensures Decide(evaluate, laws, cases).records ==
      Records(evaluate, SortBy(LawLess, laws), SortBy(CaseLess, cases))
  {
    SortNonempty(CaseLess, cases);
  }

  lemma RecordOfIsRight(evaluate: Evaluator, law: Law, ordered: seq<Case>, cases: seq<Case>)
    requires ordered != [] && forall c :: c in ordered <==> c in cases
    ensures RightRecord(evaluate, cases, RecordOf(evaluate, law, ordered))
  {
    forall bound
      ensures Dominated(WorstOf(evaluate, law, ordered), bound) <==> AllDominated(evaluate, law, cases, bound)
    {
      WorstByCases(evaluate, law, ordered, bound);
    }
    PassesByCases(evaluate, law, ordered);
  }

  lemma PassesByCases(evaluate: Evaluator, law: Law, cases: seq<Case>)
    ensures PassesAll(evaluate, law, cases) <==> forall c :: c in cases ==> evaluate(law, c).passed
  {
    if forall c :: c in cases ==> evaluate(law, c).passed {
      assert forall i :: 0 <= i < |cases| ==> cases[i] in cases;
    }
  }

  lemma WorstByCases(evaluate: Evaluator, law: Law, cases: seq<Case>, bound: Objective)
    requires cases != []
    ensures Dominated(WorstOf(evaluate, law, cases), bound) <==>
      forall c :: c in cases ==> Dominated(evaluate(law, c).objective, bound)
  {
    var evaluations := Evaluations(evaluate, law, cases);
    WorstIsLeast(evaluations, bound);
    if forall i :: 0 <= i < |evaluations| ==> Dominated(evaluations[i].objective, bound) {
      forall c | c in cases
        ensures Dominated(evaluate(law, c).objective, bound)
      {
        var i :| 0 <= i < |cases| && cases[i] == c;
        assert evaluations[i] == evaluate(law, c);
      }
    } else {
      var i :| 0 <= i < |evaluations| && !Dominated(evaluations[i].objective, bound);
      assert cases[i] in cases;
    }
  }

  /** Only one law can be best. */
  lemma BestLawUnique(evaluate: Evaluator, laws: seq<Law>, cases: seq<Case>, a: Law, b: Law)
    requires cases != [] && BestLaw(evaluate, laws, cases, a) && BestLaw(evaluate, laws, cases, b)
    ensures a == b
  {
    RankOrder();
    var x, y := Ranked(WorstOf(evaluate, a, cases), a), Ranked(WorstOf(evaluate, b, cases), b);
    assert !(RankLess(x, y) && RankLess(y, x));
  }

  // ----- Independence of order -----

  lemma ValidationOrderFree(laws: seq<Law>, laws': seq<Law>, cases: seq<Case>, cases': seq<Case>)
    requires multiset(laws) == multiset(laws') && multiset(cases) == multiset(cases')
    ensures Validation(laws, cases) == Validation(laws', cases')
  {
    SameMembers(laws, laws');
    SameMembers(cases, cases');
    LawElements(laws, laws');
    LawElements(laws', laws);
    CaseElements(cases, cases');
    CaseElements(cases', cases);
    assert Elements(LawIds(laws)) == Elements(LawIds(laws'));
    assert Elements(LawKeys(laws)) == Elements(LawKeys(laws'));
    assert Elements(CaseIds(cases)) == Elements(CaseIds(cases'));
  }

  lemma LawElements(laws: seq<Law>, more: seq<Law>)
    requires forall law :: law in laws ==> law in more
    ensures Elements(LawIds(laws)) <= Elements(LawIds(more)) && Elements(LawKeys(laws)) <= Elements(LawKeys(more))
  {
    forall i | 0 <= i < |laws|
      ensures LawIds(laws)[i] in LawIds(more) && LawKeys(laws)[i] in LawKeys(more)
    {
      assert laws[i] in more;
      var k :| 0 <= k < |more| && more[k] == laws[i];
      assert LawIds(more)[k] == LawIds(laws)[i] && LawKeys(more)[k] == LawKeys(laws)[i];
    }
  }

  lemma CaseElements(cases: seq<Case>, more: seq<Case>)
    requires forall c :: c in cases ==> c in more
    ensures Elements(CaseIds(cases)) <= Elements(CaseIds(more))
  {
    forall i | 0 <= i < |cases|
      ensures CaseIds(cases)[i] in CaseIds(more)
    {
      assert cases[i] in more;
      var k :| 0 <= k < |more| && more[k] == cases[i];
      assert CaseIds(more)[k] == CaseIds(cases)[i];
    }
  }

  /** Permuting laws and cases changes nothing in the whole decision: neither error, nor choice, nor records. */
  lemma DecisionOrderFree(evaluate: Evaluator, laws: seq<Law>, laws': seq<Law>, cases: seq<Case>, cases': seq<Case>)
    requires multiset(laws) == multiset(laws') && multiset(cases) == multiset(cases')
    ensures Decide(evaluate, laws, cases) == Decide(evaluate, laws', cases')
  {
    ValidationOrderFree(laws, laws', cases, cases');
    if Validation(laws, cases).None? {
      LawOrder();
      CaseOrder();
      ValidLawsComparable(laws);
      ValidLawsComparable(laws');
      ValidCasesComparable(cases);
      ValidCasesComparable(cases');
      SortOrderFree(LawLess, laws, laws');
      SortOrderFree(CaseLess, cases, cases');
    }
  }

  /** A further calibration case can only shrink the eligible set, and the best law's rank cannot improve. */
  lemma MoreCasesShrink(evaluate: Evaluator, laws: seq<Law>, cases: seq<Case>, extra: Case, law: Law)
    requires cases != []
    ensures PassesAll(evaluate, law, cases + [extra]) ==> PassesAll(evaluate, law, cases)
    ensures !ObjectiveLess(WorstOf(evaluate, law, cases + [extra]), WorstOf(evaluate, law, cases))
    ensures forall best, best' ::
      BestLaw(evaluate, laws, cases, best) && BestLaw(evaluate, laws, cases + [extra], best') ==>
        !ObjectiveLess(WorstOf(evaluate, best', cases + [extra]), WorstOf(evaluate, best, cases))
  {
    var more := cases + [extra];
    PassOrderFree(evaluate, law, cases, more);
    MoreCasesDominate(evaluate, law, cases, more);
    forall best, best' | BestLaw(evaluate, laws, cases, best) && BestLaw(evaluate, laws, more, best')
      ensures !ObjectiveLess(WorstOf(evaluate, best', more), WorstOf(evaluate, best, cases))
    {
      PassOrderFree(evaluate, best', cases, more);
      MoreCasesDominate(evaluate, best', cases, more);
    }
  }
}
