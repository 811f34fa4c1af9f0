/** Which parameters, laws and cases the selection accepts, told from their values. */
module LawChecks {
  import opened Basics
  import opened Rationals
  import opened LawSelection

  // ----- Lowest terms -----

  predicate CommonDivisor(k: int, a: int, b: int)
    requires k > 0
  {
    a % k == 0 && b % k == 0
  }

  lemma DividesSum(k: int, a: int, b: int, x: int, y: int)
    requires k > 0 && CommonDivisor(k, a, b)
    ensures (x * a + y * b) % k == 0
  {
    var p, q := a / k, b / k;
    assert a == p * k && b == q * k;
    assert x * (p * k) + y * (q * k) == (x * p + y * q) * k;
    MultipleModulo(x * p + y * q, k);
  }

  lemma MultipleModulo(m: int, k: int)
    requires k > 0
    ensures (m * k) % k == 0
  {
    var q, r := (m * k) / k, (m * k) % k;
    assert (m - q) * k == r;
    assert m - q >= 1 ==> (m - q) * k >= k;
    assert m - q <= -1 ==> (m - q) * k <= -k;
  }

  lemma {:induction false} GcdDivides(a: nat, b: nat)
    requires a > 0 || b > 0
    ensures Gcd(a, b) > 0 && CommonDivisor(Gcd(a, b), a, b)
    decreases b
  {
    if b == 0 {
      MultipleModulo(1, a);
    } else {
      GcdDivides(b, a % b);
      var g := Gcd(a, b);
      DividesSum(g, b, a % b, a / b, 1);
      assert (a / b) * b + 1 * (a % b) == a;
    }
  }

  predicate InRange(n: int) { 1 <= n <= MAX_RATIONAL_COMPONENT }

  /** A parameter is canonical exactly when its bounded positive components have no common divisor but one. */
  lemma CanonicalExact(q: Rational)
    ensures Canonical(q) <==>
      && InRange(q.numerator) && InRange(q.denominator)
      && forall k :: k >= 2 ==> !CommonDivisor(k, q.numerator, q.denominator)
  {
    if InRange(q.numerator) && InRange(q.denominator) {
      var g := Gcd(q.numerator, q.denominator);
      GcdDivides(q.numerator, q.denominator);
      var x, y := Bezout(q.numerator, q.denominator);
      forall k | k >= 2 && CommonDivisor(k, q.numerator, q.denominator)
        ensures g != 1
      {
        DividesSum(k, q.numerator, q.denominator, x, y);
        assert 1 % k == 1;
      }
    }
  }

  // ----- Fractions -----

  /** A fraction of n rows is never more than n rows. */
  ghost predicate NeverMore(f: Rational)
    requires Canonical(f)
  {
    forall n: nat :: CeilTimes(f, n) <= n
  }

  lemma NeverMoreIffAtMostOne(f: Rational)
    requires Canonical(f)
    ensures NeverMore(f) <==> f.numerator <= f.denominator
  {
    if f.numerator <= f.denominator {
      forall n: nat
        ensures CeilTimes(f, n) <= n
      {
        CeilOfFraction(f, n);
      }
    } else {
      CeilIsLeast(f, f.denominator, f.denominator);
      ProductGrows(f.numerator, f.denominator);
    }
  }

  lemma ProductGrows(n: int, d: int)
    requires n > d > 0
    ensures n * d > d * d
  {
  }

  /** A law is accepted exactly when its parameters are canonical and no fraction asks for more than there is. */
  lemma ValidLawExact(law: Law)
    ensures ValidLaw(law) <==>
      && Canonical(law.neighbourFraction) && Canonical(law.scaleFraction)
      && Canonical(law.radiusMultiplier) && Canonical(law.sharedFraction)
      && NeverMore(law.neighbourFraction) && NeverMore(law.scaleFraction) && NeverMore(law.sharedFraction)
  {
    if Canonical(law.neighbourFraction) && Canonical(law.scaleFraction) && Canonical(law.sharedFraction) {
      NeverMoreIffAtMostOne(law.neighbourFraction);
      NeverMoreIffAtMostOne(law.scaleFraction);
      NeverMoreIffAtMostOne(law.sharedFraction);
    }
  }

  // ----- Validation -----

  ghost predicate SameIdTwice(laws: seq<Law>) { exists i, j :: 0 <= i < j < |laws| && laws[i].id == laws[j].id }

  /** Two laws whose four parameters agree. */
  predicate SameParameters(a: Law, b: Law) {
    && a.neighbourFraction == b.neighbourFraction && a.scaleFraction == b.scaleFraction
    && a.radiusMultiplier == b.radiusMultiplier && a.sharedFraction == b.sharedFraction
  }

  ghost predicate SameParametersTwice(laws: seq<Law>) {
    exists i, j :: 0 <= i < j < |laws| && SameParameters(laws[i], laws[j])
  }

  ghost predicate SameCaseTwice(cases: seq<Case>) { exists i, j :: 0 <= i < j < |cases| && cases[i].id == cases[j].id }

  ghost predicate OtherRole(cases: seq<Case>) { exists i :: 0 <= i < |cases| && cases[i].role != Calibration }

  lemma DuplicatesByValue(laws: seq<Law>, cases: seq<Case>)
    ensures Different(LawIds(laws)) <==> !SameIdTwice(laws)
    ensures Different(LawKeys(laws)) <==> !SameParametersTwice(laws)
    ensures Different(CaseIds(cases)) <==> !SameCaseTwice(cases)
  {
    forall i, j | 0 <= i < j < |laws|
      ensures LawIds(laws)[i] == LawIds(laws)[j] <==> laws[i].id == laws[j].id
      ensures LawKeys(laws)[i] == LawKeys(laws)[j] <==> SameParameters(laws[i], laws[j])
    {
      KeyTellsParameters(laws[i], laws[j]);
    }
    forall i, j | 0 <= i < j < |cases|
      ensures CaseIds(cases)[i] == CaseIds(cases)[j] <==> cases[i].id == cases[j].id
    {
    }
  }

  lemma KeyTellsParameters(a: Law, b: Law)
    ensures ParameterKey(a) == ParameterKey(b) <==> SameParameters(a, b)
  {
    assert ParameterKey(a) == ParameterKey(b) ==> forall i :: 0 <= i < 8 ==> ParameterKey(a)[i] == ParameterKey(b)[i];
  }

  /** The selection starts exactly on different laws and different calibration cases, and names the first fault. */
  lemma ValidationExact(laws: seq<Law>, cases: seq<Case>)
    ensures Validation(laws, cases).None? <==>
      && laws != [] && !SameIdTwice(laws) && !SameParametersTwice(laws)
      && cases != [] && !OtherRole(cases) && !SameCaseTwice(cases)
    ensures Validation(laws, cases) == Some(NoLaws) <==> laws == []
    ensures Validation(laws, cases) == Some(DuplicateLawIds) <==> SameIdTwice(laws)
    ensures Validation(laws, cases) == Some(DuplicateParameters) <==> !SameIdTwice(laws) && SameParametersTwice(laws)
    ensures Validation(laws, cases) == Some(NoCases) <==>
      laws != [] && !SameIdTwice(laws) && !SameParametersTwice(laws) && cases == []
    ensures Validation(laws, cases) == Some(NotCalibration) <==>
      laws != [] && !SameIdTwice(laws) && !SameParametersTwice(laws) && OtherRole(cases)
  {
    FullIffDifferent(LawIds(laws));
    FullIffDifferent(LawKeys(laws));
    FullIffDifferent(CaseIds(cases));
    DuplicatesByValue(laws, cases);
  }
}
