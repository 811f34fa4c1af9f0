/** Canonical positive rationals and the parameter counts derived from them. */
module Rationals {

  const MAX_RATIONAL_COMPONENT := 1_000_000

  datatype Rational = Rational(numerator: int, denominator: int)

  function Gcd(a: nat, b: nat): nat
    decreases b
  {
    if b == 0 then a else Gcd(b, a % b)
  }

  /** The constructor's conditions: positive bounded components in lowest terms. */
  predicate Canonical(q: Rational) {
    && 1 <= q.numerator <= MAX_RATIONAL_COMPONENT
    && 1 <= q.denominator <= MAX_RATIONAL_COMPONENT
    && Gcd(q.numerator, q.denominator) == 1
  }

  /** Numerical comparison without division. */
  predicate AtMost(p: Rational, q: Rational) { p.numerator * q.denominator <= q.numerator * p.denominator }

  predicate SameValue(p: Rational, q: Rational) { p.numerator * q.denominator == q.numerator * p.denominator }

  lemma BezoutStep(a: nat, b: nat, x: int, y: int, g: int)
    requires b > 0 && x * b + y * (a % b) == g
    ensures y * a + (x - y * (a / b)) * b == g
  {
    assert a == (a / b) * b + a % b;
    assert y * a == y * ((a / b) * b) + y * (a % b);
  }

  lemma {:induction false} Bezout(a: nat, b: nat) returns (x: int, y: int)
    ensures x * a + y * b == Gcd(a, b)
    decreases b
  {
    if b == 0 {
      x, y := 1, 0;
    } else {
      var u, v := Bezout(b, a % b);
      BezoutStep(a, b, u, v, Gcd(a, b));
      x, y := v, u - v * (a / b);
    }
  }

  /** Cross multiplication: a reduced denominator divides any denominator of the same value. */
  lemma DenominatorDivides(n: int, d: int, m: int, e: int, x: int, y: int)
    requires x * n + y * d == 1 && n * e == m * d
    ensures e == d * (x * m + y * e)
  {
    calc {
      e;
      (x * n + y * d) * e;
      x * (n * e) + y * d * e;
      x * (m * d) + y * d * e;
      d * (x * m + y * e);
    }
  }

  lemma PositiveMultiple(d: int, s: int)
    requires d > 0 && d * s > 0
    ensures d * s >= d
  {
    assert s <= 0 ==> d * s <= 0;
  }

  lemma MultipleOfEachOther(d: int, e: int, s: int, t: int)
    requires d > 0 && e > 0 && e == d * s && d == e * t
    ensures d == e
  {
    PositiveMultiple(d, s);
    PositiveMultiple(e, t);
  }

  /**
   Canonical rationals of equal value are equal component by component, so parameter keys tell laws apart by value.
   */
  lemma CanonicalUnique(p: Rational, q: Rational)
    requires Canonical(p) && Canonical(q) && SameValue(p, q)
    ensures p == q
  {
    var x, y := Bezout(p.numerator, p.denominator);
    var u, v := Bezout(q.numerator, q.denominator);
    DenominatorDivides(p.numerator, p.denominator, q.numerator, q.denominator, x, y);
    DenominatorDivides(q.numerator, q.denominator, p.numerator, p.denominator, u, v);
    MultipleOfEachOther(p.denominator, q.denominator, x * q.numerator + y * q.denominator,
                        u * p.numerator + v * p.denominator);
    SameDenominator(p.numerator, q.numerator, p.denominator);
  }

  lemma SameDenominator(m: int, n: int, d: int)
    requires d > 0 && m * d == n * d
    ensures m == n
  {
    assert (m - n) * d == 0;
  }

  // ----- Ceilings -----

  function CeilTimes(q: Rational, value: nat): int
    requires q.denominator > 0
  {
    (q.numerator * value + q.denominator - 1) / q.denominator
  }

  /** The ceiling: the least integer that is at least the product. */
  lemma CeilIsLeast(q: Rational, value: nat, c: int)
    requires q.denominator > 0
    ensures c >= CeilTimes(q, value) <==> c * q.denominator >= q.numerator * value
  {
    var n, d := q.numerator * value, q.denominator;
    var least := (n + d - 1) / d;
    assert least * d <= n + d - 1 < least * d + d;
    if c >= least {
      assert c * d >= least * d;
    } else {
      assert c * d <= (least - 1) * d;
    }
  }

  lemma ScaleComparison(pn: int, pd: int, qn: int, qd: int, value: nat, c: int)
    requires pd > 0 && qd > 0 && pn * qd <= qn * pd && c * qd >= qn * value
    ensures c * pd >= pn * value
  {
    assert pn * value * qd <= qn * value * pd by {
      assert pn * qd * value <= qn * pd * value;
    }
    assert qn * value * pd <= c * qd * pd;
    assert (c * pd - pn * value) * qd >= 0;
  }

  lemma CeilMonotone(p: Rational, q: Rational, value: nat)
    requires p.denominator > 0 && q.denominator > 0 && AtMost(p, q)
    ensures CeilTimes(p, value) <= CeilTimes(q, value)
  {
    var c := CeilTimes(q, value);
    CeilIsLeast(q, value, c);
    ScaleComparison(p.numerator, p.denominator, q.numerator, q.denominator, value, c);
    CeilIsLeast(p, value, c);
  }

  /** A fraction of at most one never gives more than the whole, and a positive one never nothing of something. */
  lemma CeilOfFraction(q: Rational, value: nat)
    requires Canonical(q) && q.numerator <= q.denominator
    ensures CeilTimes(q, value) <= value
    ensures value > 0 ==> CeilTimes(q, value) >= 1
  {
    assert value * q.denominator >= q.numerator * value;
    CeilIsLeast(q, value, value);
    CeilIsLeast(q, value, 0);
    if value > 0 {
      assert q.numerator * value > 0;
    }
  }
}
