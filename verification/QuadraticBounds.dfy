/** Error bounds for the centre, the discriminant and the roots of a perturbed quadratic. */
module QuadraticBounds {
  import opened Basics
  import opened Complex
  import opened Modulus

  /** 2 a m == -L fixes the centre m; D == m * m - q with a q == c is the discriminant. */
  ghost predicate IsCenter(a: C, l: C, m: C) { Scale(2.0, Mul(a, m)) == Neg(l) }

  lemma QuotientBound(x: real, num: real, den: real, low: real, p: real)
    requires x >= 0.0 && low > 0.0 && low <= den && p == den * x && p <= num
    ensures x <= num / low
  {
    ScaleBound(low, den, x);
    DivideMonotone(low * x, num, low);
    DivideMonotone(x, x, low);
  }

  lemma MulDistributes(a: C, x: C, y: C)
    ensures Mul(a, Sub(x, y)) == Sub(Mul(a, x), Mul(a, y))
    ensures Mul(Sub(x, y), a) == Sub(Mul(x, a), Mul(y, a))
  {
  }

  lemma CenterCombination(p: C, p': C, k: C, l: C, l': C)
    requires Scale(2.0, k) == Neg(l) && Scale(2.0, p') == Neg(l')
    ensures Scale(2.0, Sub(p, p')) == Add(Scale(2.0, Sub(p, k)), Sub(l', l))
  {
  }

  /** The perturbation of the centre solves the same linear equation with the coefficient errors on the right. */
  lemma CenterPerturbation(a: C, l: C, m: C, a': C, l': C, m': C)
    requires IsCenter(a, l, m) && IsCenter(a', l', m')
    ensures Scale(2.0, Mul(a', Sub(m, m'))) == Add(Scale(2.0, Mul(Sub(a', a), m)), Sub(l', l))
  {
    MulDistributes(a', m, m');
    MulDistributes(m, a', a);
    CenterCombination(Mul(a', m), Mul(a', m'), Mul(a, m), l, l');
  }

  lemma LeadingAwayFromZero(r: Roots, a: C, a': C, tol: real)
    requires r.Valid() && r.Abs(Sub(a, a')) <= tol && r.Abs(a) > tol
    ensures r.Abs(a') >= r.Abs(a) - tol > 0.0 && a' != ZERO
  {
    AbsDifference(r, a, a', tol);
    AbsNonnegative(r, a');
  }

  /** The triangle inequality for the perturbed centre equation. */
  lemma CenterTriangle(r: Roots, a: C, l: C, m: C, a': C, l': C, m': C)
    requires r.Valid() && IsCenter(a, l, m) && IsCenter(a', l', m')
    ensures 2.0 * (r.Abs(a') * r.Abs(Sub(m, m'))) <= 2.0 * (r.Abs(Sub(a', a)) * r.Abs(m)) + r.Abs(Sub(l', l))
  {
    CenterPerturbation(a, l, m, a', l', m');
    SumTriangle(r, a', Sub(m, m'), Sub(a', a), m, Sub(l', l));
  }

  lemma SumTriangle(r: Roots, x: C, y: C, u: C, v: C, w: C)
    requires r.Valid() && Scale(2.0, Mul(x, y)) == Add(Scale(2.0, Mul(u, v)), w)
    ensures 2.0 * (r.Abs(x) * r.Abs(y)) <= 2.0 * (r.Abs(u) * r.Abs(v)) + r.Abs(w)
  {
    AbsTwiceProduct(r, x, y);
    AbsTwiceProduct(r, u, v);
    Triangle(r, Scale(2.0, Mul(u, v)), w);
  }

  /** The true centre lies within the reported radius. */
  lemma CenterBound(r: Roots, a: C, l: C, m: C, a': C, l': C, m': C, tol: real, rl: real)
    requires r.Valid()
    requires 2.0 * (r.Abs(a') * r.Abs(Sub(m, m'))) <= 2.0 * (r.Abs(Sub(a', a)) * r.Abs(m)) + r.Abs(Sub(l', l))
    requires r.Abs(Sub(a, a')) <= tol && r.Abs(Sub(l, l')) <= rl && r.Abs(a) > tol >= 0.0
    ensures r.Abs(Sub(m, m')) <= (rl + 2.0 * r.Abs(m) * tol) / (2.0 * (r.Abs(a) - tol))
  {
    LeadingAwayFromZero(r, a, a', tol);
    AbsDifference(r, a, a', tol);
    AbsDifference(r, l, l', rl);
    AbsNonnegative(r, m);
    AbsNonnegative(r, Sub(m, m'));
    CenterArithmetic(r.Abs(Sub(m, m')), r.Abs(a'), r.Abs(a) - tol, r.Abs(Sub(a', a)), r.Abs(m), r.Abs(Sub(l', l)), tol,
                     rl);
  }

  lemma CenterArithmetic(delta: real, lead: real, low: real, e: real, m: real, y: real, tol: real, rl: real)
    requires 2.0 * (lead * delta) <= 2.0 * (e * m) + y && e <= tol && m >= 0.0 && y <= rl
    requires delta >= 0.0 && 0.0 < low <= lead
    ensures delta <= (rl + 2.0 * m * tol) / (2.0 * low)
  {
    ScaleBound(e, tol, m);
    DoubleProduct(m, tol);
    DoubleProduct(lead, delta);
    QuotientBound(delta, rl + 2.0 * m * tol, 2.0 * lead, 2.0 * low, 2.0 * (lead * delta));
  }

  lemma DoubleProduct(x: real, y: real)
    ensures (2.0 * x) * y == 2.0 * (x * y) && x * y == y * x
  {
  }

  lemma ScaleBound(x: real, y: real, t: real)
    requires x <= y && t >= 0.0
    ensures x * t <= y * t
  {
  }

  lemma DifferenceOfSquares(m: C, m': C)
    ensures Sub(Mul(m, m), Mul(m', m')) == Mul(Sub(m, m'), Sub(Scale(2.0, m), Sub(m, m')))
  {
  }

  lemma SquareBound(r: Roots, m: C, m': C, rm: real)
    requires r.Valid() && r.Abs(Sub(m, m')) <= rm
    ensures r.Abs(Sub(Mul(m, m), Mul(m', m'))) <= 2.0 * r.Abs(m) * rm + rm * rm
  {
    var delta := Sub(m, m');
    var other := Sub(Scale(2.0, m), delta);
    DifferenceOfSquares(m, m');
    AbsMul(r, delta, other);
    AbsScale(r, 2.0, m);
    assert Add(Scale(2.0, m), Neg(delta)) == other;
    Triangle(r, Scale(2.0, m), Neg(delta));
    AbsNeg(r, delta);
    AbsNonnegative(r, delta);
    AbsNonnegative(r, m);
    AbsNonnegative(r, other);
    ProductBound(r.Abs(delta), rm, r.Abs(other), 2.0 * r.Abs(m) + rm);
    assert rm * (2.0 * r.Abs(m) + rm) == 2.0 * r.Abs(m) * rm + rm * rm;
  }

  lemma ProductBound(x: real, x': real, y: real, y': real)
    requires 0.0 <= x <= x' && 0.0 <= y <= y'
    ensures x * y <= x' * y'
  {
    assert x * y <= x' * y;
    assert x' * y <= x' * y';
  }

  lemma QuotientPerturbation(a: C, c: C, q: C, a': C, c': C, q': C)
    requires Mul(a, q) == c && Mul(a', q') == c'
    ensures Mul(a', Sub(q, q')) == Add(Mul(Sub(a', a), q), Sub(c, c'))
  {
    MulDistributes(a', q, q');
    MulDistributes(q, a', a);
  }

  lemma ConstantTriangle(r: Roots, a: C, c: C, q: C, a': C, c': C, q': C)
    requires r.Valid() && Mul(a, q) == c && Mul(a', q') == c'
    ensures r.Abs(a') * r.Abs(Sub(q, q')) <= r.Abs(Sub(a', a)) * r.Abs(q) + r.Abs(Sub(c, c'))
  {
    QuotientPerturbation(a, c, q, a', c', q');
    AbsMul(r, a', Sub(q, q'));
    AbsMul(r, Sub(a', a), q);
    Triangle(r, Mul(Sub(a', a), q), Sub(c, c'));
  }

  lemma ConstantBound(r: Roots, a: C, c: C, q: C, a': C, c': C, q': C, tol: real, r0: real)
    requires r.Valid()
    requires r.Abs(a') * r.Abs(Sub(q, q')) <= r.Abs(Sub(a', a)) * r.Abs(q) + r.Abs(Sub(c, c'))
    requires r.Abs(Sub(a, a')) <= tol && r.Abs(Sub(c, c')) <= r0 && r.Abs(a) > tol >= 0.0
    ensures r.Abs(Sub(q, q')) <= (r0 + r.Abs(q) * tol) / (r.Abs(a) - tol)
  {
    LeadingAwayFromZero(r, a, a', tol);
    AbsDifference(r, a, a', tol);
    AbsNonnegative(r, q);
    AbsNonnegative(r, Sub(q, q'));
    ConstantArithmetic(r.Abs(Sub(q, q')), r.Abs(a'), r.Abs(a) - tol, r.Abs(Sub(a', a)), r.Abs(q), r.Abs(Sub(c, c')),
                       tol, r0);
  }

  lemma ConstantArithmetic(delta: real, lead: real, low: real, e: real, q: real, y: real, tol: real, r0: real)
    requires lead * delta <= e * q + y && e <= tol && q >= 0.0 && y <= r0
    requires delta >= 0.0 && 0.0 < low <= lead
    ensures delta <= (r0 + q * tol) / low
  {
    ScaleBound(e, tol, q);
    DoubleProduct(q, tol);
    QuotientBound(delta, r0 + q * tol, lead, low, lead * delta);
  }

  /** The true discriminant lies within the reported radius. */
  lemma DiscriminantBound(r: Roots, m: C, q: C, m': C, q': C, rm: real, rq: real)
    requires r.Valid() && r.Abs(Sub(m, m')) <= rm && r.Abs(Sub(q, q')) <= rq
    ensures r.Abs(Sub(Sub(Mul(m, m), q), Sub(Mul(m', m'), q'))) <= 2.0 * r.Abs(m) * rm + rm * rm + rq
  {
    SquareBound(r, m, m', rm);
    var x, y := Sub(Mul(m, m), Mul(m', m')), Sub(q, q');
    assert Sub(Sub(Mul(m, m), q), Sub(Mul(m', m'), q')) == Add(x, Neg(y));
    Triangle(r, x, Neg(y));
    AbsNeg(r, y);
  }

  function Positive(x: real): real { if x > 0.0 then x else 0.0 }

  /** A square root of the true discriminant has its modulus between the reported bounds. */
  lemma SeparationBound(r: Roots, d: C, d': C, s': C, rd: real)
    requires r.Valid() && Mul(s', s') == d' && r.Abs(Sub(d, d')) <= rd
    ensures r.Abs(d) + rd >= 0.0
    ensures 2.0 * r.sqrt(Positive(r.Abs(d) - rd)) <= r.Abs(Scale(2.0, s')) <= 2.0 * r.sqrt(r.Abs(d) + rd)
  {
    var t, p := r.Abs(s'), r.Abs(d');
    assert p == t * t && t >= 0.0 && p >= 0.0 by {
      AbsMul(r, s', s');
      AbsSquare(r, s');
      AbsSquare(r, d');
    }
    AbsScale(r, 2.0, s');
    AbsDifference(r, d, d', rd);
    SqrtBelow(r, Positive(r.Abs(d) - rd), t, p);
    SqrtAbove(r, r.Abs(d) + rd, t, p);
  }

  lemma SqrtBelow(r: Roots, low: real, t: real, p: real)
    requires r.Valid() && 0.0 <= low <= p && t >= 0.0 && p == t * t
    ensures r.sqrt(low) <= t
  {
    SqrtSquare(r, low);
    SquareOrder(r.sqrt(low), t, low, p);
  }

  lemma SqrtAbove(r: Roots, high: real, t: real, p: real)
    requires r.Valid() && p <= high && t >= 0.0 && p == t * t && high >= 0.0
    ensures t <= r.sqrt(high)
  {
    SqrtSquare(r, high);
    SquareOrder(t, r.sqrt(high), p, high);
  }

  lemma SquaresFactor(s: C, s': C)
    ensures Sub(Mul(s, s), Mul(s', s')) == Mul(Sub(s, s'), Add(s, s'))
  {
  }

  /** One of the two square roots of the true discriminant is within sqrt(rd) of the estimated one. */
  lemma RootPairing(r: Roots, s: C, s': C, rd: real)
    requires r.Valid() && rd >= 0.0 && r.Abs(Sub(Mul(s, s), Mul(s', s'))) <= rd
    ensures r.Abs(Sub(s, s')) <= r.sqrt(rd) || r.Abs(Add(s, s')) <= r.sqrt(rd)
  {
    SquaresFactor(s, s');
    AbsMul(r, Sub(s, s'), Add(s, s'));
    SqrtSquare(r, rd);
    AbsSquare(r, Sub(s, s'));
    AbsSquare(r, Add(s, s'));
    OneIsSmall(r.Abs(Sub(s, s')), r.Abs(Add(s, s')), r.sqrt(rd), rd);
  }

  lemma LargerProduct(x: real, y: real, t: real)
    requires x > t >= 0.0 && y > t
    ensures x * y > t * t
  {
    ProductPositive(x - t, y, (x - t) * y);
    ScaleBound(t, y, t);
  }

  lemma OneIsSmall(x: real, y: real, t: real, p: real)
    requires x >= 0.0 && y >= 0.0 && t >= 0.0 && p == t * t && x * y <= p
    ensures x <= t || y <= t
  {
    if x > t && y > t {
      LargerProduct(x, y, t);
    }
  }
}
