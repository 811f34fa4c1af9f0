/** Square roots and moduli in exact arithmetic, as functions that satisfy the library's contract. */
module Modulus {
  import opened Complex

  /** The library's real square root, complex square root and modulus. */
  datatype Roots = Roots(sqrt: real -> real, csqrt: C -> C, Abs: C -> real) {
    ghost predicate Valid() {
      && (forall x {:trigger SqrtAt(x)} :: SqrtAt(x))
      && (forall z {:trigger CsqrtAt(z)} :: CsqrtAt(z))
      && (forall z {:trigger AbsAt(z)} :: AbsAt(z))
    }

    ghost predicate SqrtAt(x: real) { x >= 0.0 ==> sqrt(x) >= 0.0 && sqrt(x) * sqrt(x) == x }

    ghost predicate CsqrtAt(z: C) { Mul(csqrt(z), csqrt(z)) == z }

    ghost predicate AbsAt(z: C) { Abs(z) >= 0.0 && Abs(z) * Abs(z) == NormSq(z) }
  }

  function Neg(z: C): C { C(-z.re, -z.im) }

  /** Quotient; the divisor must not be zero. */
  function Div(z: C, w: C): C
    requires w != ZERO
  {
    NormSqPositive(w);
    var n := NormSq(w);
    var t := Mul(z, Conj(w));
    C(t.re / n, t.im / n)
  }

  lemma DivTimes(z: C, w: C)
    requires w != ZERO
    ensures Mul(Div(z, w), w) == z
  {
    NormSqPositive(w);
    var n, t := NormSq(w), Mul(z, Conj(w));
    var p, q := t.re / n, t.im / n;
    assert p * n == t.re && q * n == t.im;
    assert Div(z, w) == C(p, q);
    ScaledBack(p, q, t, w, n);
    ConjugateTwice(z, w);
    CancelScale(n, Mul(C(p, q), w), z);
  }

  lemma ConjugateTwice(z: C, w: C)
    ensures Mul(Mul(z, Conj(w)), w) == Scale(NormSq(w), z)
  {
    var t := Mul(z, Conj(w));
    var a, b, x, y := w.re, w.im, z.re, z.im;
    assert t.re == x * a + y * b && t.im == y * a - x * b;
    assert (x * a + y * b) * a - (y * a - x * b) * b == (a * a + b * b) * x;
    assert (x * a + y * b) * b + (y * a - x * b) * a == (a * a + b * b) * y;
  }

  lemma ScaledBack(p: real, q: real, t: C, w: C, n: real)
    requires p * n == t.re && q * n == t.im
    ensures Scale(n, Mul(C(p, q), w)) == Mul(t, w)
  {
    assert n * (p * w.re - q * w.im) == (p * n) * w.re - (q * n) * w.im;
    assert n * (p * w.im + q * w.re) == (p * n) * w.im + (q * n) * w.re;
  }

  lemma CancelScale(n: real, z: C, w: C)
    requires n > 0.0 && Scale(n, z) == Scale(n, w)
    ensures z == w
  {
    CancelFactor(n, z.re, w.re);
    CancelFactor(n, z.im, w.im);
  }

  lemma CancelFactor(n: real, x: real, y: real)
    requires n > 0.0 && n * x == n * y
    ensures x == y
  {
    assert n * (x - y) == 0.0;
  }

  /** On nonnegative numbers squaring is strictly increasing. */
  lemma SquareOrder(a: real, b: real, p: real, q: real)
    requires a >= 0.0 && b >= 0.0 && p == a * a && q == b * b
    ensures p <= q <==> a <= b
    ensures p < q <==> a < b
  {
    if a < b {
      ProductPositive(b - a, b + a, (b - a) * (b + a));
      assert (b - a) * (b + a) == q - p;
    } else if a > b {
      ProductPositive(a - b, a + b, (a - b) * (a + b));
      assert (a - b) * (a + b) == p - q;
    }
  }

  lemma SqrtSquare(r: Roots, x: real)
    requires r.Valid() && x >= 0.0
    ensures r.sqrt(x) >= 0.0 && r.sqrt(x) * r.sqrt(x) == x
  {
    assert r.SqrtAt(x);
  }

  lemma CsqrtSquare(r: Roots, z: C)
    requires r.Valid()
    ensures Mul(r.csqrt(z), r.csqrt(z)) == z
  {
    assert r.CsqrtAt(z);
  }

  lemma AbsSquare(r: Roots, z: C)
    requires r.Valid()
    ensures r.Abs(z) >= 0.0 && r.Abs(z) * r.Abs(z) == NormSq(z)
  {
    assert r.AbsAt(z);
  }

  lemma AbsNonnegative(r: Roots, z: C)
    requires r.Valid()
    ensures r.Abs(z) >= 0.0
    ensures r.Abs(z) == 0.0 <==> z == ZERO
  {
    AbsSquare(r, z);
    SquareZero(r.Abs(z), NormSq(z));
    NormSqZero(z, NormSq(z));
  }

  lemma SqrtOrder(r: Roots, x: real, y: real)
    requires r.Valid() && x >= 0.0 && y >= 0.0
    ensures x <= y <==> r.sqrt(x) <= r.sqrt(y)
    ensures x < y <==> r.sqrt(x) < r.sqrt(y)
  {
    SqrtSquare(r, x);
    SqrtSquare(r, y);
    SquareOrder(r.sqrt(x), r.sqrt(y), x, y);
  }

  lemma AbsSameNorm(r: Roots, z: C, w: C)
    requires r.Valid() && NormSq(z) == NormSq(w)
    ensures r.Abs(z) == r.Abs(w)
  {
    AbsSquare(r, z);
    AbsSquare(r, w);
    SquareOrder(r.Abs(z), r.Abs(w), NormSq(z), NormSq(w));
    SquareOrder(r.Abs(w), r.Abs(z), NormSq(w), NormSq(z));
  }

  lemma AbsMul(r: Roots, z: C, w: C)
    requires r.Valid()
    ensures r.Abs(Mul(z, w)) == r.Abs(z) * r.Abs(w)
  {
    AbsSquare(r, z);
    AbsSquare(r, w);
    AbsSquare(r, Mul(z, w));
    NormSqMul(z, w);
    var p, q, s := r.Abs(z), r.Abs(w), r.Abs(Mul(z, w));
    SquareOfProduct(p, q);
    SquareOrder(s, p * q, s * s, (p * q) * (p * q));
    SquareOrder(p * q, s, (p * q) * (p * q), s * s);
  }

  lemma SquareOfProduct(p: real, q: real)
    ensures (p * q) * (p * q) == (p * p) * (q * q)
    ensures p >= 0.0 && q >= 0.0 ==> p * q >= 0.0
  {
  }

  lemma RealPartBound(r: Roots, u: C)
    requires r.Valid()
    ensures u.re <= r.Abs(u)
  {
    AbsSquare(r, u);
    var p, q := u.re * u.re, u.im * u.im;
    SquarePositive(u.im, q);
    assert NormSq(u) == p + q;
    if u.re > 0.0 {
      SquareOrder(u.re, r.Abs(u), p, p + q);
    }
  }

  /** Real part of z times the conjugate of w, bounded by the product of the moduli. */
  lemma DotBound(r: Roots, z: C, w: C)
    requires r.Valid()
    ensures z.re * w.re + z.im * w.im <= r.Abs(z) * r.Abs(w)
  {
    RealPartBound(r, Mul(z, Conj(w)));
    AbsMul(r, z, Conj(w));
    AbsNeg(r, w);
  }

  lemma Triangle(r: Roots, z: C, w: C)
    requires r.Valid()
    ensures r.Abs(Add(z, w)) <= r.Abs(z) + r.Abs(w)
  {
    AbsSquare(r, z);
    AbsSquare(r, w);
    AbsSquare(r, Add(z, w));
    DotBound(r, z, w);
    var p, q, s := r.Abs(z), r.Abs(w), r.Abs(Add(z, w));
    var dot := z.re * w.re + z.im * w.im;
    assert NormSq(Add(z, w)) == NormSq(z) + NormSq(w) + 2.0 * dot;
    assert (p + q) * (p + q) == p * p + q * q + 2.0 * (p * q);
    SquareOrder(s, p + q, s * s, (p + q) * (p + q));
  }

  lemma AbsNeg(r: Roots, z: C)
    requires r.Valid()
    ensures r.Abs(Neg(z)) == r.Abs(z)
    ensures r.Abs(Conj(z)) == r.Abs(z)
    ensures r.Abs(TimesI(z)) == r.Abs(z)
  {
    assert NormSq(Neg(z)) == NormSq(z) && NormSq(Conj(z)) == NormSq(z) && NormSq(TimesI(z)) == NormSq(z);
    AbsSameNorm(r, z, Neg(z));
    AbsSameNorm(r, z, Conj(z));
    AbsSameNorm(r, z, TimesI(z));
  }

  lemma AbsReal(r: Roots, t: real)
    requires r.Valid() && t >= 0.0
    ensures r.Abs(C(t, 0.0)) == t
  {
    var p := r.Abs(C(t, 0.0));
    AbsSquare(r, C(t, 0.0));
    SquareOrder(t, p, t * t, p * p);
    SquareOrder(p, t, p * p, t * t);
  }

  lemma AbsScale(r: Roots, t: real, z: C)
    requires r.Valid() && t >= 0.0
    ensures r.Abs(Scale(t, z)) == t * r.Abs(z)
  {
    assert Mul(C(t, 0.0), z) == Scale(t, z);
    AbsMul(r, C(t, 0.0), z);
    AbsReal(r, t);
  }

  /** Reverse triangle inequality for a difference. */
  lemma AbsDifference(r: Roots, z: C, w: C, bound: real)
    requires r.Valid() && r.Abs(Sub(z, w)) <= bound
    ensures r.Abs(z) - bound <= r.Abs(w) <= r.Abs(z) + bound
    ensures r.Abs(Sub(w, z)) == r.Abs(Sub(z, w))
  {
    assert Add(w, Sub(z, w)) == z && Add(z, Sub(w, z)) == w;
    Triangle(r, w, Sub(z, w));
    Triangle(r, z, Sub(w, z));
    assert Sub(w, z) == Neg(Sub(z, w));
    AbsNeg(r, Sub(z, w));
  }

  lemma AbsTwiceProduct(r: Roots, z: C, w: C)
    requires r.Valid()
    ensures r.Abs(Scale(2.0, Mul(z, w))) == 2.0 * (r.Abs(z) * r.Abs(w))
  {
    AbsScale(r, 2.0, Mul(z, w));
    AbsMul(r, z, w);
  }
}
