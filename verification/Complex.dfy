/** Complex numbers as pairs of reals, in exact arithmetic. */
module Complex {

  datatype C = C(re: real, im: real)

  const ZERO := C(0.0, 0.0)

  function Add(z: C, w: C): C { C(z.re + w.re, z.im + w.im) }

  function Sub(z: C, w: C): C { C(z.re - w.re, z.im - w.im) }

  function Mul(z: C, w: C): C { C(z.re * w.re - z.im * w.im, z.re * w.im + z.im * w.re) }

  function Conj(z: C): C { C(z.re, -z.im) }

  function Scale(t: real, z: C): C { C(t * z.re, t * z.im) }

  /** Squared modulus. */
  function NormSq(z: C): real { z.re * z.re + z.im * z.im }

  /** Multiplication by the imaginary unit. */
  function TimesI(z: C): C { C(-z.im, z.re) }

  lemma MulNonzero(z: C, w: C)
    requires z != ZERO && w != ZERO
    ensures Mul(z, w) != ZERO
  {
    NormSqMul(z, w);
    NormSqPositive(z);
    NormSqPositive(w);
    var m, n := NormSq(z), NormSq(w);
    assert m > 0.0 && n > 0.0 ==> m * n > 0.0;
  }

  lemma NormSqMul(z: C, w: C)
    ensures NormSq(Mul(z, w)) == NormSq(z) * NormSq(w)
  {
  }

  lemma ProductPositive(x: real, y: real, p: real)
    requires x > 0.0 && y > 0.0 && p == x * y
    ensures p > 0.0
  {
  }

  lemma SquarePositive(a: real, p: real)
    requires p == a * a
    ensures p >= 0.0
    ensures a != 0.0 ==> p > 0.0
  {
    if a > 0.0 {
      ProductPositive(a, a, p);
    } else if a < 0.0 {
      ProductPositive(-a, -a, p);
    }
  }

  lemma SquaresPositive(a: real, b: real, m: real)
    requires m == a * a + b * b
    ensures m >= 0.0
    ensures a != 0.0 || b != 0.0 ==> m > 0.0
  {
    var p, q := a * a, b * b;
    SquarePositive(a, p);
    SquarePositive(b, q);
  }

  lemma NormSqPositive(z: C)
    ensures NormSq(z) >= 0.0
    ensures z != ZERO ==> NormSq(z) > 0.0
  {
    SquaresPositive(z.re, z.im, NormSq(z));
    assert z == C(z.re, z.im);
  }

  lemma NormSqZero(z: C, n: real)
    requires n == NormSq(z)
    ensures n == 0.0 <==> z == ZERO
  {
    SquaresPositive(z.re, z.im, n);
    if z != ZERO {
      assert z == C(z.re, z.im);
    } else {
      assert z.re * z.re == 0.0 && z.im * z.im == 0.0;
    }
  }

  lemma SquareZero(a: real, p: real)
    requires p == a * a
    ensures p == 0.0 <==> a == 0.0
  {
    SquarePositive(a, p);
  }
}
