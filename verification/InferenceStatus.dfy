/** Which status the inference reports, told from the shape of the fitted quadratic part. */
module InferenceStatus {
  import opened Basics
  import opened Complex
  import opened Modulus
  import opened CenterIdentifiability

  /** The quadratic part of the fitted residual at a point. */
  function QuadraticPart(f: Fit, z: C): C {
    Add(Add(Scale(z.re * z.re, f.qxx), Scale(z.re * z.im, f.qxy)), Scale(z.im * z.im, f.qyy))
  }

  /** a z z + b conj(z) conj(z) + c |z|^2. */
  function Split(a: C, b: C, c: C, z: C): C {
    Add(Add(Mul(a, Mul(z, z)), Mul(b, Mul(Conj(z), Conj(z)))), Scale(NormSq(z), c))
  }

  ghost predicate ShapeOf(f: Fit, a: C, b: C, c: C) { forall z: C :: AgreesAt(f, a, b, c, z) }

  predicate AgreesAt(f: Fit, a: C, b: C, c: C, z: C) { QuadraticPart(f, z) == Split(a, b, c, z) }

  lemma FittedShape(f: Fit, z: C)
    ensures AgreesAt(f, CurvatureA(f), CurvatureB(f), CurvatureC(f), z)
  {
    CurvatureSplit(f, z);
  }

  /** Every fit has such a shape. */
  lemma ShapeExists(f: Fit)
    ensures ShapeOf(f, CurvatureA(f), CurvatureB(f), CurvatureC(f))
  {
    forall z: C
      ensures AgreesAt(f, CurvatureA(f), CurvatureB(f), CurvatureC(f), z)
    {
      FittedShape(f, z);
    }
  }

  /** And only one. */
  lemma ShapeUnique(f: Fit, a: C, b: C, c: C)
    requires ShapeOf(f, a, b, c)
    ensures a == CurvatureA(f) && b == CurvatureB(f) && c == CurvatureC(f)
  {
    AtOne(f, a, b, c);
    AtImaginaryUnit(f, a, b, c);
    AtDiagonal(f, a, b, c);
    Recovered(f, a, b, c);
  }

  lemma AtOne(f: Fit, a: C, b: C, c: C)
    requires ShapeOf(f, a, b, c)
    ensures f.qxx == Add(Add(a, b), c)
  {
    AtPoint(f, a, b, c, C(1.0, 0.0), 1.0, 0.0, 0.0, C(1.0, 0.0), C(1.0, 0.0), 1.0);
    RightAtOne(a, b, c);
    LeftAtOne(f);
  }

  lemma AtImaginaryUnit(f: Fit, a: C, b: C, c: C)
    requires ShapeOf(f, a, b, c)
    ensures f.qyy == Sub(c, Add(a, b))
  {
    AtPoint(f, a, b, c, C(0.0, 1.0), 0.0, 0.0, 1.0, C(-1.0, 0.0), C(-1.0, 0.0), 1.0);
    RightAtUnit(a, b, c);
    LeftAtUnit(f);
  }

  lemma AtDiagonal(f: Fit, a: C, b: C, c: C)
    requires ShapeOf(f, a, b, c)
    ensures Add(Add(f.qxx, f.qxy), f.qyy) == Add(TimesI(Scale(2.0, Sub(a, b))), Scale(2.0, c))
  {
    AtPoint(f, a, b, c, C(1.0, 1.0), 1.0, 1.0, 1.0, C(0.0, 2.0), C(0.0, -2.0), 2.0);
    RightAtDiagonal(a, b, c);
    LeftAtDiagonal(f);
  }

  /** The shape at a point, by the products of its coordinates. */
  lemma AtPoint(f: Fit, a: C, b: C, c: C, z: C, xx: real, xy: real, yy: real, p: C, q: C, n: real)
    requires ShapeOf(f, a, b, c) && z.re * z.re == xx && z.re * z.im == xy && z.im * z.im == yy
    requires p == C(xx - yy, 2.0 * xy) && q == C(xx - yy, -2.0 * xy) && n == xx + yy
    ensures Left(f, xx, xy, yy) == Right(a, b, c, p, q, n)
  {
    assert AgreesAt(f, a, b, c, z);
    SquareParts(z);
  }

  function Left(f: Fit, xx: real, xy: real, yy: real): C {
    Add(Add(Scale(xx, f.qxx), Scale(xy, f.qxy)), Scale(yy, f.qyy))
  }

  function Right(a: C, b: C, c: C, p: C, q: C, n: real): C { Add(Add(Mul(a, p), Mul(b, q)), Scale(n, c)) }

  lemma ScaleUnits(z: C)
    ensures Scale(0.0, z) == ZERO && Scale(1.0, z) == z
  {
  }

  lemma LeftAtOne(f: Fit)
    ensures Left(f, 1.0, 0.0, 0.0) == f.qxx
  {
    ScaleUnits(f.qxx);
    ScaleUnits(f.qxy);
    ScaleUnits(f.qyy);
  }

  lemma LeftAtUnit(f: Fit)
    ensures Left(f, 0.0, 0.0, 1.0) == f.qyy
  {
    ScaleUnits(f.qxx);
    ScaleUnits(f.qxy);
    ScaleUnits(f.qyy);
  }

  lemma LeftAtDiagonal(f: Fit)
    ensures Left(f, 1.0, 1.0, 1.0) == Add(Add(f.qxx, f.qxy), f.qyy)
  {
    ScaleUnits(f.qxx);
    ScaleUnits(f.qxy);
    ScaleUnits(f.qyy);
  }

  lemma RightAtOne(a: C, b: C, c: C)
    ensures Right(a, b, c, C(1.0, 0.0), C(1.0, 0.0), 1.0) == Add(Add(a, b), c)
  {
  }

  lemma RightAtUnit(a: C, b: C, c: C)
    ensures Right(a, b, c, C(-1.0, 0.0), C(-1.0, 0.0), 1.0) == Sub(c, Add(a, b))
  {
  }

  lemma RightAtDiagonal(a: C, b: C, c: C)
    ensures Right(a, b, c, C(0.0, 2.0), C(0.0, -2.0), 2.0) == Add(TimesI(Scale(2.0, Sub(a, b))), Scale(2.0, c))
  {
  }

  lemma Recovered(f: Fit, a: C, b: C, c: C)
    requires f.qxx == Add(Add(a, b), c) && f.qyy == Sub(c, Add(a, b))
    requires Add(Add(f.qxx, f.qxy), f.qyy) == Add(TimesI(Scale(2.0, Sub(a, b))), Scale(2.0, c))
    ensures a == CurvatureA(f) && b == CurvatureB(f) && c == CurvatureC(f)
  {
  }

  /** One coefficient stands out and the two others are within the numerical margin. */
  predicate OnlyFirst(r: Roots, first: C, second: C, third: C) {
    r.Abs(first) > FLOOR && r.Abs(second) <= TOL && r.Abs(third) <= TOL
  }

  predicate NoneStandsOut(r: Roots, a: C, b: C, c: C) { r.Abs(a) <= TOL && r.Abs(b) <= TOL && r.Abs(c) <= TOL }

  /**
   The readout by the held-out error and the shape of the quadratic part: the four families are told apart by which
   of the three coefficients stands out, and everything else is reported as outside them.
   */
  lemma StatusByShape(r: Roots, f: Fit, radii: Radii, a: C, b: C, c: C)
    requires r.Valid() && ShapeOf(f, a, b, c)
    ensures Infer(r, f, radii).None? <==> radii.r0 < 0.0 || radii.rx < 0.0 || radii.ry < 0.0
    ensures Infer(r, f, radii).Some? ==>
      var got := Infer(r, f, radii).value;
      && (got.status == OutOfFamilyHeldout <==> f.heldoutError > TOL)
      && (got.orientation == Some(Holomorphic) <==> f.heldoutError <= TOL && OnlyFirst(r, a, b, c))
      && (got.orientation == Some(Antiholomorphic) <==> f.heldoutError <= TOL && OnlyFirst(r, b, a, c))
      && (got.status in {ZeroCompatible, NonzeroNoCore, AffineUnresolved} <==>
            f.heldoutError <= TOL && NoneStandsOut(r, a, b, c))
      && (got.status == OutOfFamilyCurvature <==>
            && f.heldoutError <= TOL && !NoneStandsOut(r, a, b, c)
            && !OnlyFirst(r, a, b, c) && !OnlyFirst(r, b, a, c))
  {
    ShapeUnique(f, a, b, c);
  }
}
