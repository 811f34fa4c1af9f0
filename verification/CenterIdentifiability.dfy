/** Quadratic-family inference from fitted coefficients and reference error radii. */
module CenterIdentifiability {
  import opened Basics
  import opened Complex
  import opened Modulus
  import opened QuadraticBounds

  const TOL := 0.000000001
  const FLOOR := 0.000001

  /** Fitted coefficients of 1, x, y, xx, xy, yy and the held-out prediction error. */
  datatype Fit = Fit(c: C, lineX: C, lineY: C, qxx: C, qxy: C, qyy: C, heldoutError: real)

  datatype Radii = Radii(r0: real, rx: real, ry: real) {
    predicate Nonnegative() { r0 >= 0.0 && rx >= 0.0 && ry >= 0.0 }

    function Linear(): real { (rx + ry) / 2.0 }
  }

  datatype Orientation = Holomorphic | Antiholomorphic

  datatype Status =
    | OutOfFamilyHeldout
    | OutOfFamilyCurvature
    | ZeroCompatible
    | NonzeroNoCore
    | AffineUnresolved
    | EnvelopeMismatch
    | TwoRequired
    | OneNotExcluded

  datatype Solution = Solution(
    center: C, centerRadius: real, discriminant: C, discriminantRadius: real,
    lower: real, upper: real, root1: C, root2: C, rootRadius: real, disjoint: bool)

  datatype Readout = Readout(status: Status, orientation: Option<Orientation>, solution: Option<Solution>)

  // ----- Curvature split -----

  function CurvatureA(f: Fit): C { Scale(0.25, Sub(Sub(f.qxx, f.qyy), TimesI(f.qxy))) }

  function CurvatureB(f: Fit): C { Scale(0.25, Add(Sub(f.qxx, f.qyy), TimesI(f.qxy))) }

  function CurvatureC(f: Fit): C { Scale(0.5, Add(f.qxx, f.qyy)) }

  /** The quadratic part is A z z + B conj(z) conj(z) + C |z|^2. */
  lemma CurvatureSplit(f: Fit, z: C)
    ensures Add(Add(Scale(z.re * z.re, f.qxx), Scale(z.re * z.im, f.qxy)), Scale(z.im * z.im, f.qyy))
         == Add(Add(Mul(CurvatureA(f), Mul(z, z)), Mul(CurvatureB(f), Mul(Conj(z), Conj(z)))),
                Scale(NormSq(z), CurvatureC(f)))
  {
    SquareParts(z);
    SplitPart(f, z.re * z.re, z.re * z.im, z.im * z.im);
  }

  lemma SquareParts(z: C)
    ensures Mul(z, z) == C(z.re * z.re - z.im * z.im, 2.0 * (z.re * z.im))
    ensures Mul(Conj(z), Conj(z)) == C(z.re * z.re - z.im * z.im, -2.0 * (z.re * z.im))
  {
    NegatedProducts(z.re, z.im);
  }

  lemma SplitPart(f: Fit, xx: real, xy: real, yy: real)
    ensures Add(Add(Scale(xx, f.qxx), Scale(xy, f.qxy)), Scale(yy, f.qyy))
         == Add(Add(Mul(CurvatureA(f), C(xx - yy, 2.0 * xy)), Mul(CurvatureB(f), C(xx - yy, -2.0 * xy))),
                Scale(xx + yy, CurvatureC(f)))
  {
  }

  // ----- Inference -----

  function Active(f: Fit, o: Orientation): C { if o == Holomorphic then CurvatureA(f) else CurvatureB(f) }

  /** Half of bx - i by, or of bx + i by. */
  function LinearMinus(f: Fit): C { Scale(0.5, Sub(f.lineX, TimesI(f.lineY))) }

  function LinearPlus(f: Fit): C { Scale(0.5, Add(f.lineX, TimesI(f.lineY))) }

  function ActiveLinear(f: Fit, o: Orientation): C { if o == Holomorphic then LinearMinus(f) else LinearPlus(f) }

  function InactiveLinear(f: Fit, o: Orientation): C { if o == Holomorphic then LinearPlus(f) else LinearMinus(f) }

  /** The physical position of a point of the active variable. */
  function Physical(o: Orientation, z: C): C { if o == Holomorphic then z else Conj(z) }

  predicate Supports(r: Roots, f: Fit, o: Orientation) {
    && r.Abs(Active(f, o)) > FLOOR
    && r.Abs(if o == Holomorphic then CurvatureB(f) else CurvatureA(f)) <= TOL
    && r.Abs(CurvatureC(f)) <= TOL
  }

  lemma ActiveNonzero(r: Roots, a: C)
    requires r.Valid() && r.Abs(a) > FLOOR
    ensures a != ZERO && Scale(2.0, a) != ZERO
  {
    AbsNonnegative(r, a);
    assert Scale(2.0, a) == ZERO ==> a == ZERO;
  }

  function CenterOf(r: Roots, a: C, l: C): C
    requires r.Valid() && r.Abs(a) > FLOOR
  {
    ActiveNonzero(r, a);
    Div(Neg(l), Scale(2.0, a))
  }

  function QuotientOf(r: Roots, a: C, c: C): C
    requires r.Valid() && r.Abs(a) > FLOOR
  {
    ActiveNonzero(r, a);
    Div(c, a)
  }

  function CenterRadius(r: Roots, a: C, m: C, rl: real): real
    requires r.Abs(a) > FLOOR
  {
    (rl + 2.0 * r.Abs(m) * TOL) / (2.0 * (r.Abs(a) - TOL))
  }

  function DiscriminantRadius(r: Roots, a: C, m: C, q: C, rm: real, r0: real): real
    requires r.Abs(a) > FLOOR
  {
    2.0 * r.Abs(m) * rm + rm * rm + QuotientRadius(r, a, q, r0)
  }

  /** Separation interval and root regions from the centre and discriminant disks. */
  function SolutionFrom(r: Roots, o: Orientation, m: C, d: C, rm: real, rd: real): Solution {
    var s := r.csqrt(d);
    var p1, p2 := Physical(o, Add(m, s)), Physical(o, Sub(m, s));
    var rootRadius := rm + r.sqrt(rd);
    Solution(Physical(o, m), rm, d, rd,
             2.0 * r.sqrt(Positive(r.Abs(d) - rd)), 2.0 * r.sqrt(r.Abs(d) + rd),
             p1, p2, rootRadius, r.Abs(Sub(p1, p2)) > 2.0 * rootRadius)
  }

  /** Centre, discriminant, separation and root regions of the active quadratic. */
  function Solve(r: Roots, o: Orientation, a: C, l: C, c: C, radii: Radii): Solution
    requires r.Valid() && r.Abs(a) > FLOOR
  {
    var m, q := CenterOf(r, a, l), QuotientOf(r, a, c);
    var rm := CenterRadius(r, a, m, radii.Linear());
    SolutionFrom(r, o, m, Sub(Mul(m, m), q), rm, DiscriminantRadius(r, a, m, q, rm, radii.r0))
  }

  /** The readout of one residual; none when a radius is negative. */
  function Infer(r: Roots, f: Fit, radii: Radii): Option<Readout>
    requires r.Valid()
  {
    if !radii.Nonnegative() then None
    else if f.heldoutError > TOL then Some(Readout(OutOfFamilyHeldout, None, None))
    else if r.Abs(CurvatureA(f)) <= TOL && r.Abs(CurvatureB(f)) <= TOL && r.Abs(CurvatureC(f)) <= TOL then
      if r.Abs(f.c) <= radii.r0 && r.Abs(f.lineX) <= radii.rx && r.Abs(f.lineY) <= radii.ry then
        Some(Readout(ZeroCompatible, None, None))
      else if r.Abs(f.c) - r.Abs(f.lineX) - r.Abs(f.lineY) - (radii.r0 + radii.rx + radii.ry) > FLOOR then
        Some(Readout(NonzeroNoCore, None, None))
      else Some(Readout(AffineUnresolved, None, None))
    else if Supports(r, f, Holomorphic) then Some(InferActive(r, f, radii, Holomorphic))
    else if Supports(r, f, Antiholomorphic) then Some(InferActive(r, f, radii, Antiholomorphic))
    else Some(Readout(OutOfFamilyCurvature, None, None))
  }

  function InferActive(r: Roots, f: Fit, radii: Radii, o: Orientation): Readout
    requires r.Valid() && Supports(r, f, o)
  {
    if r.Abs(InactiveLinear(f, o)) > radii.Linear() + TOL then Readout(EnvelopeMismatch, Some(o), None)
    else
      var s := Solve(r, o, Active(f, o), ActiveLinear(f, o), f.c, radii);
      Readout(if s.lower > 0.0 then TwoRequired else OneNotExcluded, Some(o), Some(s))
  }

  // ----- The true field -----

  /** alpha w w + lambda w + gamma with w = z or its conjugate. */
  datatype Truth = Truth(orientation: Orientation, alpha: C, lambda: C, gamma: C) {
    function Field(z: C): C {
      var w := Physical(orientation, z);
      Add(Add(Mul(alpha, Mul(w, w)), Mul(lambda, w)), gamma)
    }
  }

  /**
   The truth explains the fit: its leading coefficient is within the numerical margin and its affine
   coefficients lie in the error disks around the fitted ones.
   */
  ghost predicate Explains(r: Roots, t: Truth, f: Fit, radii: Radii) {
    && r.Abs(Sub(Active(f, t.orientation), t.alpha)) <= TOL
    && r.Abs(Sub(f.c, t.gamma)) <= radii.r0
    && r.Abs(Sub(f.lineX, t.lambda)) <= radii.rx
    && r.Abs(Sub(f.lineY, if t.orientation == Holomorphic then TimesI(t.lambda) else Neg(TimesI(t.lambda)))) <= radii.ry
  }

  /** A true centre and a square root of the true discriminant. */
  ghost predicate IsVertex(t: Truth, m: C, s: C, q: C) {
    IsCenter(t.alpha, t.lambda, m) && Mul(t.alpha, q) == t.gamma && Mul(s, s) == Sub(Mul(m, m), q)
  }

  lemma CenterOfIsCenter(r: Roots, a: C, l: C)
    requires r.Valid() && r.Abs(a) > FLOOR
    ensures IsCenter(a, l, CenterOf(r, a, l))
  {
    ActiveNonzero(r, a);
    DivTimes(Neg(l), Scale(2.0, a));
    var m := CenterOf(r, a, l);
    assert Mul(m, Scale(2.0, a)) == Scale(2.0, Mul(a, m));
  }

  lemma QuotientOfIsQuotient(r: Roots, a: C, c: C)
    requires r.Valid() && r.Abs(a) > FLOOR
    ensures Mul(a, QuotientOf(r, a, c)) == c
  {
    ActiveNonzero(r, a);
    DivTimes(c, a);
    MulCommutes(a, QuotientOf(r, a, c));
  }

  lemma MulCommutes(z: C, w: C)
    ensures Mul(z, w) == Mul(w, z)
  {
  }

  /** Every true quadratic has a vertex. */
  lemma VertexExists(r: Roots, t: Truth) returns (m: C, s: C, q: C)
    requires r.Valid() && t.alpha != ZERO
    ensures IsVertex(t, m, s, q)
  {
    var two := Scale(2.0, t.alpha);
    assert two == ZERO ==> t.alpha == ZERO;
    m, q := Div(Neg(t.lambda), two), Div(t.gamma, t.alpha);
    DivTimes(Neg(t.lambda), two);
    DivTimes(t.gamma, t.alpha);
    MulCommutes(t.alpha, q);
    assert Mul(m, two) == Scale(2.0, Mul(t.alpha, m));
    s := r.csqrt(Sub(Mul(m, m), q));
    CsqrtSquare(r, Sub(Mul(m, m), q));
  }

  /** Completing the square. */
  lemma FactoredField(t: Truth, m: C, s: C, q: C, w: C)
    requires IsVertex(t, m, s, q)
    ensures Add(Add(Mul(t.alpha, Mul(w, w)), Mul(t.lambda, w)), t.gamma)
         == Mul(t.alpha, Mul(Sub(Sub(w, m), s), Add(Sub(w, m), s)))
  {
    var u, ww, mw := Sub(w, m), Mul(w, w), Scale(2.0, Mul(m, w));
    SquareOfDifference(w, m);
    SquaresFactor(u, s);
    SquareCompletion(Mul(u, u), ww, mw, Mul(m, m), Mul(s, s), q);
    AlphaTimes(t.alpha, ww, mw, q);
    LambdaTerm(t.alpha, t.lambda, m, w);
    assert Sub(Mul(t.alpha, ww), Neg(Mul(t.lambda, w))) == Add(Mul(t.alpha, ww), Mul(t.lambda, w));
  }

  lemma SquareOfDifference(w: C, m: C)
    ensures Mul(Sub(w, m), Sub(w, m)) == Add(Sub(Mul(w, w), Scale(2.0, Mul(m, w))), Mul(m, m))
  {
    DifferenceParts(w.re, w.im, m.re, m.im);
  }

  lemma ExpandDifferences(a: real, b: real, c: real, d: real)
    ensures (a - b) * (c - d) == a * c - a * d - b * c + b * d
  {
  }

  /** Real and imaginary part of a squared difference. */
  lemma DifferenceParts(x: real, y: real, a: real, b: real)
    ensures (x - a) * (x - a) - (y - b) * (y - b) == (x * x - y * y) - 2.0 * (a * x - b * y) + (a * a - b * b)
    ensures (x - a) * (y - b) + (y - b) * (x - a) == (x * y + y * x) - 2.0 * (a * y + b * x) + (a * b + b * a)
  {
    ExpandDifferences(x, a, x, a);
    ExpandDifferences(y, b, y, b);
    ExpandDifferences(x, a, y, b);
    ExpandDifferences(y, b, x, a);
  }

  lemma SquareCompletion(uu: C, ww: C, mw: C, mm: C, ss: C, q: C)
    requires uu == Add(Sub(ww, mw), mm) && ss == Sub(mm, q)
    ensures Sub(uu, ss) == Add(Sub(ww, mw), q)
  {
  }

  lemma AlphaTimes(a: C, x: C, y: C, q: C)
    ensures Mul(a, Add(Sub(x, y), q)) == Add(Sub(Mul(a, x), Mul(a, y)), Mul(a, q))
  {
    DistributeOver(a.re, x.re, y.re, q.re);
    DistributeOver(a.im, x.im, y.im, q.im);
    DistributeOver(a.re, x.im, y.im, q.im);
    DistributeOver(a.im, x.re, y.re, q.re);
  }

  lemma DistributeOver(a: real, x: real, y: real, q: real)
    ensures a * (x - y + q) == a * x - a * y + a * q
  {
  }

  lemma LambdaTerm(a: C, l: C, m: C, w: C)
    requires IsCenter(a, l, m)
    ensures Mul(a, Scale(2.0, Mul(m, w))) == Neg(Mul(l, w))
  {
    MulAssociates(a, m, w);
    var p := Mul(a, m);
    assert Mul(a, Scale(2.0, Mul(m, w))) == Scale(2.0, Mul(a, Mul(m, w)));
    assert Scale(2.0, Mul(p, w)) == Mul(Scale(2.0, p), w);
    assert Mul(Neg(l), w) == Neg(Mul(l, w));
  }

  lemma MulAssociates(z: C, w: C, u: C)
    ensures Mul(Mul(z, w), u) == Mul(z, Mul(w, u))
  {
  }

  /** The zeros of the true field are exactly its two (possibly equal) roots. */
  lemma ZerosAreRoots(t: Truth, m: C, s: C, q: C, z: C)
    requires t.alpha != ZERO && IsVertex(t, m, s, q)
    ensures t.Field(z) == ZERO <==>
      z == Physical(t.orientation, Add(m, s)) || z == Physical(t.orientation, Sub(m, s))
  {
    var w := Physical(t.orientation, z);
    FactoredField(t, m, s, q, w);
    RootsOfFactors(t.alpha, m, s, w);
    assert t.Field(z) == Mul(t.alpha, Mul(Sub(Sub(w, m), s), Add(Sub(w, m), s)));
    PhysicalInvolution(t.orientation, z);
    PhysicalInvolution(t.orientation, Add(m, s));
    PhysicalInvolution(t.orientation, Sub(m, s));
  }

  lemma PhysicalInvolution(o: Orientation, z: C)
    ensures Physical(o, Physical(o, z)) == z
  {
  }

  lemma RootsOfFactors(a: C, m: C, s: C, w: C)
    requires a != ZERO
    ensures Mul(a, Mul(Sub(Sub(w, m), s), Add(Sub(w, m), s))) == ZERO <==> w == Add(m, s) || w == Sub(m, s)
  {
    var x, y := Sub(Sub(w, m), s), Add(Sub(w, m), s);
    ProductZero(x, y);
    ProductZero(a, Mul(x, y));
    DifferenceZero(w, m, s);
  }

  lemma DifferenceZero(w: C, m: C, s: C)
    ensures Sub(Sub(w, m), s) == ZERO <==> w == Add(m, s)
    ensures Add(Sub(w, m), s) == ZERO <==> w == Sub(m, s)
  {
  }

  lemma ProductZero(x: C, y: C)
    ensures Mul(x, y) == ZERO <==> x == ZERO || y == ZERO
  {
    if x != ZERO && y != ZERO {
      MulNonzero(x, y);
    }
  }

  // ----- Soundness of the enclosures -----

  lemma LinearSplit(x: C, y: C, l: C)
    ensures Sub(Scale(0.5, Sub(x, TimesI(y))), l) == Scale(0.5, Sub(Sub(x, l), TimesI(Sub(y, TimesI(l)))))
    ensures Scale(0.5, Add(x, TimesI(y))) == Scale(0.5, Add(Sub(x, l), TimesI(Sub(y, TimesI(l)))))
    ensures Sub(Scale(0.5, Add(x, TimesI(y))), l) == Scale(0.5, Add(Sub(x, l), TimesI(Sub(y, Neg(TimesI(l))))))
    ensures Scale(0.5, Sub(x, TimesI(y))) == Scale(0.5, Sub(Sub(x, l), TimesI(Sub(y, Neg(TimesI(l))))))
  {
  }

  lemma HalfBound(r: Roots, x: C, y: C, rx: real, ry: real)
    requires r.Valid() && r.Abs(x) <= rx && r.Abs(y) <= ry
    ensures r.Abs(Scale(0.5, Add(x, TimesI(y)))) <= (rx + ry) / 2.0
    ensures r.Abs(Scale(0.5, Sub(x, TimesI(y)))) <= (rx + ry) / 2.0
  {
    AbsNeg(r, y);
    AbsNeg(r, TimesI(y));
    Triangle(r, x, TimesI(y));
    Triangle(r, x, Neg(TimesI(y)));
    assert Sub(x, TimesI(y)) == Add(x, Neg(TimesI(y)));
    AbsScale(r, 0.5, Add(x, TimesI(y)));
    AbsScale(r, 0.5, Sub(x, TimesI(y)));
  }

  /** The active linear coefficient is within the linear radius of the true one, the inactive one of zero. */
  lemma LinearBounds(r: Roots, t: Truth, f: Fit, radii: Radii)
    requires r.Valid() && Explains(r, t, f, radii)
    ensures r.Abs(Sub(ActiveLinear(f, t.orientation), t.lambda)) <= radii.Linear()
    ensures r.Abs(InactiveLinear(f, t.orientation)) <= radii.Linear()
  {
    var target := if t.orientation == Holomorphic then TimesI(t.lambda) else Neg(TimesI(t.lambda));
    LinearSplit(f.lineX, f.lineY, t.lambda);
    HalfBound(r, Sub(f.lineX, t.lambda), Sub(f.lineY, target), radii.rx, radii.ry);
  }

  /** Under a truth that explains the fit the mismatch branch is never taken. */
  lemma NoMismatch(r: Roots, t: Truth, f: Fit, radii: Radii)
    requires r.Valid() && radii.Nonnegative() && Explains(r, t, f, radii) && Supports(r, f, t.orientation)
    ensures InferActive(r, f, radii, t.orientation).solution
      == Some(Solve(r, t.orientation, Active(f, t.orientation), ActiveLinear(f, t.orientation), f.c, radii))
    ensures InferActive(r, f, radii, t.orientation).status in {TwoRequired, OneNotExcluded}
  {
    LinearBounds(r, t, f, radii);
  }

  lemma CenterEnclosed(r: Roots, a: C, l: C, m: C, a': C, l': C, m': C, rl: real)
    requires r.Valid() && IsCenter(a, l, m) && IsCenter(a', l', m')
    requires r.Abs(Sub(a, a')) <= TOL && r.Abs(Sub(l, l')) <= rl && r.Abs(a) > FLOOR
    ensures r.Abs(Sub(m, m')) <= CenterRadius(r, a, m, rl)
  {
    CenterTriangle(r, a, l, m, a', l', m');
    CenterBound(r, a, l, m, a', l', m', TOL, rl);
  }

  function QuotientRadius(r: Roots, a: C, q: C, r0: real): real
    requires r.Abs(a) > FLOOR
  {
    (r0 + r.Abs(q) * TOL) / (r.Abs(a) - TOL)
  }

  lemma QuotientEnclosed(r: Roots, a: C, c: C, q: C, a': C, c': C, q': C, r0: real)
    requires r.Valid() && Mul(a, q) == c && Mul(a', q') == c'
    requires r.Abs(Sub(a, a')) <= TOL && r.Abs(Sub(c, c')) <= r0 && r.Abs(a) > FLOOR
    ensures r.Abs(Sub(q, q')) <= QuotientRadius(r, a, q, r0)
  {
    ConstantTriangle(r, a, c, q, a', c', q');
    ConstantBound(r, a, c, q, a', c', q', TOL, r0);
  }

  /** The estimated centre and discriminant, with their error bounds. */
  lemma CoreBounds(r: Roots, t: Truth, f: Fit, radii: Radii, m': C, s': C, q': C)
    requires r.Valid() && radii.Nonnegative() && Explains(r, t, f, radii) && Supports(r, f, t.orientation)
    requires IsVertex(t, m', s', q')
    ensures var a := Active(f, t.orientation);
      var m, q := CenterOf(r, a, ActiveLinear(f, t.orientation)), QuotientOf(r, a, f.c);
      var rm := CenterRadius(r, a, m, radii.Linear());
      && r.Abs(Sub(m, m')) <= rm
      && r.Abs(Sub(Sub(Mul(m, m), q), Sub(Mul(m', m'), q'))) <= DiscriminantRadius(r, a, m, q, rm, radii.r0)
  {
    var a, l := Active(f, t.orientation), ActiveLinear(f, t.orientation);
    LinearBounds(r, t, f, radii);
    CoreDisks(r, a, l, f.c, t.alpha, t.lambda, t.gamma, m', q', radii.Linear(), radii.r0);
  }

  lemma CoreDisks(r: Roots, a: C, l: C, c: C, a': C, l': C, c': C, m': C, q': C, rl: real, r0: real)
    requires r.Valid() && r.Abs(a) > FLOOR && IsCenter(a', l', m') && Mul(a', q') == c'
    requires r.Abs(Sub(a, a')) <= TOL && r.Abs(Sub(l, l')) <= rl && r.Abs(Sub(c, c')) <= r0
    ensures var m, q := CenterOf(r, a, l), QuotientOf(r, a, c);
      var rm := CenterRadius(r, a, m, rl);
      && r.Abs(Sub(m, m')) <= rm
      && r.Abs(Sub(Sub(Mul(m, m), q), Sub(Mul(m', m'), q'))) <= DiscriminantRadius(r, a, m, q, rm, r0)
  {
    var m, q := CenterOf(r, a, l), QuotientOf(r, a, c);
    CenterOfIsCenter(r, a, l);
    QuotientOfIsQuotient(r, a, c);
    CenterEnclosed(r, a, l, m, a', l', m', rl);
    QuotientEnclosed(r, a, c, q, a', c', q', r0);
    DiscriminantBound(r, m, q, m', q', CenterRadius(r, a, m, rl), QuotientRadius(r, a, q, r0));
  }

  lemma PhysicalDifference(r: Roots, o: Orientation, z: C, w: C)
    requires r.Valid()
    ensures r.Abs(Sub(Physical(o, z), Physical(o, w))) == r.Abs(Sub(z, w))
  {
    assert Sub(Conj(z), Conj(w)) == Conj(Sub(z, w));
    AbsNeg(r, Sub(z, w));
  }

  predicate Within(r: Roots, z: C, center: C, radius: real) { r.Abs(Sub(center, z)) <= radius }

  /** The midpoint of the true roots is the true centre, and their distance is twice a root of the discriminant. */
  ghost predicate AreTrueRoots(t: Truth, z1: C, z2: C) {
    exists m, s, q :: IsVertex(t, m, s, q)
      && z1 == Physical(t.orientation, Add(m, s)) && z2 == Physical(t.orientation, Sub(m, s))
  }

  lemma ShiftDifference(m: C, s: C, m': C, s': C)
    ensures Sub(Add(m, s), Add(m', s')) == Add(Sub(m, m'), Sub(s, s'))
    ensures Sub(Sub(m, s), Sub(m', s')) == Add(Sub(m, m'), Neg(Sub(s, s')))
    ensures Sub(Add(m, s), Sub(m', s')) == Add(Sub(m, m'), Add(s, s'))
    ensures Sub(Sub(m, s), Add(m', s')) == Add(Sub(m, m'), Neg(Add(s, s')))
  {
  }

  lemma DoubleRoot(m: C, s: C)
    ensures Sub(Add(m, s), Sub(m, s)) == Scale(2.0, s)
  {
  }

  lemma SumBound(r: Roots, x: C, y: C, rx: real, ry: real)
    requires r.Valid() && r.Abs(x) <= rx && r.Abs(y) <= ry
    ensures r.Abs(Add(x, y)) <= rx + ry && r.Abs(Add(x, Neg(y))) <= rx + ry
  {
    Triangle(r, x, y);
    Triangle(r, x, Neg(y));
    AbsNeg(r, y);
  }

  /** One pairing of the two estimated with the two true roots has both distances within the root radius. */
  ghost predicate Paired(r: Roots, p1: C, p2: C, z1: C, z2: C, radius: real) {
    || (Within(r, z1, p1, radius) && Within(r, z2, p2, radius))
    || (Within(r, z2, p1, radius) && Within(r, z1, p2, radius))
  }

  lemma RootsPaired(r: Roots, m: C, s: C, m': C, s': C, rm: real, rd: real)
    requires r.Valid() && rd >= 0.0 && r.Abs(Sub(m, m')) <= rm && r.Abs(Sub(Mul(s, s), Mul(s', s'))) <= rd
    ensures Paired(r, Add(m, s), Sub(m, s), Add(m', s'), Sub(m', s'), rm + r.sqrt(rd))
  {
    RootPairing(r, s, s', rd);
    ShiftDifference(m, s, m', s');
    if r.Abs(Sub(s, s')) <= r.sqrt(rd) {
      SumBound(r, Sub(m, m'), Sub(s, s'), rm, r.sqrt(rd));
    } else {
      SumBound(r, Sub(m, m'), Add(s, s'), rm, r.sqrt(rd));
    }
  }

  lemma PhysicalPaired(r: Roots, o: Orientation, p1: C, p2: C, z1: C, z2: C, radius: real)
    requires r.Valid() && Paired(r, p1, p2, z1, z2, radius)
    ensures Paired(r, Physical(o, p1), Physical(o, p2), Physical(o, z1), Physical(o, z2), radius)
  {
    PhysicalDifference(r, o, p1, z1);
    PhysicalDifference(r, o, p1, z2);
    PhysicalDifference(r, o, p2, z1);
    PhysicalDifference(r, o, p2, z2);
  }

  /**
   Enclosure soundness. For every truth that explains the fit, with true roots z1 and z2: their midpoint
   lies in the centre disk, their distance in the separation interval, and they can be paired with the
   estimated roots within the root radius.
   */
  lemma EnclosuresSound(r: Roots, t: Truth, f: Fit, radii: Radii, z1: C, z2: C)
    requires r.Valid() && radii.Nonnegative() && Explains(r, t, f, radii) && Supports(r, f, t.orientation)
    requires AreTrueRoots(t, z1, z2)
    ensures var sol := Solve(r, t.orientation, Active(f, t.orientation), ActiveLinear(f, t.orientation), f.c, radii);
      && Within(r, Scale(0.5, Add(z1, z2)), sol.center, sol.centerRadius)
      && sol.lower <= r.Abs(Sub(z1, z2)) <= sol.upper
      && Paired(r, sol.root1, sol.root2, z1, z2, sol.rootRadius)
  {
    var o := t.orientation;
    var m', s', q' :| IsVertex(t, m', s', q') && z1 == Physical(o, Add(m', s')) && z2 == Physical(o, Sub(m', s'));
    CoreBounds(r, t, f, radii, m', s', q');
    var a := Active(f, o);
    var m, q := CenterOf(r, a, ActiveLinear(f, o)), QuotientOf(r, a, f.c);
    var rm := CenterRadius(r, a, m, radii.Linear());
    RootEnclosures(r, o, m, Sub(Mul(m, m), q), rm, DiscriminantRadius(r, a, m, q, rm, radii.r0), m', s');
  }

  lemma HalfDifferenceSquared(o: Orientation, m: C, s: C)
    ensures var w := Physical(o, Sub(Physical(o, Add(m, s)), Physical(o, Sub(m, s))));
      Scale(0.25, Mul(w, w)) == Mul(s, s)
  {
    var w := Physical(o, Sub(Physical(o, Add(m, s)), Physical(o, Sub(m, s))));
    assert w == Scale(2.0, s);
    QuarterOfDoubleSquare(s);
  }

  lemma QuarterOfDoubleSquare(s: C)
    ensures Scale(0.25, Mul(Scale(2.0, s), Scale(2.0, s))) == Mul(s, s)
  {
  }

  /**
   The true discriminant, a quarter of the squared difference of the roots in the active variable, lies in its disk.
   */
  lemma DiscriminantEnclosed(r: Roots, t: Truth, f: Fit, radii: Radii, z1: C, z2: C)
    requires r.Valid() && radii.Nonnegative() && Explains(r, t, f, radii) && Supports(r, f, t.orientation)
    requires AreTrueRoots(t, z1, z2)
    ensures var sol := Solve(r, t.orientation, Active(f, t.orientation), ActiveLinear(f, t.orientation), f.c, radii);
      Within(r, TrueDiscriminant(t.orientation, z1, z2), sol.discriminant, sol.discriminantRadius)
  {
    var o := t.orientation;
    var m', s', q' :| IsVertex(t, m', s', q') && z1 == Physical(o, Add(m', s')) && z2 == Physical(o, Sub(m', s'));
    CoreBounds(r, t, f, radii, m', s', q');
    HalfDifferenceSquared(o, m', s');
  }

  function TrueDiscriminant(o: Orientation, z1: C, z2: C): C {
    var w := Physical(o, Sub(z1, z2));
    Scale(0.25, Mul(w, w))
  }

  /** Disks for the centre and the discriminant carry over to the roots. */
  lemma RootEnclosures(r: Roots, o: Orientation, m: C, d: C, rm: real, rd: real, m': C, s': C)
    requires r.Valid() && r.Abs(Sub(m, m')) <= rm && r.Abs(Sub(d, Mul(s', s'))) <= rd
    ensures var z1, z2 := Physical(o, Add(m', s')), Physical(o, Sub(m', s'));
      && Within(r, Scale(0.5, Add(z1, z2)), Physical(o, m), rm)
      && 2.0 * r.sqrt(Positive(r.Abs(d) - rd)) <= r.Abs(Sub(z1, z2)) <= 2.0 * r.sqrt(r.Abs(d) + rd)
      && Paired(r, Physical(o, Add(m, r.csqrt(d))), Physical(o, Sub(m, r.csqrt(d))), z1, z2, rm + r.sqrt(rd))
  {
    AbsNonnegative(r, Sub(d, Mul(s', s')));
    MidpointEnclosed(r, o, m, rm, m', s');
    SeparationEnclosed(r, o, d, rd, m', s');
    CsqrtSquare(r, d);
    RootsPaired(r, m, r.csqrt(d), m', s', rm, rd);
    PhysicalPaired(r, o, Add(m, r.csqrt(d)), Sub(m, r.csqrt(d)), Add(m', s'), Sub(m', s'), rm + r.sqrt(rd));
  }

  lemma MidpointEnclosed(r: Roots, o: Orientation, m: C, rm: real, m': C, s': C)
    requires r.Valid() && r.Abs(Sub(m, m')) <= rm
    ensures Within(r, Scale(0.5, Add(Physical(o, Add(m', s')), Physical(o, Sub(m', s')))), Physical(o, m), rm)
  {
    MidpointPhysical(o, m', s');
    PhysicalDifference(r, o, m, m');
  }

  lemma SeparationEnclosed(r: Roots, o: Orientation, d: C, rd: real, m': C, s': C)
    requires r.Valid() && r.Abs(Sub(d, Mul(s', s'))) <= rd
    ensures var z1, z2 := Physical(o, Add(m', s')), Physical(o, Sub(m', s'));
      2.0 * r.sqrt(Positive(r.Abs(d) - rd)) <= r.Abs(Sub(z1, z2)) <= 2.0 * r.sqrt(r.Abs(d) + rd)
  {
    SeparationBound(r, d, Mul(s', s'), s', rd);
    DoubleRoot(m', s');
    PhysicalDifference(r, o, Add(m', s'), Sub(m', s'));
  }

  lemma MidpointPhysical(o: Orientation, m: C, s: C)
    ensures Scale(0.5, Add(Physical(o, Add(m, s)), Physical(o, Sub(m, s)))) == Physical(o, m)
  {
  }

  /** The radii of a solution are nonnegative. */
  lemma RadiiNonnegative(r: Roots, o: Orientation, a: C, l: C, c: C, radii: Radii)
    requires r.Valid() && radii.Nonnegative() && r.Abs(a) > FLOOR
    ensures var s := Solve(r, o, a, l, c, radii);
      s.centerRadius >= 0.0 && s.discriminantRadius >= 0.0 && s.rootRadius >= s.centerRadius
  {
    var m, q := CenterOf(r, a, l), QuotientOf(r, a, c);
    AbsNonnegative(r, m);
    AbsNonnegative(r, q);
    CenterRadiusAtLeast(r, a, m, 0.0, radii.Linear());
    assert CenterRadius(r, a, m, 0.0) >= 0.0 by {
      QuotientNonnegative(0.0 + 2.0 * r.Abs(m) * TOL, 2.0 * (r.Abs(a) - TOL));
    }
    var rm := CenterRadius(r, a, m, radii.Linear());
    QuotientNonnegative(radii.r0 + r.Abs(q) * TOL, r.Abs(a) - TOL);
    assert 2.0 * r.Abs(m) * rm >= 0.0 && rm * rm >= 0.0;
    SqrtSquare(r, DiscriminantRadius(r, a, m, q, rm, radii.r0));
  }

  lemma QuotientNonnegative(num: real, den: real)
    requires num >= 0.0 && den > 0.0
    ensures num / den >= 0.0
  {
  }

  lemma CenterRadiusAtLeast(r: Roots, a: C, m: C, rl: real, rl': real)
    requires r.Abs(a) > FLOOR && rl <= rl'
    ensures CenterRadius(r, a, m, rl) <= CenterRadius(r, a, m, rl')
  {
    DivideMonotone(rl + 2.0 * r.Abs(m) * TOL, rl' + 2.0 * r.Abs(m) * TOL, 2.0 * (r.Abs(a) - TOL));
  }

  /** "Two required" proves two distinct true roots. */
  lemma TwoRequiredSound(r: Roots, t: Truth, f: Fit, radii: Radii, z1: C, z2: C)
    requires r.Valid() && radii.Nonnegative() && Explains(r, t, f, radii) && AreTrueRoots(t, z1, z2)
    requires Supports(r, f, t.orientation) && InferActive(r, f, radii, t.orientation).status == TwoRequired
    ensures z1 != z2
  {
    EnclosuresSound(r, t, f, radii, z1, z2);
    NoMismatch(r, t, f, radii);
    AbsNonnegative(r, Sub(z1, z2));
  }

  lemma SqrtPositive(r: Roots, x: real)
    requires r.Valid() && x > 0.0
    ensures r.sqrt(x) > 0.0
  {
    SqrtSquare(r, x);
    SquarePositive(r.sqrt(x), x);
  }

  lemma LargeRootLargeSquare(r: Roots, d: C, rd: real, rm: real)
    requires r.Valid() && rd >= 0.0 && rm >= 0.0 && r.Abs(r.csqrt(d)) > rm + r.sqrt(rd)
    ensures r.Abs(d) > rd && r.sqrt(Positive(r.Abs(d) - rd)) > 0.0
  {
    var t, u := r.Abs(r.csqrt(d)), r.sqrt(rd);
    AbsMul(r, r.csqrt(d), r.csqrt(d));
    CsqrtSquare(r, d);
    AbsNonnegative(r, r.csqrt(d));
    SqrtSquare(r, rd);
    SquareOrder(u, t, rd, r.Abs(d));
    SqrtPositive(r, r.Abs(d) - rd);
  }

  /** The distance of the estimated roots is twice the modulus of the estimated square root. */
  lemma EstimatedDistance(r: Roots, o: Orientation, m: C, s: C)
    requires r.Valid()
    ensures r.Abs(Sub(Physical(o, Add(m, s)), Physical(o, Sub(m, s)))) == 2.0 * r.Abs(s)
  {
    PhysicalDifference(r, o, Add(m, s), Sub(m, s));
    DoubleRoot(m, s);
    AbsScale(r, 2.0, s);
  }

  /** Disjoint root regions force "two required". */
  lemma DisjointForcesTwo(r: Roots, o: Orientation, a: C, l: C, c: C, radii: Radii)
    requires r.Valid() && radii.Nonnegative() && r.Abs(a) > FLOOR
    requires Solve(r, o, a, l, c, radii).disjoint
    ensures Solve(r, o, a, l, c, radii).lower > 0.0
  {
    var sol := Solve(r, o, a, l, c, radii);
    RadiiNonnegative(r, o, a, l, c, radii);
    EstimatedDistance(r, o, CenterOf(r, a, l), r.csqrt(sol.discriminant));
    LargeRootLargeSquare(r, sol.discriminant, sol.discriminantRadius, sol.centerRadius);
  }

  lemma DisjointDisks(r: Roots, p1: C, p2: C, z: C, radius: real)
    requires r.Valid() && r.Abs(Sub(p1, p2)) > 2.0 * radius
    ensures !(Within(r, z, p1, radius) && Within(r, z, p2, radius))
  {
    assert Sub(p1, p2) == Add(Sub(p1, z), Neg(Sub(p2, z)));
    Triangle(r, Sub(p1, z), Neg(Sub(p2, z)));
    AbsNeg(r, Sub(p2, z));
  }

  /** Each root region holds exactly one of the two roots, and not the same one. */
  ghost predicate Isolates(r: Roots, s: Solution, z1: C, z2: C) {
    && (Within(r, z1, s.root1, s.rootRadius) <==> !Within(r, z2, s.root1, s.rootRadius))
    && (Within(r, z1, s.root2, s.rootRadius) <==> !Within(r, z2, s.root2, s.rootRadius))
    && (Within(r, z1, s.root1, s.rootRadius) <==> Within(r, z2, s.root2, s.rootRadius))
  }

  /**
   Root localisation: when the root regions are reported disjoint, the status is "two required" and
   each region holds exactly one of the two true roots.
   */
  lemma DisjointRegionsIsolate(r: Roots, t: Truth, f: Fit, radii: Radii, z1: C, z2: C)
    requires r.Valid() && radii.Nonnegative() && Explains(r, t, f, radii) && AreTrueRoots(t, z1, z2)
    requires Supports(r, f, t.orientation)
    requires Solve(r, t.orientation, Active(f, t.orientation), ActiveLinear(f, t.orientation), f.c, radii).disjoint
    ensures InferActive(r, f, radii, t.orientation).status == TwoRequired
    ensures var sol := Solve(r, t.orientation, Active(f, t.orientation), ActiveLinear(f, t.orientation), f.c, radii);
      Isolates(r, sol, z1, z2)
  {
    var o, a, l := t.orientation, Active(f, t.orientation), ActiveLinear(f, t.orientation);
    var sol := Solve(r, o, a, l, f.c, radii);
    EnclosuresSound(r, t, f, radii, z1, z2);
    NoMismatch(r, t, f, radii);
    DisjointForcesTwo(r, o, a, l, f.c, radii);
    DisjointDisks(r, sol.root1, sol.root2, z1, sol.rootRadius);
    DisjointDisks(r, sol.root1, sol.root2, z2, sol.rootRadius);
  }

  // ----- The affine branch -----

  /** The domain. */
  predicate OnSquare(z: C) { -1.0 <= z.re <= 1.0 && -1.0 <= z.im <= 1.0 }

  function AffineField(c: C, x: C, y: C, z: C): C { Add(Add(c, Scale(z.re, x)), Scale(z.im, y)) }

  lemma AbsScaleUnit(r: Roots, t: real, z: C)
    requires r.Valid() && -1.0 <= t <= 1.0
    ensures r.Abs(Scale(t, z)) <= r.Abs(z)
  {
    AbsNonnegative(r, z);
    var u := if t >= 0.0 then t else -t;
    assert t < 0.0 ==> Scale(t, z) == Neg(Scale(u, z));
    AbsNeg(r, Scale(u, z));
    AbsScale(r, u, z);
    ScaleBound(u, 1.0, r.Abs(z));
    assert r.Abs(Scale(t, z)) == r.Abs(Scale(u, z));
  }

  /** "Nonzero, no core": every affine field in the error disks stays above the floor on the whole domain. */
  lemma NoCoreSound(r: Roots, f: Fit, radii: Radii, c: C, x: C, y: C, z: C)
    requires r.Valid() && Infer(r, f, radii) == Some(Readout(NonzeroNoCore, None, None))
    requires r.Abs(Sub(f.c, c)) <= radii.r0 && r.Abs(Sub(f.lineX, x)) <= radii.rx && r.Abs(Sub(f.lineY, y)) <= radii.ry
    requires OnSquare(z)
    ensures r.Abs(AffineField(c, x, y, z)) > FLOOR
  {
    AbsDifference(r, f.c, c, radii.r0);
    AbsDifference(r, f.lineX, x, radii.rx);
    AbsDifference(r, f.lineY, y, radii.ry);
    AbsScaleUnit(r, z.re, x);
    AbsScaleUnit(r, z.im, y);
    var u, v := Scale(z.re, x), Scale(z.im, y);
    var value := AffineField(c, x, y, z);
    assert c == Add(Add(value, Neg(u)), Neg(v));
    Triangle(r, Add(value, Neg(u)), Neg(v));
    Triangle(r, value, Neg(u));
    AbsNeg(r, u);
    AbsNeg(r, v);
  }

  /** An affine field explains the fit: no curvature, no held-out error, and coefficients in the error disks. */
  ghost predicate ExplainsAffine(r: Roots, f: Fit, radii: Radii, c: C, x: C, y: C) {
    && f.heldoutError <= TOL
    && r.Abs(CurvatureA(f)) <= TOL && r.Abs(CurvatureB(f)) <= TOL && r.Abs(CurvatureC(f)) <= TOL
    && r.Abs(Sub(f.c, c)) <= radii.r0 && r.Abs(Sub(f.lineX, x)) <= radii.rx && r.Abs(Sub(f.lineY, y)) <= radii.ry
  }

  ghost predicate VanishesOnSquare(c: C, x: C, y: C) {
    forall z :: OnSquare(z) ==> AffineField(c, x, y, z) == ZERO
  }

  lemma VanishingIsZero(c: C, x: C, y: C)
    ensures VanishesOnSquare(c, x, y) <==> c == ZERO && x == ZERO && y == ZERO
  {
    if VanishesOnSquare(c, x, y) {
      assert AffineField(c, x, y, C(0.0, 0.0)) == c;
      assert AffineField(c, x, y, C(1.0, 0.0)) == Add(c, x);
      assert AffineField(c, x, y, C(0.0, 1.0)) == Add(c, y);
    } else {
      assert forall z :: AffineField(ZERO, ZERO, ZERO, z) == ZERO;
    }
  }

  lemma ZeroFieldReported(r: Roots, f: Fit, radii: Radii)
    requires r.Valid()
    ensures Infer(r, f, radii).Some? && Infer(r, f, radii).value.status == ZeroCompatible <==>
      radii.Nonnegative() && ExplainsAffine(r, f, radii, ZERO, ZERO, ZERO)
  {
    assert Sub(f.c, ZERO) == f.c && Sub(f.lineX, ZERO) == f.lineX && Sub(f.lineY, ZERO) == f.lineY;
  }

  /** Some field that vanishes on the whole domain explains the fit. */
  ghost predicate VanishingExplains(r: Roots, f: Fit, radii: Radii) {
    exists c, x, y :: ExplainsAffine(r, f, radii, c, x, y) && VanishesOnSquare(c, x, y)
  }

  /** "Zero compatible" is reported exactly when a field that vanishes on the whole domain explains the fit. */
  lemma ZeroCompatibleExact(r: Roots, f: Fit, radii: Radii)
    requires r.Valid()
    ensures Infer(r, f, radii).Some? && Infer(r, f, radii).value.status == ZeroCompatible <==>
      radii.Nonnegative() && VanishingExplains(r, f, radii)
  {
    ZeroFieldReported(r, f, radii);
    VanishingIsZero(ZERO, ZERO, ZERO);
    if VanishingExplains(r, f, radii) {
      var c, x, y :| ExplainsAffine(r, f, radii, c, x, y) && VanishesOnSquare(c, x, y);
      VanishingIsZero(c, x, y);
    }
  }

  /**
   An affine truth gets one of the three affine statuses, and never "nonzero, no core" when it comes down to the
   floor anywhere on the domain.
   */
  lemma AffineTruthReported(r: Roots, f: Fit, radii: Radii, c: C, x: C, y: C)
    requires r.Valid() && radii.Nonnegative() && ExplainsAffine(r, f, radii, c, x, y)
    ensures Infer(r, f, radii).Some?
    ensures Infer(r, f, radii).value.status in {ZeroCompatible, NonzeroNoCore, AffineUnresolved}
    ensures Infer(r, f, radii).value.orientation.None?
    ensures (exists z :: OnSquare(z) && r.Abs(AffineField(c, x, y, z)) <= FLOOR) ==>
      Infer(r, f, radii).value.status != NonzeroNoCore
    ensures VanishesOnSquare(c, x, y) ==> Infer(r, f, radii).value.status == ZeroCompatible
  {
    ZeroCompatibleExact(r, f, radii);
    if z :| OnSquare(z) && r.Abs(AffineField(c, x, y, z)) <= FLOOR {
      if Infer(r, f, radii).value.status == NonzeroNoCore {
        NoCoreSound(r, f, radii, c, x, y, z);
        assert false;
      }
    }
  }

  // ----- Larger radii -----

  lemma DiscriminantRadiusMonotone(r: Roots, a: C, m: C, q: C, rm: real, rm': real, r0: real, r0': real)
    requires r.Valid() && r.Abs(a) > FLOOR && 0.0 <= rm <= rm' && r0 <= r0'
    ensures DiscriminantRadius(r, a, m, q, rm, r0) <= DiscriminantRadius(r, a, m, q, rm', r0')
  {
    AbsNonnegative(r, m);
    DivideMonotone(r0 + r.Abs(q) * TOL, r0' + r.Abs(q) * TOL, r.Abs(a) - TOL);
    ProductBound(rm, rm', rm, rm');
    ProductBound(2.0 * r.Abs(m), 2.0 * r.Abs(m), rm, rm');
  }

  /** Enlarging the error radii never shrinks an enclosure, and never turns "one not excluded" into "two required". */
  lemma RadiusMonotone(r: Roots, f: Fit, o: Orientation, radii: Radii, wider: Radii)
    requires r.Valid() && radii.Nonnegative() && Supports(r, f, o)
    requires radii.r0 <= wider.r0 && radii.rx <= wider.rx && radii.ry <= wider.ry
    requires InferActive(r, f, radii, o).solution.Some?
    ensures InferActive(r, f, wider, o).solution.Some?
    ensures var s, w := InferActive(r, f, radii, o).solution.value, InferActive(r, f, wider, o).solution.value;
      && w.center == s.center && w.discriminant == s.discriminant
      && s.centerRadius <= w.centerRadius && s.discriminantRadius <= w.discriminantRadius
      && w.lower <= s.lower && s.upper <= w.upper && s.rootRadius <= w.rootRadius
    ensures InferActive(r, f, wider, o).status == TwoRequired ==> InferActive(r, f, radii, o).status == TwoRequired
  {
    var a, l := Active(f, o), ActiveLinear(f, o);
    var m, q := CenterOf(r, a, l), QuotientOf(r, a, f.c);
    var rm, rm' := CenterRadius(r, a, m, radii.Linear()), CenterRadius(r, a, m, wider.Linear());
    CenterRadiusAtLeast(r, a, m, radii.Linear(), wider.Linear());
    RadiiNonnegative(r, o, a, l, f.c, radii);
    DiscriminantRadiusMonotone(r, a, m, q, rm, rm', radii.r0, wider.r0);
    var d := r.Abs(Sub(Mul(m, m), q));
    var rd, rd' := DiscriminantRadius(r, a, m, q, rm, radii.r0), DiscriminantRadius(r, a, m, q, rm', wider.r0);
    AbsNonnegative(r, Sub(Mul(m, m), q));
    SqrtOrder(r, Positive(d - rd'), Positive(d - rd));
    SqrtOrder(r, d + rd, d + rd');
    SqrtOrder(r, rd, rd');
  }

  /** Every truth that explains a supported fit has two roots, and they are exactly the zeros of its field. */
  lemma TrueRootsAreZeros(r: Roots, t: Truth, f: Fit, radii: Radii) returns (z1: C, z2: C)
    requires r.Valid() && Explains(r, t, f, radii) && Supports(r, f, t.orientation)
    ensures AreTrueRoots(t, z1, z2)
    ensures forall z :: t.Field(z) == ZERO <==> z == z1 || z == z2
  {
    LeadingAwayFromZero(r, Active(f, t.orientation), t.alpha, TOL);
    var m, s, q := VertexExists(r, t);
    z1, z2 := Physical(t.orientation, Add(m, s)), Physical(t.orientation, Sub(m, s));
    forall z
      ensures t.Field(z) == ZERO <==> z == z1 || z == z2
    {
      ZerosAreRoots(t, m, s, q, z);
    }
  }

  // ----- Orientation -----

  function Flip(o: Orientation): Orientation { if o == Holomorphic then Antiholomorphic else Holomorphic }

  /** An orientation is reported exactly when the residual is in family and that orientation is supported. */
  lemma OrientationReported(r: Roots, f: Fit, radii: Radii, o: Orientation)
    requires r.Valid()
    ensures Infer(r, f, radii).Some? && Infer(r, f, radii).value.orientation == Some(o) <==>
      radii.Nonnegative() && f.heldoutError <= TOL && Supports(r, f, o)
    ensures radii.Nonnegative() && f.heldoutError <= TOL && Supports(r, f, o) ==>
      Infer(r, f, radii) == Some(InferActive(r, f, radii, o))
  {
  }

  /** A readout with a solution that encloses the two roots, and tells them apart as far as it claims to. */
  ghost predicate Encloses(r: Roots, readout: Readout, o: Orientation, z1: C, z2: C) {
    && readout.status in {TwoRequired, OneNotExcluded} && readout.orientation == Some(o) && readout.solution.Some?
    && var s := readout.solution.value;
      && Within(r, Scale(0.5, Add(z1, z2)), s.center, s.centerRadius)
      && Within(r, TrueDiscriminant(o, z1, z2), s.discriminant, s.discriminantRadius)
      && s.lower <= r.Abs(Sub(z1, z2)) <= s.upper
      && Paired(r, s.root1, s.root2, z1, z2, s.rootRadius)
      && (readout.status == TwoRequired ==> z1 != z2)
      && (s.disjoint ==> readout.status == TwoRequired && Isolates(r, s, z1, z2))
  }

  /**
   The main theorem of the inference, read off its public result: for every truth of the reported
   orientation that explains the fit, the readout encloses it.
   */
  lemma InferenceSound(r: Roots, t: Truth, f: Fit, radii: Radii, z1: C, z2: C)
    requires r.Valid() && Infer(r, f, radii).Some? && Infer(r, f, radii).value.orientation == Some(t.orientation)
    requires Explains(r, t, f, radii) && AreTrueRoots(t, z1, z2)
    ensures Encloses(r, Infer(r, f, radii).value, t.orientation, z1, z2)
  {
    var o := t.orientation;
    OrientationReported(r, f, radii, o);
    NoMismatch(r, t, f, radii);
    EnclosuresSound(r, t, f, radii, z1, z2);
    DiscriminantEnclosed(r, t, f, radii, z1, z2);
    if InferActive(r, f, radii, o).status == TwoRequired {
      TwoRequiredSound(r, t, f, radii, z1, z2);
    }
    if Solve(r, o, Active(f, o), ActiveLinear(f, o), f.c, radii).disjoint {
      DisjointRegionsIsolate(r, t, f, radii, z1, z2);
    }
  }

  /** The fit of a truth of the family: no held-out error, and no curvature besides the active one. */
  ghost predicate FitsFamily(r: Roots, t: Truth, f: Fit, radii: Radii) {
    && Explains(r, t, f, radii) && f.heldoutError <= TOL
    && r.Abs(Active(f, Flip(t.orientation))) <= TOL && r.Abs(CurvatureC(f)) <= TOL
  }

  /**
   A truth of the family whose leading coefficient clears the floor by the margin is reported with its own orientation,
   and the readout encloses its two roots, which are exactly the zeros of its field.
   */
  lemma TruthReported(r: Roots, t: Truth, f: Fit, radii: Radii) returns (z1: C, z2: C)
    requires r.Valid() && radii.Nonnegative() && FitsFamily(r, t, f, radii) && r.Abs(t.alpha) > FLOOR + TOL
    ensures Infer(r, f, radii).Some? && Encloses(r, Infer(r, f, radii).value, t.orientation, z1, z2)
    ensures forall z :: t.Field(z) == ZERO <==> z == z1 || z == z2
  {
    AbsDifference(r, Active(f, t.orientation), t.alpha, TOL);
    OrientationReported(r, f, radii, t.orientation);
    z1, z2 := TrueRootsAreZeros(r, t, f, radii);
    InferenceSound(r, t, f, radii, z1, z2);
  }

  // ----- Conjugation -----

  /** The fit of the conjugated residual. */
  function ConjFit(f: Fit): Fit {
    Fit(Conj(f.c), Conj(f.lineX), Conj(f.lineY), Conj(f.qxx), Conj(f.qxy), Conj(f.qyy), f.heldoutError)
  }

  lemma ConjugateCoefficients(f: Fit, o: Orientation)
    ensures CurvatureA(ConjFit(f)) == Conj(CurvatureB(f)) && CurvatureB(ConjFit(f)) == Conj(CurvatureA(f))
    ensures CurvatureC(ConjFit(f)) == Conj(CurvatureC(f))
    ensures Active(ConjFit(f), Flip(o)) == Conj(Active(f, o))
    ensures ActiveLinear(ConjFit(f), Flip(o)) == Conj(ActiveLinear(f, o))
    ensures InactiveLinear(ConjFit(f), Flip(o)) == Conj(InactiveLinear(f, o))
  {
  }

  lemma ConjugateQuotient(z: C, w: C)
    requires w != ZERO
    ensures Conj(w) != ZERO && Div(Conj(z), Conj(w)) == Conj(Div(z, w))
  {
    assert Conj(Conj(w)) == w;
    assert NormSq(Conj(w)) == NormSq(w);
    NormSqPositive(w);
    var t := Mul(z, Conj(w));
    assert Mul(Conj(z), Conj(Conj(w))) == Conj(t);
    NegatedQuotient(t.im, NormSq(w));
  }

  lemma NegatedQuotient(x: real, n: real)
    requires n > 0.0
    ensures (-x) / n == -(x / n)
  {
  }

  lemma ConjugateCore(r: Roots, a: C, l: C, c: C)
    requires r.Valid() && r.Abs(a) > FLOOR
    ensures r.Abs(Conj(a)) == r.Abs(a)
    ensures CenterOf(r, Conj(a), Conj(l)) == Conj(CenterOf(r, a, l))
    ensures QuotientOf(r, Conj(a), Conj(c)) == Conj(QuotientOf(r, a, c))
  {
    AbsNeg(r, a);
    ActiveNonzero(r, a);
    ActiveNonzero(r, Conj(a));
    assert Scale(2.0, Conj(a)) == Conj(Scale(2.0, a)) && Neg(Conj(l)) == Conj(Neg(l));
    ConjugateQuotient(Neg(l), Scale(2.0, a));
    ConjugateQuotient(c, a);
  }

  /** Two square roots of one number agree up to sign. */
  lemma SquareRootsAgree(s: C, u: C)
    requires Mul(s, s) == Mul(u, u)
    ensures s == u || s == Neg(u)
  {
    SquaresFactor(s, u);
    ProductZero(Sub(s, u), Add(s, u));
    assert Sub(s, u) == ZERO ==> s == u;
    assert Add(s, u) == ZERO ==> s == Neg(u);
  }

  lemma ConjugateRoots(r: Roots, d: C)
    requires r.Valid()
    ensures r.csqrt(Conj(d)) == Conj(r.csqrt(d)) || r.csqrt(Conj(d)) == Neg(Conj(r.csqrt(d)))
  {
    CsqrtSquare(r, d);
    CsqrtSquare(r, Conj(d));
    var s := r.csqrt(d);
    assert Mul(Conj(s), Conj(s)) == Conj(Mul(s, s));
    SquareRootsAgree(r.csqrt(Conj(d)), Conj(s));
  }

  /** Conjugation swaps the roles of the roots at most. */
  ghost predicate SameUpToOrder(s: Solution, w: Solution) {
    && w.center == s.center && w.centerRadius == s.centerRadius
    && w.discriminant == Conj(s.discriminant) && w.discriminantRadius == s.discriminantRadius
    && w.lower == s.lower && w.upper == s.upper && w.rootRadius == s.rootRadius && w.disjoint == s.disjoint
    && ((w.root1 == s.root1 && w.root2 == s.root2) || (w.root1 == s.root2 && w.root2 == s.root1))
  }

  lemma PhysicalOfConjugate(o: Orientation, m: C, s: C, u: C)
    requires u == Conj(s) || u == Neg(Conj(s))
    ensures Physical(Flip(o), Conj(m)) == Physical(o, m)
    ensures
      || (Physical(Flip(o), Add(Conj(m), u)) == Physical(o, Add(m, s))
          && Physical(Flip(o), Sub(Conj(m), u)) == Physical(o, Sub(m, s)))
      || (Physical(Flip(o), Add(Conj(m), u)) == Physical(o, Sub(m, s))
          && Physical(Flip(o), Sub(Conj(m), u)) == Physical(o, Add(m, s)))
  {
  }

  lemma ConjugateSolutionFrom(r: Roots, o: Orientation, m: C, d: C, rm: real, rd: real)
    requires r.Valid()
    ensures SameUpToOrder(SolutionFrom(r, o, m, d, rm, rd), SolutionFrom(r, Flip(o), Conj(m), Conj(d), rm, rd))
  {
    AbsNeg(r, d);
    ConjugateRoots(r, d);
    var s := r.csqrt(d);
    PhysicalOfConjugate(o, m, s, r.csqrt(Conj(d)));
    var p1, p2 := Physical(o, Add(m, s)), Physical(o, Sub(m, s));
    AbsDifference(r, p1, p2, r.Abs(Sub(p1, p2)));
  }

  lemma ConjugateRadii(r: Roots, a: C, m: C, q: C, rl: real, r0: real)
    requires r.Valid() && r.Abs(a) > FLOOR
    ensures r.Abs(Conj(a)) == r.Abs(a)
    ensures CenterRadius(r, Conj(a), Conj(m), rl) == CenterRadius(r, a, m, rl)
    ensures var rm := CenterRadius(r, a, m, rl);
      DiscriminantRadius(r, Conj(a), Conj(m), Conj(q), rm, r0) == DiscriminantRadius(r, a, m, q, rm, r0)
  {
    AbsNeg(r, a);
    AbsNeg(r, m);
    AbsNeg(r, q);
  }

  lemma ConjugateSolve(r: Roots, o: Orientation, a: C, l: C, c: C, radii: Radii)
    requires r.Valid() && r.Abs(a) > FLOOR
    ensures r.Abs(Conj(a)) > FLOOR
    ensures SameUpToOrder(Solve(r, o, a, l, c, radii), Solve(r, Flip(o), Conj(a), Conj(l), Conj(c), radii))
  {
    ConjugateCore(r, a, l, c);
    var m, q := CenterOf(r, a, l), QuotientOf(r, a, c);
    ConjugateRadii(r, a, m, q, radii.Linear(), radii.r0);
    var rm := CenterRadius(r, a, m, radii.Linear());
    ConjugateSolutionFrom(r, o, m, Sub(Mul(m, m), q), rm, DiscriminantRadius(r, a, m, q, rm, radii.r0));
    ConjugateDiscriminant(m, q);
  }

  lemma ConjugateDiscriminant(m: C, q: C)
    ensures Sub(Mul(Conj(m), Conj(m)), Conj(q)) == Conj(Sub(Mul(m, m), q))
  {
    NegatedProducts(m.re, m.im);
  }

  lemma NegatedProducts(x: real, y: real)
    ensures (-y) * (-y) == y * y
    ensures x * (-y) == -(x * y) && (-y) * x == -(y * x)
  {
  }

  lemma ConjugateSupports(r: Roots, f: Fit, o: Orientation)
    requires r.Valid()
    ensures Supports(r, ConjFit(f), Flip(o)) <==> Supports(r, f, o)
  {
    ConjugateCoefficients(f, o);
    AbsNeg(r, CurvatureA(f));
    AbsNeg(r, CurvatureB(f));
    AbsNeg(r, CurvatureC(f));
  }

  /** The orientation swapped, everything else kept. */
  ghost predicate Conjugated(x: Readout, y: Readout) {
    && y.status == x.status
    && y.orientation == (if x.orientation.Some? then Some(Flip(x.orientation.value)) else None)
    && (y.solution.Some? <==> x.solution.Some?)
    && (x.solution.Some? ==> SameUpToOrder(x.solution.value, y.solution.value))
  }

  lemma ConjugateActive(r: Roots, f: Fit, radii: Radii, o: Orientation)
    requires r.Valid() && Supports(r, f, o)
    ensures Supports(r, ConjFit(f), Flip(o))
    ensures Conjugated(InferActive(r, f, radii, o), InferActive(r, ConjFit(f), radii, Flip(o)))
  {
    ConjugateSupports(r, f, o);
    ConjugateCoefficients(f, o);
    AbsNeg(r, InactiveLinear(f, o));
    ConjugateSolve(r, o, Active(f, o), ActiveLinear(f, o), f.c, radii);
  }

  /**
   Conjugating the residual swaps the orientation and keeps status, centre, radii, interval and root set, in every
   branch.
   */
  lemma ConjugationSymmetry(r: Roots, f: Fit, radii: Radii)
    requires r.Valid()
    ensures Infer(r, ConjFit(f), radii).Some? <==> Infer(r, f, radii).Some?
    ensures Infer(r, f, radii).Some? ==> Conjugated(Infer(r, f, radii).value, Infer(r, ConjFit(f), radii).value)
  {
    ConjugateSupports(r, f, Holomorphic);
    ConjugateSupports(r, f, Antiholomorphic);
    if Supports(r, f, Holomorphic) {
      ConjugateOriented(r, f, radii, Holomorphic);
    } else if Supports(r, f, Antiholomorphic) {
      ConjugateOriented(r, f, radii, Antiholomorphic);
    } else {
      ConjugateUnsupported(r, f, radii);
    }
  }

  lemma ConjugateOriented(r: Roots, f: Fit, radii: Radii, o: Orientation)
    requires r.Valid() && Supports(r, f, o)
    ensures Infer(r, ConjFit(f), radii).Some? <==> Infer(r, f, radii).Some?
    ensures Infer(r, f, radii).Some? ==> Conjugated(Infer(r, f, radii).value, Infer(r, ConjFit(f), radii).value)
  {
    ConjugateActive(r, f, radii, o);
    OrientationReported(r, f, radii, o);
    OrientationReported(r, ConjFit(f), radii, Flip(o));
  }

  /** Without a supported orientation: the affine and the out-of-family statuses. */
  lemma ConjugateUnsupported(r: Roots, f: Fit, radii: Radii)
    requires r.Valid() && !Supports(r, f, Holomorphic) && !Supports(r, f, Antiholomorphic)
    requires !Supports(r, ConjFit(f), Holomorphic) && !Supports(r, ConjFit(f), Antiholomorphic)
    ensures Infer(r, ConjFit(f), radii).Some? <==> Infer(r, f, radii).Some?
    ensures Infer(r, f, radii).Some? ==> Conjugated(Infer(r, f, radii).value, Infer(r, ConjFit(f), radii).value)
  {
    ConjugateCoefficients(f, Holomorphic);
    AbsNeg(r, CurvatureA(f));
    AbsNeg(r, CurvatureB(f));
    AbsNeg(r, CurvatureC(f));
    AbsNeg(r, f.c);
    AbsNeg(r, f.lineX);
    AbsNeg(r, f.lineY);
  }
}
