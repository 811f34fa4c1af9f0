/** When each answer of the inference is given: statuses, intervals and radii are exactly what the error disks force. */
module InferenceExact {
  import opened Basics
  import opened Complex
  import opened Modulus
  import opened QuadraticBounds
  import opened CenterIdentifiability

  // ----- Directions -----

  /** A number of modulus one in the direction of z. */
  function Unit(r: Roots, z: C): C
    requires r.Valid()
  {
    AbsNonnegative(r, z);
    if z == ZERO then C(1.0, 0.0) else Scale(1.0 / r.Abs(z), z)
  }

  lemma UnitDirection(r: Roots, z: C)
    requires r.Valid()
    ensures r.Abs(Unit(r, z)) == 1.0 && Scale(r.Abs(z), Unit(r, z)) == z
  {
    AbsNonnegative(r, z);
    if z == ZERO {
      AbsReal(r, 1.0);
    } else {
      var n := r.Abs(z);
      ReciprocalPositive(n);
      AbsScale(r, 1.0 / n, z);
      ScaleTwice(n, 1.0 / n, z);
    }
  }

  lemma ReciprocalPositive(n: real)
    requires n > 0.0
    ensures 1.0 / n > 0.0 && (1.0 / n) * n == 1.0 && n * (1.0 / n) == 1.0
  {
  }

  lemma ScaleTwice(s: real, t: real, z: C)
    requires s * t == 1.0
    ensures Scale(s, Scale(t, z)) == z
  {
    assert s * (t * z.re) == (s * t) * z.re && s * (t * z.im) == (s * t) * z.im;
  }

  /** Multiples of one direction are as far apart as their factors. */
  lemma AlongDirection(r: Roots, u: C, s: real, t: real)
    requires r.Valid() && r.Abs(u) == 1.0
    ensures Sub(Scale(s, u), Scale(t, u)) == Scale(s - t, u)
    ensures r.Abs(Scale(s - t, u)) == if s >= t then s - t else t - s
    ensures s >= 0.0 ==> r.Abs(Scale(s, u)) == s
  {
    if s >= t {
      AbsScale(r, s - t, u);
    } else {
      AbsScale(r, t - s, u);
      assert Scale(s - t, u) == Neg(Scale(t - s, u));
      AbsNeg(r, Scale(t - s, u));
    }
    if s >= 0.0 {
      AbsScale(r, s, u);
    }
  }

  // ----- Two required -----

  /** The distance of the two roots that a discriminant gives. */
  function Separation(r: Roots, d: C): real { r.Abs(Scale(2.0, r.csqrt(d))) }

  lemma SeparationOfModulus(r: Roots, d: C)
    requires r.Valid()
    ensures Separation(r, d) == 2.0 * r.sqrt(r.Abs(d))
  {
    SubSelf(r, d);
    CsqrtSquare(r, d);
    SeparationBound(r, d, d, r.csqrt(d), 0.0);
    AbsNonnegative(r, d);
  }

  lemma SubSelf(r: Roots, d: C)
    requires r.Valid()
    ensures r.Abs(Sub(d, d)) == 0.0
  {
    AbsNonnegative(r, Sub(d, d));
  }

  /** The point of a disk nearest to the origin, and the one furthest from it. */
  function Nearest(r: Roots, center: C, radius: real): C
    requires r.Valid()
  {
    Scale(Positive(r.Abs(center) - radius), Unit(r, center))
  }

  function Furthest(r: Roots, center: C, radius: real): C
    requires r.Valid()
  {
    Scale(r.Abs(center) + radius, Unit(r, center))
  }

  lemma DiskExtremes(r: Roots, center: C, radius: real)
    requires r.Valid() && radius >= 0.0
    ensures Within(r, Nearest(r, center, radius), center, radius)
    ensures r.Abs(Nearest(r, center, radius)) == Positive(r.Abs(center) - radius)
    ensures Within(r, Furthest(r, center, radius), center, radius)
    ensures r.Abs(Furthest(r, center, radius)) == r.Abs(center) + radius
  {
    var n, u := r.Abs(center), Unit(r, center);
    AbsNonnegative(r, center);
    UnitDirection(r, center);
    AlongDirection(r, u, n, Positive(n - radius));
    AlongDirection(r, u, n, n + radius);
    AlongDirection(r, u, Positive(n - radius), 0.0);
    AlongDirection(r, u, n + radius, 0.0);
  }

  /** The readout of a supported orientation without a mismatch. */
  predicate Solved(r: Roots, f: Fit, radii: Radii, o: Orientation)
    requires r.Valid()
  {
    radii.Nonnegative() && Supports(r, f, o) && InferActive(r, f, radii, o).solution.Some?
  }

  lemma SolvedRadii(r: Roots, f: Fit, radii: Radii, o: Orientation)
    requires r.Valid() && Solved(r, f, radii, o)
    ensures var s := InferActive(r, f, radii, o).solution.value;
      s.centerRadius >= 0.0 && s.discriminantRadius >= 0.0 && s.rootRadius >= 0.0
  {
    RadiiNonnegative(r, o, Active(f, o), ActiveLinear(f, o), f.c, radii);
  }

  /** The lower end of the interval is positive exactly when the disk of the discriminant leaves out zero. */
  lemma LowerPositive(r: Roots, d: C, rd: real)
    requires r.Valid() && rd >= 0.0
    ensures 2.0 * r.sqrt(Positive(r.Abs(d) - rd)) > 0.0 <==> forall e :: Within(r, e, d, rd) ==> e != ZERO
  {
    SqrtSquare(r, Positive(r.Abs(d) - rd));
    assert Sub(d, ZERO) == d;
    if r.Abs(d) > rd {
      SqrtPositive(r, r.Abs(d) - rd);
    } else {
      assert Within(r, ZERO, d, rd);
      SqrtOfZero(r);
    }
  }

  lemma SqrtOfZero(r: Roots)
    requires r.Valid()
    ensures r.sqrt(0.0) == 0.0
  {
    SqrtSquare(r, 0.0);
    SquarePositive(r.sqrt(0.0), 0.0);
  }

  /** "Two required" is reported exactly when no discriminant in the disk is zero. */
  lemma TwoRequiredExact(r: Roots, f: Fit, radii: Radii, o: Orientation)
    requires r.Valid() && Solved(r, f, radii, o)
    ensures var x := InferActive(r, f, radii, o);
      x.status == TwoRequired <==>
        forall d :: Within(r, d, x.solution.value.discriminant, x.solution.value.discriminantRadius) ==> d != ZERO
  {
    SolvedRadii(r, f, radii, o);
    var s := InferActive(r, f, radii, o).solution.value;
    LowerPositive(r, s.discriminant, s.discriminantRadius);
  }

  /** The interval is the exact range of the root separations over the disk of the discriminant. */
  lemma SeparationRange(r: Roots, f: Fit, radii: Radii, o: Orientation)
    requires r.Valid() && Solved(r, f, radii, o)
    ensures var s := InferActive(r, f, radii, o).solution.value;
      && (forall d :: Within(r, d, s.discriminant, s.discriminantRadius) ==> s.lower <= Separation(r, d) <= s.upper)
      && (exists d :: Within(r, d, s.discriminant, s.discriminantRadius) && Separation(r, d) == s.lower)
      && (exists d :: Within(r, d, s.discriminant, s.discriminantRadius) && Separation(r, d) == s.upper)
  {
    SolvedRadii(r, f, radii, o);
    var s := InferActive(r, f, radii, o).solution.value;
    var near := Nearest(r, s.discriminant, s.discriminantRadius);
    var far := Furthest(r, s.discriminant, s.discriminantRadius);
    DiskExtremes(r, s.discriminant, s.discriminantRadius);
    SeparationOfModulus(r, near);
    SeparationOfModulus(r, far);
    forall d | Within(r, d, s.discriminant, s.discriminantRadius)
      ensures s.lower <= Separation(r, d) <= s.upper
    {
      CsqrtSquare(r, d);
      SeparationBound(r, s.discriminant, d, r.csqrt(d), s.discriminantRadius);
    }
  }

  lemma MidpointDistances(r: Roots, p: C, q: C)
    requires r.Valid()
    ensures var z := Scale(0.5, Add(p, q));
      r.Abs(Sub(p, z)) == 0.5 * r.Abs(Sub(p, q)) && r.Abs(Sub(q, z)) == 0.5 * r.Abs(Sub(p, q))
  {
    var z := Scale(0.5, Add(p, q));
    assert Sub(p, z) == Scale(0.5, Sub(p, q)) && Sub(q, z) == Scale(0.5, Sub(q, p));
    AbsScale(r, 0.5, Sub(p, q));
    AbsScale(r, 0.5, Sub(q, p));
    AbsDifference(r, p, q, r.Abs(Sub(p, q)));
  }

  /** The root regions are reported disjoint exactly when they have no point in common. */
  lemma DisjointExact(r: Roots, f: Fit, radii: Radii, o: Orientation)
    requires r.Valid() && Solved(r, f, radii, o)
    ensures var s := InferActive(r, f, radii, o).solution.value;
      s.disjoint <==> forall z :: !(Within(r, z, s.root1, s.rootRadius) && Within(r, z, s.root2, s.rootRadius))
  {
    var s := InferActive(r, f, radii, o).solution.value;
    MidpointDistances(r, s.root1, s.root2);
    if s.disjoint {
      forall z
        ensures !(Within(r, z, s.root1, s.rootRadius) && Within(r, z, s.root2, s.rootRadius))
      {
        DisjointDisks(r, s.root1, s.root2, z, s.rootRadius);
      }
    } else {
      var z := Scale(0.5, Add(s.root1, s.root2));
      assert Within(r, z, s.root1, s.rootRadius) && Within(r, z, s.root2, s.rootRadius);
    }
  }

  // ----- The estimates -----

  /** The fitted quadratic in the active variable. */
  function Fitted(f: Fit, o: Orientation): Truth { Truth(o, Active(f, o), ActiveLinear(f, o), f.c) }

  /** The estimated roots are the zeros of the fitted quadratic, the centre their midpoint, the discriminant theirs. */
  lemma EstimatesSolveFit(r: Roots, f: Fit, radii: Radii, o: Orientation)
    requires r.Valid() && Solved(r, f, radii, o)
    ensures var s := InferActive(r, f, radii, o).solution.value;
      && (forall z :: Fitted(f, o).Field(z) == ZERO <==> z == s.root1 || z == s.root2)
      && s.center == Scale(0.5, Add(s.root1, s.root2))
      && s.discriminant == TrueDiscriminant(o, s.root1, s.root2)
  {
    var t, a, l := Fitted(f, o), Active(f, o), ActiveLinear(f, o);
    var m, q := CenterOf(r, a, l), QuotientOf(r, a, f.c);
    var d := Sub(Mul(m, m), q);
    var s := r.csqrt(d);
    ActiveNonzero(r, a);
    CenterOfIsCenter(r, a, l);
    QuotientOfIsQuotient(r, a, f.c);
    CsqrtSquare(r, d);
    assert IsVertex(t, m, s, q);
    forall z
      ensures t.Field(z) == ZERO <==> z == Physical(o, Add(m, s)) || z == Physical(o, Sub(m, s))
    {
      ZerosAreRoots(t, m, s, q, z);
    }
    MidpointPhysical(o, m, s);
    HalfDifferenceSquared(o, m, s);
  }

  // ----- The radii are attained -----

  lemma ProductOfDirections(s: real, u: C, t: real, w: C)
    ensures Mul(Scale(s, u), Scale(t, w)) == Scale(s * t, Mul(u, w))
  {
    assert (s * u.re) * (t * w.re) == (s * t) * (u.re * w.re) && (s * u.im) * (t * w.im) == (s * t) * (u.im * w.im);
    assert (s * u.re) * (t * w.im) == (s * t) * (u.re * w.im) && (s * u.im) * (t * w.re) == (s * t) * (u.im * w.re);
  }

  lemma UnitProduct(r: Roots, u: C, w: C)
    requires r.Valid() && r.Abs(u) == 1.0 && r.Abs(w) == 1.0
    ensures r.Abs(Mul(u, w)) == 1.0
  {
    AbsMul(r, u, w);
  }

  lemma CenterBalance(n: real, k: real, rl: real)
    requires n > TOL
    ensures var rm := (rl + 2.0 * k * TOL) / (2.0 * (n - TOL));
      2.0 * ((n - TOL) * (k + rm)) - 2.0 * (n * k) == rl
  {
    var rm := (rl + 2.0 * k * TOL) / (2.0 * (n - TOL));
    DivideBack(rl + 2.0 * k * TOL, 2.0 * (n - TOL));
    assert 2.0 * ((n - TOL) * rm) == rl + 2.0 * k * TOL;
    SplitProduct(n, TOL, k, rm);
  }

  lemma DivideBack(x: real, d: real)
    requires d > 0.0
    ensures (x / d) * d == x
  {
  }

  lemma SplitProduct(n: real, t: real, k: real, x: real)
    ensures (n - t) * (k + x) == n * k - t * k + (n - t) * x
  {
  }

  /** Coefficients within the error bounds. */
  predicate CenterErrors(r: Roots, a: C, l: C, a': C, l': C, rl: real) {
    r.Abs(Sub(a, a')) <= TOL && r.Abs(Sub(l, l')) <= rl
  }

  /** Some quadratic within the coefficient bounds has its centre exactly at the edge of the centre disk. */
  lemma CenterRadiusAttained(r: Roots, a: C, l: C, rl: real) returns (a': C, l': C, m': C)
    requires r.Valid() && r.Abs(a) > FLOOR && rl >= 0.0
    ensures CenterErrors(r, a, l, a', l', rl) && IsCenter(a', l', m')
    ensures r.Abs(Sub(CenterOf(r, a, l), m')) == CenterRadius(r, a, CenterOf(r, a, l), rl)
  {
    var m := CenterOf(r, a, l);
    var n, k, u, w := r.Abs(a), r.Abs(m), Unit(r, a), Unit(r, m);
    var rm := CenterRadius(r, a, m, rl);
    AbsNonnegative(r, m);
    QuotientNonnegative(rl + 2.0 * k * TOL, 2.0 * (n - TOL));
    UnitDirection(r, a);
    UnitDirection(r, m);
    CenterOfIsCenter(r, a, l);
    CenterBalance(n, k, rl);
    a', m' := Scale(n - TOL, u), Scale(k + rm, w);
    l' := Neg(Scale(2.0, Mul(a', m')));
    LinearAtEdge(r, l, l', u, w, n, k, n - TOL, k + rm, rl);
    AtDistance(r, u, n, TOL);
    AtDistance(r, w, k, rm);
  }

  lemma AtDistance(r: Roots, u: C, s: real, step: real)
    requires r.Valid() && r.Abs(u) == 1.0 && step >= 0.0
    ensures r.Abs(Sub(Scale(s, u), Scale(s - step, u))) == step
    ensures r.Abs(Sub(Scale(s, u), Scale(s + step, u))) == step
  {
    AlongDirection(r, u, s, s - step);
    AlongDirection(r, u, s, s + step);
  }

  /** Linear coefficients of two quadratics whose leading coefficients and centres share directions. */
  lemma LinearAtEdge(r: Roots, l: C, l': C, u: C, w: C, n: real, k: real, n': real, k': real, rl: real)
    requires r.Valid() && r.Abs(u) == 1.0 && r.Abs(w) == 1.0 && rl >= 0.0
    requires Scale(2.0, Mul(Scale(n, u), Scale(k, w))) == Neg(l)
    requires l' == Neg(Scale(2.0, Mul(Scale(n', u), Scale(k', w))))
    requires 2.0 * (n' * k') - 2.0 * (n * k) == rl
    ensures r.Abs(Sub(l, l')) == rl
  {
    ProductOfDirections(n, u, k, w);
    ProductOfDirections(n', u, k', w);
    UnitProduct(r, u, w);
    LinearDifference(l, l', n * k, n' * k', Mul(u, w));
    AlongDirection(r, Mul(u, w), rl, 0.0);
  }

  lemma LinearDifference(l: C, l': C, x: real, y: real, e: C)
    requires Scale(2.0, Scale(x, e)) == Neg(l) && l' == Neg(Scale(2.0, Scale(y, e)))
    ensures Sub(l, l') == Scale(2.0 * y - 2.0 * x, e)
  {
    assert l == Neg(Scale(2.0, Scale(x, e)));
    assert (2.0 * y - 2.0 * x) * e.re == 2.0 * (y * e.re) - 2.0 * (x * e.re);
    assert (2.0 * y - 2.0 * x) * e.im == 2.0 * (y * e.im) - 2.0 * (x * e.im);
  }

  lemma QuotientBalance(n: real, k: real, r0: real)
    requires n > TOL
    ensures var rq := (r0 + k * TOL) / (n - TOL);
      (n - TOL) * (k + rq) - n * k == r0
  {
    var rq := (r0 + k * TOL) / (n - TOL);
    DivideBack(r0 + k * TOL, n - TOL);
    SplitProduct(n, TOL, k, rq);
  }

  /** The same for the quotient of the constant by the leading coefficient. */
  lemma QuotientRadiusAttained(r: Roots, a: C, c: C, r0: real) returns (a': C, c': C, q': C)
    requires r.Valid() && r.Abs(a) > FLOOR && r0 >= 0.0
    ensures r.Abs(Sub(a, a')) <= TOL && r.Abs(Sub(c, c')) <= r0 && Mul(a', q') == c'
    ensures r.Abs(Sub(QuotientOf(r, a, c), q')) == QuotientRadius(r, a, QuotientOf(r, a, c), r0)
  {
    var q := QuotientOf(r, a, c);
    var n, k, u, w := r.Abs(a), r.Abs(q), Unit(r, a), Unit(r, q);
    var rq := QuotientRadius(r, a, q, r0);
    AbsNonnegative(r, q);
    UnitDirection(r, a);
    UnitDirection(r, q);
    QuotientNonnegative(r0 + k * TOL, n - TOL);
    QuotientOfIsQuotient(r, a, c);
    QuotientBalance(n, k, r0);
    a', q' := Scale(n - TOL, u), Scale(k + rq, w);
    c' := Mul(a', q');
    ConstantAtEdge(r, c, c', u, w, n, k, n - TOL, k + rq, r0);
    AtDistance(r, u, n, TOL);
    AtDistance(r, w, k, rq);
  }

  lemma ConstantAtEdge(r: Roots, c: C, c': C, u: C, w: C, n: real, k: real, n': real, k': real, r0: real)
    requires r.Valid() && r.Abs(u) == 1.0 && r.Abs(w) == 1.0 && r0 >= 0.0
    requires Mul(Scale(n, u), Scale(k, w)) == c && c' == Mul(Scale(n', u), Scale(k', w)) && n' * k' - n * k == r0
    ensures r.Abs(Sub(c, c')) == r0
  {
    ProductOfDirections(n, u, k, w);
    ProductOfDirections(n', u, k', w);
    UnitProduct(r, u, w);
    AlongDirection(r, Mul(u, w), n * k, n' * k');
  }

  /** Some centre and quotient within their radii give a discriminant exactly at the edge of its disk. */
  lemma DiscriminantRadiusAttained(r: Roots, a: C, m: C, q: C, rm: real, r0: real) returns (m': C, q': C)
    requires r.Valid() && r.Abs(a) > FLOOR && rm >= 0.0 && QuotientRadius(r, a, q, r0) >= 0.0
    ensures r.Abs(Sub(m, m')) <= rm && r.Abs(Sub(q, q')) <= QuotientRadius(r, a, q, r0)
    ensures r.Abs(Sub(Sub(Mul(m, m), q), Sub(Mul(m', m'), q'))) == DiscriminantRadius(r, a, m, q, rm, r0)
  {
    var k, w, rq := r.Abs(m), Unit(r, m), QuotientRadius(r, a, q, r0);
    AbsNonnegative(r, m);
    UnitDirection(r, m);
    UnitProduct(r, w, w);
    m', q' := Scale(k + rm, w), Sub(q, Scale(rq, Mul(w, w)));
    AtDistance(r, w, k, rm);
    ShiftedQuotient(r, q, Mul(w, w), rq);
    NonnegativeGrowth(k, rm, rq);
    SquareGrowth(k, rm);
    FurthestDiscriminant(r, q, w, k, k + rm, rq, 2.0 * k * rm + rm * rm + rq);
  }

  lemma FurthestDiscriminant(r: Roots, q: C, w: C, k: real, k': real, rq: real, rd: real)
    requires r.Valid() && r.Abs(Mul(w, w)) == 1.0 && k' * k' - k * k + rq == rd >= 0.0
    ensures var m, m', q' := Scale(k, w), Scale(k', w), Sub(q, Scale(rq, Mul(w, w)));
      r.Abs(Sub(Sub(Mul(m, m), q), Sub(Mul(m', m'), q'))) == rd
  {
    ProductOfDirections(k, w, k, w);
    ProductOfDirections(k', w, k', w);
    DiscriminantAtEdge(r, q, Mul(w, w), k * k, k' * k', rq, rd);
  }

  lemma ShiftedQuotient(r: Roots, q: C, e: C, rq: real)
    requires r.Valid() && r.Abs(e) == 1.0 && rq >= 0.0
    ensures r.Abs(Sub(q, Sub(q, Scale(rq, e)))) == rq
  {
    assert Sub(q, Sub(q, Scale(rq, e))) == Scale(rq, e);
    AlongDirection(r, e, rq, 0.0);
  }

  lemma DiscriminantAtEdge(r: Roots, q: C, e: C, x: real, y: real, rq: real, t: real)
    requires r.Valid() && r.Abs(e) == 1.0 && y - x + rq == t >= 0.0
    ensures r.Abs(Sub(Sub(Scale(x, e), q), Sub(Scale(y, e), Sub(q, Scale(rq, e))))) == t
  {
    DiscriminantShift(q, e, x, y, rq);
    AlongDirection(r, e, 0.0, t);
  }

  lemma SquareGrowth(k: real, x: real)
    ensures (k + x) * (k + x) - k * k == 2.0 * k * x + x * x
  {
  }

  lemma NonnegativeGrowth(k: real, x: real, y: real)
    requires k >= 0.0 && x >= 0.0 && y >= 0.0
    ensures 2.0 * k * x + x * x + y >= 0.0
  {
  }

  lemma DiscriminantShift(q: C, e: C, x: real, y: real, rq: real)
    ensures Sub(Sub(Scale(x, e), q), Sub(Scale(y, e), Sub(q, Scale(rq, e)))) == Scale(0.0 - (y - x + rq), e)
  {
    assert (0.0 - (y - x + rq)) * e.re == x * e.re - y * e.re - rq * e.re;
    assert (0.0 - (y - x + rq)) * e.im == x * e.im - y * e.im - rq * e.im;
  }

  // ----- Envelope mismatch -----

  /** A linear coefficient of a truth of the orientation, within given distances of both fitted ones. */
  predicate ExplainsLinear(r: Roots, f: Fit, o: Orientation, l: C, x: real, y: real) {
    && r.Abs(Sub(f.lineX, l)) <= x
    && r.Abs(Sub(f.lineY, if o == Holomorphic then TimesI(l) else Neg(TimesI(l)))) <= y
  }

  /** The coefficient that the fitted y part stands for. */
  function Turned(f: Fit, o: Orientation): C { if o == Holomorphic then Neg(TimesI(f.lineY)) else TimesI(f.lineY) }

  lemma TurnedDistance(r: Roots, f: Fit, o: Orientation, l: C)
    requires r.Valid()
    ensures r.Abs(Sub(f.lineY, if o == Holomorphic then TimesI(l) else Neg(TimesI(l)))) == r.Abs(Sub(Turned(f, o), l))
  {
    var e := Sub(f.lineY, if o == Holomorphic then TimesI(l) else Neg(TimesI(l)));
    assert Sub(Turned(f, o), l) == if o == Holomorphic then Neg(TimesI(e)) else TimesI(e);
    AbsNeg(r, e);
    AbsNeg(r, TimesI(e));
  }

  lemma TwiceInactive(r: Roots, f: Fit, o: Orientation)
    requires r.Valid()
    ensures r.Abs(Sub(f.lineX, Turned(f, o))) == 2.0 * r.Abs(InactiveLinear(f, o))
  {
    assert Scale(2.0, InactiveLinear(f, o)) == Sub(f.lineX, Turned(f, o));
    AbsScale(r, 2.0, InactiveLinear(f, o));
  }

  lemma DisksMeet(r: Roots, p: C, q: C, x: real, y: real) returns (z: C)
    requires r.Valid() && x > 0.0 && y > 0.0 && r.Abs(Sub(p, q)) <= x + y
    ensures r.Abs(Sub(p, z)) <= x && r.Abs(Sub(q, z)) <= y
  {
    var t := x / (x + y);
    ShareOf(x, y, r.Abs(Sub(p, q)));
    z := Sub(p, Scale(t, Sub(p, q)));
    assert Sub(p, z) == Scale(t, Sub(p, q));
    PartialDifference(p, q, t);
    AbsScale(r, t, Sub(p, q));
    AbsScale(r, 1.0 - t, Sub(q, p));
    AbsDifference(r, p, q, r.Abs(Sub(p, q)));
  }

  lemma PartialDifference(p: C, q: C, t: real)
    ensures Sub(q, Sub(p, Scale(t, Sub(p, q)))) == Scale(1.0 - t, Sub(q, p))
  {
    var way := Scale(t, Sub(p, q));
    RestOfWay(p.re, q.re, t, way.re);
    RestOfWay(p.im, q.im, t, way.im);
    assert Sub(q, Sub(p, way)) == C(q.re - (p.re - way.re), q.im - (p.im - way.im));
  }

  lemma RestOfWay(p: real, q: real, t: real, way: real)
    requires way == t * (p - q)
    ensures q - (p - way) == (1.0 - t) * (q - p)
  {
    RestOfWhole(t, q - p);
    assert t * (q - p) == -way;
  }

  lemma ShareOf(x: real, y: real, d: real)
    requires x > 0.0 && y > 0.0 && d <= x + y
    ensures var t := x / (x + y); 0.0 <= t <= 1.0 && t * d <= x && (1.0 - t) * d <= y
  {
    var t, n := x / (x + y), x + y;
    DivideBack(x, n);
    QuotientNonnegative(x, n);
    AtMostOne(t, n);
    Weaken(t, d, n);
    Weaken(1.0 - t, d, n);
    RestOfWhole(t, n);
  }

  lemma AtMostOne(t: real, n: real)
    requires n > 0.0 && t * n <= n
    ensures t <= 1.0
  {
    assert t > 1.0 ==> (t - 1.0) * n > 0.0;
  }

  lemma RestOfWhole(t: real, n: real)
    ensures (1.0 - t) * n == n - t * n
  {
  }

  lemma Weaken(t: real, d: real, e: real)
    requires t >= 0.0 && d <= e
    ensures t * d <= t * e
  {
    assert t * (e - d) >= 0.0;
  }

  lemma MeetingDisks(r: Roots, p: C, q: C, x: real, y: real, z: C)
    requires r.Valid() && r.Abs(Sub(p, z)) <= x && r.Abs(Sub(q, z)) <= y
    ensures r.Abs(Sub(p, q)) <= x + y
  {
    assert Sub(p, q) == Add(Sub(p, z), Neg(Sub(q, z)));
    SumBound(r, Sub(p, z), Sub(q, z), x, y);
  }

  /** A mismatch is reported exactly when no linear coefficient explains both parts within the radii and the margin. */
  lemma MismatchExact(r: Roots, f: Fit, radii: Radii, o: Orientation)
    requires r.Valid() && radii.Nonnegative() && Supports(r, f, o)
    ensures InferActive(r, f, radii, o).status == EnvelopeMismatch <==>
      !LinearExplained(r, f, o, radii.rx + TOL, radii.ry + TOL)
  {
    ExplainedWhenSmall(r, f, o, radii.rx + TOL, radii.ry + TOL);
  }

  ghost predicate LinearExplained(r: Roots, f: Fit, o: Orientation, x: real, y: real) {
    exists l :: ExplainsLinear(r, f, o, l, x, y)
  }

  predicate NearBoth(r: Roots, p: C, q: C, z: C, x: real, y: real) { r.Abs(Sub(p, z)) <= x && r.Abs(Sub(q, z)) <= y }

  ghost predicate CommonPoint(r: Roots, p: C, q: C, x: real, y: real) { exists z :: NearBoth(r, p, q, z, x, y) }

  /** Two disks have a common point exactly when their centres are no further apart than their radii together. */
  lemma CommonPointExact(r: Roots, p: C, q: C, x: real, y: real)
    requires r.Valid() && x > 0.0 && y > 0.0
    ensures CommonPoint(r, p, q, x, y) <==> r.Abs(Sub(p, q)) <= x + y
  {
    if r.Abs(Sub(p, q)) <= x + y {
      var z := DisksMeet(r, p, q, x, y);
      assert NearBoth(r, p, q, z, x, y);
    }
    if CommonPoint(r, p, q, x, y) {
      var z :| NearBoth(r, p, q, z, x, y);
      MeetingDisks(r, p, q, x, y, z);
    }
  }

  lemma ExplainsTurned(r: Roots, f: Fit, o: Orientation, l: C, x: real, y: real)
    requires r.Valid()
    ensures ExplainsLinear(r, f, o, l, x, y) <==> NearBoth(r, f.lineX, Turned(f, o), l, x, y)
  {
    TurnedDistance(r, f, o, l);
  }

  lemma ExplainedIsCommon(r: Roots, f: Fit, o: Orientation, x: real, y: real)
    requires r.Valid()
    ensures LinearExplained(r, f, o, x, y) <==> CommonPoint(r, f.lineX, Turned(f, o), x, y)
  {
    if LinearExplained(r, f, o, x, y) {
      var l :| ExplainsLinear(r, f, o, l, x, y);
      ExplainsTurned(r, f, o, l, x, y);
    }
    if CommonPoint(r, f.lineX, Turned(f, o), x, y) {
      var l :| NearBoth(r, f.lineX, Turned(f, o), l, x, y);
      ExplainsTurned(r, f, o, l, x, y);
    }
  }

  lemma ExplainedWhenSmall(r: Roots, f: Fit, o: Orientation, x: real, y: real)
    requires r.Valid() && x > 0.0 && y > 0.0
    ensures LinearExplained(r, f, o, x, y) <==> 2.0 * r.Abs(InactiveLinear(f, o)) <= x + y
  {
    ExplainedIsCommon(r, f, o, x, y);
    CommonPointExact(r, f.lineX, Turned(f, o), x, y);
    TwiceInactive(r, f, o);
  }

  // ----- No core -----

  /** A coefficient whose modulus is within a radius of that of the fitted one. */
  predicate ModulusNear(r: Roots, fitted: C, z: C, radius: real) {
    r.Abs(fitted) - radius <= r.Abs(z) <= r.Abs(fitted) + radius
  }

  ghost predicate ModuliNear(r: Roots, f: Fit, radii: Radii, c: C, x: C, y: C) {
    ModulusNear(r, f.c, c, radii.r0) && ModulusNear(r, f.lineX, x, radii.rx) && ModulusNear(r, f.lineY, y, radii.ry)
  }

  lemma AffineAtLeast(r: Roots, c: C, x: C, y: C, z: C)
    requires r.Valid() && OnSquare(z)
    ensures r.Abs(AffineField(c, x, y, z)) >= r.Abs(c) - r.Abs(x) - r.Abs(y)
  {
    AbsScaleUnit(r, z.re, x);
    AbsScaleUnit(r, z.im, y);
    var u, v := Scale(z.re, x), Scale(z.im, y);
    var value := AffineField(c, x, y, z);
    assert c == Add(Add(value, Neg(u)), Neg(v));
    Triangle(r, Add(value, Neg(u)), Neg(v));
    Triangle(r, value, Neg(u));
    AbsNeg(r, u);
    AbsNeg(r, v);
  }

  /** Every affine field with such moduli stays above the floor on the whole domain. */
  ghost predicate NoCoreAnywhere(r: Roots, f: Fit, radii: Radii) {
    forall c, x, y, z :: ModuliNear(r, f, radii, c, x, y) && OnSquare(z) ==> AboveFloor(r, c, x, y, z)
  }

  predicate AboveFloor(r: Roots, c: C, x: C, y: C, z: C) { r.Abs(AffineField(c, x, y, z)) > FLOOR }

  /** The field with opposed coefficients, at a point of the diagonal. */
  lemma OpposedField(r: Roots, c: real, x: real, y: real, t: real, left: real)
    requires r.Valid() && left == c - t * (x + y) >= 0.0
    ensures r.Abs(AffineField(C(c, 0.0), C(-x, 0.0), C(-y, 0.0), C(t, t))) == left
  {
    AbsReal(r, left);
    OpposedSum(t, x, y);
    assert AffineField(C(c, 0.0), C(-x, 0.0), C(-y, 0.0), C(t, t)) == C(left, 0.0);
  }

  lemma OpposedSum(t: real, x: real, y: real)
    ensures t * (-x) + t * (-y) == -(t * (x + y))
  {
  }

  lemma RealModuli(r: Roots, x: real)
    requires r.Valid() && x >= 0.0
    ensures r.Abs(C(x, 0.0)) == x && r.Abs(C(-x, 0.0)) == x
  {
    AbsReal(r, x);
    AbsNeg(r, C(x, 0.0));
    assert Neg(C(x, 0.0)) == C(-x, 0.0);
  }

  /** Where the bound fails, opposed coefficients come down to the floor somewhere. */
  lemma CoreWitness(r: Roots, f: Fit, radii: Radii)
    requires r.Valid() && radii.Nonnegative()
    requires r.Abs(f.c) - r.Abs(f.lineX) - r.Abs(f.lineY) - (radii.r0 + radii.rx + radii.ry) <= FLOOR
    ensures !NoCoreAnywhere(r, f, radii)
  {
    AbsNonnegative(r, f.c);
    AbsNonnegative(r, f.lineX);
    AbsNonnegative(r, f.lineY);
    var c, x, y := Positive(r.Abs(f.c) - radii.r0), r.Abs(f.lineX) + radii.rx, r.Abs(f.lineY) + radii.ry;
    RealModuli(r, c);
    RealModuli(r, x);
    RealModuli(r, y);
    var t := DownToFloor(r, c, x, y);
    assert ModuliNear(r, f, radii, C(c, 0.0), C(-x, 0.0), C(-y, 0.0)) && OnSquare(C(t, t));
    assert !AboveFloor(r, C(c, 0.0), C(-x, 0.0), C(-y, 0.0), C(t, t));
  }

  /** Somewhere on the diagonal opposed coefficients cancel, or leave no more than the floor. */
  lemma DownToFloor(r: Roots, c: real, x: real, y: real) returns (t: real)
    requires r.Valid() && c >= 0.0 && x >= 0.0 && y >= 0.0 && c - (x + y) <= FLOOR
    ensures 0.0 <= t <= 1.0 && !AboveFloor(r, C(c, 0.0), C(-x, 0.0), C(-y, 0.0), C(t, t))
  {
    ShareRange(c, x + y);
    if c <= x + y {
      t := Share(c, x + y);
      OpposedField(r, c, x, y, t, 0.0);
    } else {
      t := 1.0;
      OpposedField(r, c, x, y, t, c - (x + y));
    }
  }

  function Share(c: real, n: real): real { if n > 0.0 then c / n else 0.0 }

  lemma ShareRange(c: real, n: real)
    requires c >= 0.0 && n >= 0.0
    ensures c <= n ==> 0.0 <= Share(c, n) <= 1.0 && c - Share(c, n) * n == 0.0
  {
    if n > 0.0 && c <= n {
      DivideBack(c, n);
      QuotientNonnegative(c, n);
      AtMostOne(c / n, n);
    }
  }

  /** "Nonzero, no core" is reported exactly for the affine fits whose fields with such moduli stay above the floor. */
  lemma NoCoreExact(r: Roots, f: Fit, radii: Radii)
    requires r.Valid()
    ensures Infer(r, f, radii).Some? && Infer(r, f, radii).value.status == NonzeroNoCore <==>
      && radii.Nonnegative() && f.heldoutError <= TOL
      && r.Abs(CurvatureA(f)) <= TOL && r.Abs(CurvatureB(f)) <= TOL && r.Abs(CurvatureC(f)) <= TOL
      && NoCoreAnywhere(r, f, radii)
  {
    AbsNonnegative(r, f.lineX);
    AbsNonnegative(r, f.lineY);
    if radii.Nonnegative() {
      if r.Abs(f.c) - r.Abs(f.lineX) - r.Abs(f.lineY) - (radii.r0 + radii.rx + radii.ry) <= FLOOR {
        CoreWitness(r, f, radii);
      } else {
        forall c, x, y, z | ModuliNear(r, f, radii, c, x, y) && OnSquare(z)
          ensures AboveFloor(r, c, x, y, z)
        {
          AffineAtLeast(r, c, x, y, z);
        }
      }
    }
  }
}
