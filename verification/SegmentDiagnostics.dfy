/** Diagnostics of the segment between two residuals: closest point, value or reason per point, fixed quantiles. */
module SegmentDiagnostics {
  import Complex
  import Modulus

  datatype Vec = Vec(x: real, y: real)

  function Minus(a: Vec, b: Vec): Vec { Vec(a.x - b.x, a.y - b.y) }

  function Dot(a: Vec, b: Vec): real { a.x * b.x + a.y * b.y }

  /** The point of the segment from a to b at parameter t. */
  function At(a: Vec, b: Vec, t: real): Vec { Vec((1.0 - t) * a.x + t * b.x, (1.0 - t) * a.y + t * b.y) }

  type Hypot = Vec -> real

  /** What the norm is relied on for: nonnegative with the right square. */
  ghost predicate IsHypot(hypot: Hypot) { forall v :: hypot(v) >= 0.0 && hypot(v) * hypot(v) == Dot(v, v) }

  function Clip(t: real): real { if t < 0.0 then 0.0 else if t > 1.0 then 1.0 else t }

  /** The parameter of the closest point: zero without a perturbation, otherwise the clipped projection. */
  function ClosestLambda(hypot: Hypot, a: Vec, b: Vec): real {
    var d := Minus(b, a);
    var size := hypot(d);
    if size == 0.0 then 0.0 else Clip(-Dot(a, Vec(d.x / size, d.y / size)) / size)
  }

  function MinimumSegment(hypot: Hypot, a: Vec, b: Vec): real { hypot(At(a, b, ClosestLambda(hypot, a, b))) }

  // ----- The closest point -----

  lemma DividedDot(a: Vec, d: Vec, size: real)
    requires size != 0.0
    ensures -Dot(a, Vec(d.x / size, d.y / size)) / size * (size * size) == -Dot(a, d)
  {
    var u := Vec(d.x / size, d.y / size);
    assert u.x * size == d.x && u.y * size == d.y;
    var p := -Dot(a, u) / size;
    assert p * size == -Dot(a, u);
    assert p * (size * size) == -Dot(a, u) * size;
    assert Dot(a, u) * size == a.x * (u.x * size) + a.y * (u.y * size);
  }

  function Parabola(base: real, dot: real, q: real, t: real): real { base + 2.0 * t * dot + t * t * q }

  lemma SquareOfSum(a: real, d: real, t: real)
    ensures (a + t * d) * (a + t * d) == Parabola(a * a, a * d, d * d, t)
  {
  }

  lemma AddParabolas(base: real, dot: real, q: real, base': real, dot': real, q': real, t: real)
    ensures Parabola(base, dot, q, t) + Parabola(base', dot', q', t) == Parabola(base + base', dot + dot', q + q', t)
  {
  }

  lemma AsOffset(a: Vec, b: Vec, t: real)
    ensures At(a, b, t).x == a.x + t * Minus(b, a).x && At(a, b, t).y == a.y + t * Minus(b, a).y
  {
  }

  lemma SquareOfOffset(a: Vec, d: Vec, t: real, p: Vec)
    requires p.x == a.x + t * d.x && p.y == a.y + t * d.y
    ensures Dot(p, p) == Parabola(Dot(a, a), Dot(a, d), Dot(d, d), t)
  {
    SquareOfSum(a.x, d.x, t);
    SquareOfSum(a.y, d.y, t);
    AddParabolas(a.x * a.x, a.x * d.x, d.x * d.x, a.y * a.y, a.y * d.y, d.y * d.y, t);
  }

  /** The squared norm along the segment is a parabola in the parameter. */
  lemma SquareAt(a: Vec, b: Vec, t: real)
    ensures Dot(At(a, b, t), At(a, b, t)) == Parabola(Dot(a, a), Dot(a, Minus(b, a)), Dot(Minus(b, a), Minus(b, a)), t)
  {
    AsOffset(a, b, t);
    SquareOfOffset(a, Minus(b, a), t, At(a, b, t));
  }

  /** Around its vertex p the parabola grows with the distance from p. */
  lemma ParabolaDifference(q: real, p: real, s: real, t: real, dot: real)
    requires p * q == -dot
    ensures (2.0 * t * dot + t * t * q) - (2.0 * s * dot + s * s * q) == q * ((t - p) * (t - p) - (s - p) * (s - p))
  {
    assert 2.0 * t * dot == -2.0 * t * (p * q);
    assert 2.0 * s * dot == -2.0 * s * (p * q);
  }

  lemma ClipIsNearest(p: real, t: real)
    requires 0.0 <= t <= 1.0
    ensures 0.0 <= Clip(p) <= 1.0
    ensures (Clip(p) - p) * (Clip(p) - p) <= (t - p) * (t - p)
  {
    var here, there := Clip(p) - p, t - p;
    if p < 0.0 {
      Modulus.SquareOrder(here, there, here * here, there * there);
    } else if p > 1.0 {
      Modulus.SquareOrder(-here, -there, (-here) * (-here), (-there) * (-there));
    } else {
      Complex.SquarePositive(there, there * there);
    }
  }

  lemma NormOrder(hypot: Hypot, u: Vec, v: Vec)
    requires IsHypot(hypot) && Dot(u, u) <= Dot(v, v)
    ensures hypot(u) <= hypot(v)
  {
    Modulus.SquareOrder(hypot(u), hypot(v), Dot(u, u), Dot(v, v));
  }

  lemma NoPerturbation(hypot: Hypot, a: Vec, b: Vec)
    requires IsHypot(hypot)
    ensures hypot(Minus(b, a)) == 0.0 <==> a == b
  {
    var d := Minus(b, a);
    Complex.SquarePositive(d.x, d.x * d.x);
    Complex.SquarePositive(d.y, d.y * d.y);
    Complex.SquarePositive(hypot(d), Dot(d, d));
  }

  /** The projection before clipping: the vertex of the parabola. */
  lemma VertexParameter(hypot: Hypot, a: Vec, b: Vec) returns (p: real)
    requires IsHypot(hypot) && a != b
    ensures ClosestLambda(hypot, a, b) == Clip(p)
    ensures p * Dot(Minus(b, a), Minus(b, a)) == -Dot(a, Minus(b, a))
  {
    NoPerturbation(hypot, a, b);
    var d := Minus(b, a);
    var size := hypot(d);
    p := -Dot(a, Vec(d.x / size, d.y / size)) / size;
    DividedDot(a, d, size);
  }

  /** The clipped vertex minimises the parabola over the unit interval. */
  lemma ParabolaMinimum(base: real, dot: real, q: real, p: real, t: real)
    requires q > 0.0 && p * q == -dot && 0.0 <= t <= 1.0
    ensures Parabola(base, dot, q, Clip(p)) <= Parabola(base, dot, q, t)
  {
    var s := Clip(p);
    ClipIsNearest(p, t);
    ParabolaDifference(q, p, s, t, dot);
    ScaledGap(q, (t - p) * (t - p), (s - p) * (s - p), Parabola(base, dot, q, t) - Parabola(base, dot, q, s));
  }

  lemma PositiveSize(hypot: Hypot, a: Vec, b: Vec)
    requires IsHypot(hypot) && a != b
    ensures Dot(Minus(b, a), Minus(b, a)) > 0.0
  {
    NoPerturbation(hypot, a, b);
    Complex.SquarePositive(hypot(Minus(b, a)), Dot(Minus(b, a), Minus(b, a)));
  }

  lemma ScaledGap(q: real, u: real, v: real, gap: real)
    requires q > 0.0 && gap == q * (u - v)
    ensures v <= u <==> gap >= 0.0
  {
    if v < u {
      Complex.ProductPositive(q, u - v, gap);
    } else if u < v {
      Complex.ProductPositive(q, v - u, -gap);
    }
  }

  /** The closest parameter lies in the unit interval and minimises the amplitude over the whole segment. */
  lemma ClosestMinimises(hypot: Hypot, a: Vec, b: Vec, t: real)
    requires IsHypot(hypot) && 0.0 <= t <= 1.0
    ensures 0.0 <= ClosestLambda(hypot, a, b) <= 1.0
    ensures MinimumSegment(hypot, a, b) <= hypot(At(a, b, t))
  {
    if a == b {
      NoPerturbation(hypot, a, b);
      assert At(a, a, t) == a && At(a, a, 0.0) == a;
    } else {
      var p := VertexParameter(hypot, a, b);
      PositiveSize(hypot, a, b);
      ParabolaMinimum(Dot(a, a), Dot(a, Minus(b, a)), Dot(Minus(b, a), Minus(b, a)), p, t);
      SquareAt(a, b, t);
      SquareAt(a, b, Clip(p));
      NormOrder(hypot, At(a, b, Clip(p)), At(a, b, t));
    }
  }

  /** The minimum never exceeds either endpoint. */
  lemma MinimumBelowEndpoints(hypot: Hypot, a: Vec, b: Vec)
    requires IsHypot(hypot)
    ensures 0.0 <= MinimumSegment(hypot, a, b) <= hypot(a)
    ensures MinimumSegment(hypot, a, b) <= hypot(b)
  {
    ClosestMinimises(hypot, a, b, 0.0);
    ClosestMinimises(hypot, a, b, 1.0);
    assert At(a, b, 0.0) == a && At(a, b, 1.0) == b;
  }

  lemma ClipReflected(p: real)
    ensures Clip(1.0 - p) == 1.0 - Clip(p)
  {
  }

  lemma ReflectedVertex(a: Vec, b: Vec, p: real, r: real)
    requires Dot(Minus(b, a), Minus(b, a)) > 0.0
    requires p * Dot(Minus(b, a), Minus(b, a)) == -Dot(a, Minus(b, a))
    requires r * Dot(Minus(a, b), Minus(a, b)) == -Dot(b, Minus(a, b))
    ensures r == 1.0 - p
  {
    var d := Minus(b, a);
    var q := Dot(d, d);
    assert Minus(a, b) == Vec(-d.x, -d.y);
    assert Dot(Minus(a, b), Minus(a, b)) == q;
    SumOfDots(a, b);
    EqualFactor(r, 1.0 - p, q);
  }

  lemma SumOfDots(a: Vec, b: Vec)
    ensures -Dot(b, Minus(a, b)) == Dot(Minus(b, a), Minus(b, a)) + Dot(a, Minus(b, a))
  {
    SumOfProducts(a.x, b.x);
    SumOfProducts(a.y, b.y);
  }

  lemma SumOfProducts(a: real, b: real)
    ensures -(b * (a - b)) == (b - a) * (b - a) + a * (b - a)
  {
  }

  lemma EqualFactor(r: real, s: real, q: real)
    requires q > 0.0 && r * q == s * q
    ensures r == s
  {
    var gap := (r - s) * q;
    if r > s {
      Complex.ProductPositive(r - s, q, gap);
    } else if s > r {
      Complex.ProductPositive(s - r, q, -gap);
    }
  }

  /**
   Swapping the residuals reflects the parameter and keeps the minimum; without a perturbation both parameters are
   zero.
   */
  lemma SwapReflects(hypot: Hypot, a: Vec, b: Vec)
    requires IsHypot(hypot)
    ensures ClosestLambda(hypot, b, a) == if a == b then 0.0 else 1.0 - ClosestLambda(hypot, a, b)
    ensures MinimumSegment(hypot, b, a) == MinimumSegment(hypot, a, b)
  {
    NoPerturbation(hypot, a, b);
    NoPerturbation(hypot, b, a);
    if a != b {
      var p := VertexParameter(hypot, a, b);
      var r := VertexParameter(hypot, b, a);
      PositiveSize(hypot, a, b);
      ReflectedVertex(a, b, p, r);
      ClipReflected(p);
      assert At(b, a, 1.0 - Clip(p)) == At(a, b, Clip(p));
    }
  }
}
