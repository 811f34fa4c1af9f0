/** The sign convention of the readout: what a loop round a simple zero reads. */
module VortexReadout {
  import opened Basics
  import opened Complex
  import opened GridSums
  import opened Winding
  import opened LoopReadout
  import opened Conservation

  // ----- Steps along a side that stays in one half-plane -----

  lemma SideNonzero(s: Side, z: C)
    requires s.Has(z)
    ensures z != ZERO
  {
  }

  lemma {:induction false} RightAlong(step: StepFn, g: Field, f: Steps, s: Side, lo: int, hi: int, y: int)
    requires StepLaws(step) && f.Of(step, g) && lo <= hi && forall x :: lo <= x <= hi ==> s.Has(g(x, y))
    ensures RowSum(f.right, lo, hi, y) == step(g(lo, y), g(hi, y))
    decreases hi - lo
  {
    if lo == hi {
      SideNonzero(s, g(lo, y));
      SelfStep(step, g(lo, y));
    } else {
      RightAlong(step, g, f, s, lo, hi - 1, y);
      assert step(g(lo, y), g(hi, y)) == Detour(step, g(lo, y), g(hi - 1, y), g(hi, y));
      assert f.right(hi - 1, y) == StepRight(step, g, hi - 1, y);
    }
  }

  lemma {:induction false} LeftAlong(step: StepFn, g: Field, f: Steps, s: Side, lo: int, hi: int, y: int)
    requires StepLaws(step) && f.Of(step, g) && lo <= hi && forall x :: lo <= x <= hi ==> s.Has(g(x, y))
    ensures RowSum(f.left, lo, hi, y) == step(g(hi, y), g(lo, y))
    decreases hi - lo
  {
    if lo == hi {
      SideNonzero(s, g(lo, y));
      SelfStep(step, g(lo, y));
    } else {
      LeftAlong(step, g, f, s, lo, hi - 1, y);
      assert step(g(hi, y), g(lo, y)) == Detour(step, g(hi, y), g(hi - 1, y), g(lo, y));
      assert f.left(hi - 1, y) == StepLeft(step, g, hi - 1, y);
    }
  }

  lemma {:induction false} UpAlong(step: StepFn, g: Field, f: Steps, s: Side, x: int, lo: int, hi: int)
    requires StepLaws(step) && f.Of(step, g) && lo <= hi && forall y :: lo <= y <= hi ==> s.Has(g(x, y))
    ensures ColSum(f.up, x, lo, hi) == step(g(x, lo), g(x, hi))
    decreases hi - lo
  {
    if lo == hi {
      SideNonzero(s, g(x, lo));
      SelfStep(step, g(x, lo));
    } else {
      UpAlong(step, g, f, s, x, lo, hi - 1);
      assert step(g(x, lo), g(x, hi)) == Detour(step, g(x, lo), g(x, hi - 1), g(x, hi));
      assert f.up(x, hi - 1) == StepUp(step, g, x, hi - 1);
    }
  }

  lemma {:induction false} DownAlong(step: StepFn, g: Field, f: Steps, s: Side, x: int, lo: int, hi: int)
    requires StepLaws(step) && f.Of(step, g) && lo <= hi && forall y :: lo <= y <= hi ==> s.Has(g(x, y))
    ensures ColSum(f.down, x, lo, hi) == step(g(x, hi), g(x, lo))
    decreases hi - lo
  {
    if lo == hi {
      SideNonzero(s, g(x, lo));
      SelfStep(step, g(x, lo));
    } else {
      DownAlong(step, g, f, s, x, lo, hi - 1);
      assert step(g(x, hi), g(x, lo)) == Detour(step, g(x, hi), g(x, hi - 1), g(x, lo));
      assert f.down(x, hi - 1) == StepDown(step, g, x, hi - 1);
    }
  }

  // ----- One turn -----

  /** The half-planes that the samples on the four sides of a box lie in, in loop order. */
  ghost predicate SidesIn(g: Field, b: Box, bottom: Side, right: Side, top: Side, left: Side) {
    && (forall x :: b.x0 <= x <= b.x1 ==> bottom.Has(g(x, b.y0)) && top.Has(g(x, b.y1)))
    && (forall y :: b.y0 <= y <= b.y1 ==> right.Has(g(b.x1, y)) && left.Has(g(b.x0, y)))
  }

  /** A loop whose sides each stay in a half-plane reads the four steps between its corners. */
  lemma CornerSteps(step: StepFn, g: Field, b: Box, bottom: Side, right: Side, top: Side, left: Side)
    requires StepLaws(step) && b.Proper() && SidesIn(g, b, bottom, right, top, left)
    ensures ClosedAngle(step, LoopSamples(g, b)) ==
      step(g(b.x0, b.y0), g(b.x1, b.y0)) + step(g(b.x1, b.y0), g(b.x1, b.y1))
      + step(g(b.x1, b.y1), g(b.x0, b.y1)) + step(g(b.x0, b.y1), g(b.x0, b.y0))
  {
    var f := StepsOf(step, g);
    LoopAngleBySides(step, g, b, f);
    RightAlong(step, g, f, bottom, b.x0, b.x1, b.y0);
    UpAlong(step, g, f, right, b.x1, b.y0, b.y1);
    LeftAlong(step, g, f, top, b.x0, b.x1, b.y1);
    DownAlong(step, g, f, left, b.x0, b.y0, b.y1);
  }

  /** From one quadrant to the next the cross product has the sign of the turn. */
  lemma QuadrantCross(z: C, w: C)
    requires z != ZERO && w != ZERO
    ensures z.re < 0.0 && z.im < 0.0 && w.re > 0.0 && w.im < 0.0 ==> Cross(z, w) > 0.0 && Cross(w, z) < 0.0
    ensures z.re > 0.0 && z.im < 0.0 && w.re > 0.0 && w.im > 0.0 ==> Cross(z, w) > 0.0 && Cross(w, z) < 0.0
    ensures z.re > 0.0 && z.im > 0.0 && w.re < 0.0 && w.im > 0.0 ==> Cross(z, w) > 0.0 && Cross(w, z) < 0.0
    ensures z.re < 0.0 && z.im > 0.0 && w.re < 0.0 && w.im < 0.0 ==> Cross(z, w) > 0.0 && Cross(w, z) < 0.0
  {
    SignOfProduct(z.re, w.im);
    SignOfProduct(z.im, w.re);
  }

  lemma SignOfProduct(x: real, y: real)
    ensures (x > 0.0 && y > 0.0) || (x < 0.0 && y < 0.0) ==> x * y > 0.0
    ensures (x > 0.0 && y < 0.0) || (x < 0.0 && y > 0.0) ==> x * y < 0.0
  {
  }

  lemma RimNonzero(g: Field, b: Box, bottom: Side, right: Side, top: Side, left: Side)
    requires b.Proper() && SidesIn(g, b, bottom, right, top, left)
    ensures forall i :: 0 <= i < |LoopSamples(g, b)| ==> LoopSamples(g, b)[i] != ZERO
  {
    forall i | 0 <= i < Perimeter(b)
      ensures g(PointX(b, i), PointY(b, i)) != ZERO
    {
      PointOnRim(b, i);
    }
  }

  lemma PointOnRim(b: Box, i: int)
    requires b.Proper() && 0 <= i < Perimeter(b)
    ensures b.HasVertex(PointX(b, i), PointY(b, i))
    ensures PointX(b, i) == b.x0 || PointX(b, i) == b.x1 || PointY(b, i) == b.y0 || PointY(b, i) == b.y1
  {
  }

  lemma WholeBetween(k: int, total: real)
    requires total == k as real
    ensures 0.0 < total < 2.0 ==> k == 1
    ensures -2.0 < total < 0.0 ==> k == -1
  {
  }

  /** Down, right, up and left in turn: the samples go once round the origin counter-clockwise: the loop reads +1. */
  lemma TurnsOnce(arg: C -> real, g: Field, b: Box)
    requires IsAngle(arg) && b.Proper() && SidesIn(g, b, Down, Right, Up, Left)
    ensures ClosedAngle(PrincipalStep(arg), LoopSamples(g, b)) == 1.0
  {
    var step := PrincipalStep(arg);
    var p, q, r, s := g(b.x0, b.y0), g(b.x1, b.y0), g(b.x1, b.y1), g(b.x0, b.y1);
    PrincipalStepLaws(arg);
    CornerSteps(step, g, b, Down, Right, Up, Left);
    CornerTurn(arg, p, q);
    CornerTurn(arg, q, r);
    CornerTurn(arg, r, s);
    CornerTurn(arg, s, p);
    RimNonzero(g, b, Down, Right, Up, Left);
    var k := ClosedAngleIsWholeTurns(step, LoopSamples(g, b));
    WholeBetween(k, ClosedAngle(step, LoopSamples(g, b)));
  }

  /** Up, right, down and left in turn: once round clockwise, and the loop reads -1. */
  lemma TurnsBackOnce(arg: C -> real, g: Field, b: Box)
    requires IsAngle(arg) && b.Proper() && SidesIn(g, b, Up, Right, Down, Left)
    ensures ClosedAngle(PrincipalStep(arg), LoopSamples(g, b)) == -1.0
  {
    var step := PrincipalStep(arg);
    var p, q, r, s := g(b.x0, b.y0), g(b.x1, b.y0), g(b.x1, b.y1), g(b.x0, b.y1);
    PrincipalStepLaws(arg);
    CornerSteps(step, g, b, Up, Right, Down, Left);
    CornerTurn(arg, q, p);
    CornerTurn(arg, r, q);
    CornerTurn(arg, s, r);
    CornerTurn(arg, p, s);
    RimNonzero(g, b, Up, Right, Down, Left);
    var k := ClosedAngleIsWholeTurns(step, LoopSamples(g, b));
    WholeBetween(k, ClosedAngle(step, LoopSamples(g, b)));
  }

  /** The quadrants in counter-clockwise order. */
  predicate NextQuadrant(z: C, w: C) {
    || (z.re < 0.0 && z.im < 0.0 && w.re > 0.0 && w.im < 0.0)
    || (z.re > 0.0 && z.im < 0.0 && w.re > 0.0 && w.im > 0.0)
    || (z.re > 0.0 && z.im > 0.0 && w.re < 0.0 && w.im > 0.0)
    || (z.re < 0.0 && z.im > 0.0 && w.re < 0.0 && w.im < 0.0)
  }

  lemma CornerTurn(arg: C -> real, z: C, w: C)
    requires IsAngle(arg) && NextQuadrant(z, w)
    ensures 0.0 < PrincipalStep(arg)(z, w) < 0.5
    ensures -0.5 < PrincipalStep(arg)(w, z) < 0.0
  {
    QuadrantCross(z, w);
    PrincipalStepSign(arg, z, w);
    PrincipalStepSign(arg, w, z);
  }

  // ----- Simple zeros -----

  /** The field z - p on the grid, and its conjugate. */
  function Vortex(p: C): Field { (x: int, y: int) => C(x as real - p.re, y as real - p.im) }

  function Antivortex(p: C): Field { (x: int, y: int) => C(x as real - p.re, p.im - y as real) }

  predicate Inside(b: Box, p: C) { b.x0 as real < p.re < b.x1 as real && b.y0 as real < p.im < b.y1 as real }

  lemma VortexSides(b: Box, p: C)
    requires b.Proper() && Inside(b, p)
    ensures SidesIn(Vortex(p), b, Down, Right, Up, Left) && SidesIn(Antivortex(p), b, Up, Right, Down, Left)
  {
  }

  lemma ReadsItsAngle(step: StepFn, limit: real, loop: seq<C>, k: int)
    requires StepLaws(step) && |loop| >= 3 && ClosedAngle(step, loop) == k as real
    ensures var r := Diagnostic(step, limit, loop);
      r.closedAngle == k as real && (r.winding.Some? ==> r.winding.value == k)
  {
    DiagnosticExact(step, limit, loop);
  }

  /** Every loop round the zero of z - p reads +1, and every loop round the zero of its conjugate -1. */
  lemma SimpleZeroCharge(arg: C -> real, limit: real, b: Box, p: C)
    requires IsAngle(arg) && b.Proper() && Inside(b, p)
    ensures |LoopSamples(Vortex(p), b)| >= 3 && |LoopSamples(Antivortex(p), b)| >= 3
    ensures var r := Diagnostic(PrincipalStep(arg), limit, LoopSamples(Vortex(p), b));
      r.closedAngle == 1.0 && (r.winding.Some? ==> r.winding.value == 1)
    ensures var r := Diagnostic(PrincipalStep(arg), limit, LoopSamples(Antivortex(p), b));
      r.closedAngle == -1.0 && (r.winding.Some? ==> r.winding.value == -1)
  {
    PrincipalStepLaws(arg);
    VortexSides(b, p);
    TurnsOnce(arg, Vortex(p), b);
    TurnsBackOnce(arg, Antivortex(p), b);
    ReadsItsAngle(PrincipalStep(arg), limit, LoopSamples(Vortex(p), b), 1);
    ReadsItsAngle(PrincipalStep(arg), limit, LoopSamples(Antivortex(p), b), -1);
  }

  // ----- A simple zero marks one cell -----

  /** The locator marks exactly the cell of a zero that is further than the slack from its sides. */
  lemma VortexMarksItsCell(p: C, i: int, j: int, x: int, y: int)
    requires i as real + CELL_SLACK < p.re < (i + 1) as real - CELL_SLACK
    requires j as real + CELL_SLACK < p.im < (j + 1) as real - CELL_SLACK
    ensures Candidate(Vortex(p), x, y) <==> x == i && y == j
  {
  }
}
