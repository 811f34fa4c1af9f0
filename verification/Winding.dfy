/** Principal angle steps and the sampled winding of a closed loop. */
module Winding {
  import opened Basics
  import opened Complex
  import opened GridSums

  const AMPLITUDE_FLOOR := 0.000001
  const RESIDUAL_TOLERANCE := 0.000001

  datatype Reason =
    | AmplitudeAtOrBelowFloor
    | BranchAmbiguity
    | NonIntegerIncrement
    | BoundaryClipped
    | NonlocalCandidate
    | OverlappingLoops

  /** Equal up to whole turns. Angles are measured in turns throughout. */
  predicate Congruent(a: real, b: real) { (a - b).Floor as real == a - b }

  /** Chaining a congruence with the detour law. */
  lemma CongruentChain(total: real, ab: real, bc: real, ac: real)
    requires Congruent(total, ab) && Congruent(ac, ab + bc)
    ensures Congruent(total + bc, ac)
  {
    WholeTurns(total + bc, ac, (total - ab).Floor - (ac - (ab + bc)).Floor);
  }

  /** Two opposite angles, the first short of half a turn. */
  lemma OppositeAngles(s: real, t: real, d: real)
    requires Congruent(s, d) && Congruent(t, -d) && -0.5 < s < 0.5 && -0.5 < t <= 0.5
    ensures t == -s
  {
    assert s + t == ((s - d).Floor + (t + d).Floor) as real;
  }

  lemma WholeTurns(a: real, b: real, k: int)
    requires a == b + k as real
    ensures Congruent(a, b)
  {
  }

  /**
   The contract of the library's principal angle in exact arithmetic and in turns: values in
   (-1/2, 1/2] with the sign of the imaginary part, half a turn on the negative reals, within a quarter
   turn in the right half-plane, and angles of w * conj(z) are differences of angles up to whole turns.
   */
  ghost predicate IsAngle(arg: C -> real) {
    && (forall z: C :: -0.5 < arg(z) <= 0.5)
    && (forall z: C :: AngleSign(arg, z))
    && (forall z: C :: z.re > 0.0 ==> -0.25 < arg(z) < 0.25)
    && (forall z: C, w: C {:trigger Step(arg, z, w)} :: z != ZERO && w != ZERO ==>
         Congruent(Step(arg, z, w), arg(w) - arg(z)))
  }

  /** Counter-clockwise angles are positive. */
  predicate AngleSign(arg: C -> real, z: C) {
    if z.im > 0.0 then 0.0 < arg(z) < 0.5
    else if z.im < 0.0 then -0.5 < arg(z) < 0.0
    else arg(z) == if z.re >= 0.0 then 0.0 else 0.5
  }

  /** The largest admitted edge angle, (pi - 0.15) / (2 pi) turns; only its range matters. */
  predicate IsBranchLimit(limit: real) { 0.0 < limit < 0.5 }

  /** The principal angle step from sample z to sample w. */
  function Step(arg: C -> real, z: C, w: C): real { arg(Mul(w, Conj(z))) }

  /** The four coordinate open half-planes. */
  datatype Side = Right | Left | Up | Down {
    predicate Has(z: C) {
      match this
      case Right => z.re > 0.0
      case Left => z.re < 0.0
      case Up => z.im > 0.0
      case Down => z.im < 0.0
    }

    /** The rotation that carries this half-plane to the right one. */
    function ToRight(z: C): C {
      match this
      case Right => z
      case Left => C(-z.re, -z.im)
      case Up => C(z.im, -z.re)
      case Down => C(-z.im, z.re)
    }
  }

  /** A branch of the angle that is continuous on the given half-plane. */
  function Potential(arg: C -> real, s: Side, z: C): real { arg(s.ToRight(z)) }

  lemma ToRightKeepsProduct(s: Side, z: C, w: C)
    ensures Mul(s.ToRight(w), Conj(s.ToRight(z))) == Mul(w, Conj(z))
  {
  }

  lemma StepDifference(arg: C -> real, z: C, w: C) returns (k: int)
    requires IsAngle(arg) && z != ZERO && w != ZERO
    ensures Step(arg, z, w) == arg(w) - arg(z) + k as real
    ensures -0.5 < Step(arg, z, w) <= 0.5
  {
    assert Congruent(Step(arg, z, w), arg(w) - arg(z));
    k := (Step(arg, z, w) - (arg(w) - arg(z))).Floor;
  }

  /** Between two samples of one open half-plane the step is a difference of potentials. */
  lemma StepOnSide(arg: C -> real, s: Side, z: C, w: C)
    requires IsAngle(arg) && s.Has(z) && s.Has(w)
    ensures Step(arg, z, w) == Potential(arg, s, w) - Potential(arg, s, z)
  {
    ToRightKeepsProduct(s, z, w);
    StepInRightHalf(arg, s.ToRight(z), s.ToRight(w));
  }

  lemma StepInRightHalf(arg: C -> real, z: C, w: C)
    requires IsAngle(arg) && z.re > 0.0 && w.re > 0.0
    ensures Step(arg, z, w) == arg(w) - arg(z)
  {
    var k := StepDifference(arg, z, w);
  }

  /** Reversing a step that is not exactly half a turn negates it. */
  lemma StepReversed(arg: C -> real, z: C, w: C)
    requires IsAngle(arg) && z != ZERO && w != ZERO && Step(arg, z, w) != 0.5
    ensures Step(arg, w, z) == -Step(arg, z, w)
  {
    assert Congruent(Step(arg, z, w), arg(w) - arg(z));
    assert Congruent(Step(arg, w, z), arg(z) - arg(w));
    OppositeAngles(Step(arg, z, w), Step(arg, w, z), arg(w) - arg(z));
  }

  type StepFn = (C, C) -> real

  function PrincipalStep(arg: C -> real): StepFn {
    (z: C, w: C) => Step(arg, z, w)
  }

  /** What the rest of the development uses of a step. */
  ghost predicate StepLaws(step: StepFn) { RangeLaw(step) && SideLaw(step) && DetourLaw(step) }

  /** A step is at most half a turn, and reverses unless it is exactly half a turn. */
  ghost predicate RangeLaw(step: StepFn) {
    && (forall z, w :: -0.5 < step(z, w) <= 0.5)
    && (forall z, w :: z != ZERO && w != ZERO && step(z, w) != 0.5 ==> step(w, z) == -step(z, w))
  }

  /** It is additive inside each half-plane. */
  ghost predicate SideLaw(step: StepFn) {
    forall s: Side, z, w, u {:trigger s.Has(w), Detour(step, z, w, u)} ::
      s.Has(z) && s.Has(w) && s.Has(u) ==> step(z, u) == Detour(step, z, w, u)
  }

  /** It is additive up to whole turns everywhere. */
  ghost predicate DetourLaw(step: StepFn) {
    forall z, w, u {:trigger Detour(step, z, w, u)} ::
      z != ZERO && w != ZERO && u != ZERO ==> Congruent(step(z, u), Detour(step, z, w, u))
  }

  /** The two steps from z to u by way of w. */
  function Detour(step: StepFn, z: C, w: C, u: C): real { step(z, w) + step(w, u) }

  /** The principal step reverses. */
  lemma PrincipalStepReverses(arg: C -> real)
    requires IsAngle(arg)
    ensures RangeLaw(PrincipalStep(arg))
  {
    var step := PrincipalStep(arg);
    forall z: C, w: C
      ensures -0.5 < step(z, w) <= 0.5
      ensures z != ZERO && w != ZERO && step(z, w) != 0.5 ==> step(w, z) == -step(z, w)
    {
      if z != ZERO && w != ZERO && step(z, w) != 0.5 {
        StepReversed(arg, z, w);
      }
    }
  }

  lemma DetourOnSide(arg: C -> real, s: Side, z: C, w: C, u: C)
    requires IsAngle(arg) && s.Has(z) && s.Has(w) && s.Has(u)
    ensures PrincipalStep(arg)(z, u) == Detour(PrincipalStep(arg), z, w, u)
  {
    StepOnSide(arg, s, z, w);
    StepOnSide(arg, s, w, u);
    StepOnSide(arg, s, z, u);
  }

  /** It is additive inside each half-plane. */
  lemma PrincipalStepOnSides(arg: C -> real)
    requires IsAngle(arg)
    ensures SideLaw(PrincipalStep(arg))
  {
    var step := PrincipalStep(arg);
    forall s: Side, z: C, w: C, u: C | s.Has(z) && s.Has(w) && s.Has(u)
      ensures step(z, u) == Detour(step, z, w, u)
    {
      DetourOnSide(arg, s, z, w, u);
    }
  }

  /** And it is additive up to whole turns. */
  lemma PrincipalStepDetours(arg: C -> real)
    requires IsAngle(arg)
    ensures DetourLaw(PrincipalStep(arg))
  {
    var step := PrincipalStep(arg);
    forall z: C, w: C, u: C | z != ZERO && w != ZERO && u != ZERO
      ensures Congruent(step(z, u), Detour(step, z, w, u))
    {
      StepCocycle(arg, z, w, u);
    }
  }

  /** Twice the area of the triangle from the origin over z and w, positive when w lies to the left of z. */
  function Cross(z: C, w: C): real { z.re * w.im - z.im * w.re }

  /** The step turns to the left exactly when the next sample does, and half a turn exactly to the opposite ray. */
  lemma PrincipalStepSign(arg: C -> real, z: C, w: C)
    requires IsAngle(arg)
    ensures 0.0 < PrincipalStep(arg)(z, w) < 0.5 <==> Cross(z, w) > 0.0
    ensures -0.5 < PrincipalStep(arg)(z, w) < 0.0 <==> Cross(z, w) < 0.0
    ensures PrincipalStep(arg)(z, w) == 0.5 <==> Cross(z, w) == 0.0 && z.re * w.re + z.im * w.im < 0.0
  {
    ConjugateProduct(z, w);
    assert AngleSign(arg, Mul(w, Conj(z)));
  }

  lemma ConjugateProduct(z: C, w: C)
    ensures Mul(w, Conj(z)) == C(z.re * w.re + z.im * w.im, Cross(z, w))
  {
    NegatedFactor(w.im, z.im);
    NegatedFactor(w.re, z.im);
  }

  lemma NegatedFactor(x: real, y: real)
    ensures x * (-y) == -(x * y)
  {
  }

  /** The principal step satisfies all the laws that the conservation theorems rest on. */
  lemma PrincipalStepLaws(arg: C -> real)
    requires IsAngle(arg)
    ensures StepLaws(PrincipalStep(arg))
  {
    PrincipalStepReverses(arg);
    PrincipalStepOnSides(arg);
    PrincipalStepDetours(arg);
  }

  lemma StepCocycle(arg: C -> real, z: C, w: C, u: C)
    requires IsAngle(arg) && z != ZERO && w != ZERO && u != ZERO
    ensures Congruent(Step(arg, z, u), Step(arg, z, w) + Step(arg, w, u))
  {
    var i := StepDifference(arg, z, w);
    var j := StepDifference(arg, w, u);
    var k := StepDifference(arg, z, u);
    CongruentCocycle(arg(z), arg(w), arg(u), i, j, k);
  }

  lemma CongruentCocycle(a: real, b: real, c: real, i: int, j: int, k: int)
    ensures Congruent(c - a + k as real, (b - a + i as real) + (c - b + j as real))
  {
    assert c - a + k as real == (b - a + i as real) + (c - b + j as real) + (k - (i + j)) as real;
  }

  /** The angle of the edge that leaves sample i of a closed loop. */
  function EdgeAngle(step: StepFn, loop: seq<C>, i: int): real
    requires 0 <= i < |loop|
  {
    step( loop[i], loop[if i + 1 == |loop| then 0 else i + 1])
  }

  /** The edge angles as a function on all integers, zero off the loop. */
  function EdgeAngles(step: StepFn, loop: seq<C>): int -> real {
    i => if 0 <= i < |loop| then EdgeAngle(step, loop, i) else 0.0
  }

  function ClosedAngle(step: StepFn, loop: seq<C>): real {
    Sum(0, |loop|, EdgeAngles(step, loop))
  }

  predicate TouchesFloor(loop: seq<C>) {
    exists i :: 0 <= i < |loop| && NormSq(loop[i]) <= AMPLITUDE_FLOOR * AMPLITUDE_FLOOR
  }

  predicate TouchesBranch(step: StepFn, limit: real, loop: seq<C>) {
    exists i :: 0 <= i < |loop| &&
      (EdgeAngle(step, loop, i) >= limit || -EdgeAngle(step, loop, i) >= limit)
  }

  /** Rounding to the nearest integer, halves to even. */
  function Rint(x: real): (n: int)
    ensures -0.5 <= x - n as real <= 0.5
    ensures x - n as real == 0.5 || x - n as real == -0.5 ==> n % 2 == 0
  {
    var f := x.Floor;
    if x - f as real < 0.5 then f
    else if x - f as real > 0.5 then f + 1
    else if f % 2 == 0 then f
    else f + 1
  }

  datatype Readout = Readout(closedAngle: real, reasons: seq<Reason>, winding: Option<int>)

  /** The estimator readout of a closed loop of samples. */
  function Diagnostic(step: StepFn, limit: real, loop: seq<C>): Readout
    requires |loop| >= 3
  {
    var total := ClosedAngle(step, loop);
    var nearest := Rint(total);
    var residual := total - nearest as real;
    var reasons :=
      (if TouchesFloor(loop) then [AmplitudeAtOrBelowFloor] else [])
      + (if TouchesBranch(step, limit, loop) then [BranchAmbiguity] else [])
      + (if residual > RESIDUAL_TOLERANCE || -residual > RESIDUAL_TOLERANCE then [NonIntegerIncrement] else []);
    Readout(total, reasons, if reasons == [] then Some(nearest) else None)
  }

  lemma AboveFloorNonzero(loop: seq<C>)
    requires !TouchesFloor(loop)
    ensures forall i :: 0 <= i < |loop| ==> loop[i] != ZERO
  {
    forall i | 0 <= i < |loop|
      ensures loop[i] != ZERO
    {
      assert NormSq(loop[i]) > AMPLITUDE_FLOOR * AMPLITUDE_FLOOR;
      assert NormSq(ZERO) == 0.0;
    }
  }

  lemma SelfStep(step: StepFn, z: C)
    requires StepLaws(step) && z != ZERO
    ensures step(z, z) == 0.0
  {
    assert Congruent(step(z, z), Detour(step, z, z, z));
    var k := (step(z, z) - Detour(step, z, z, z)).Floor;
    assert 0 as real == 0.0;
  }

  /** Up to whole turns, the angle read so far is the direct step from the first sample. */
  lemma {:induction false} PartialAngle(step: StepFn, loop: seq<C>, n: nat)
    requires StepLaws(step) && 1 <= n <= |loop|
    requires forall i :: 0 <= i < |loop| ==> loop[i] != ZERO
    ensures Congruent(Sum(0, n - 1, EdgeAngles(step, loop)), step(loop[0], loop[n - 1]))
  {
    if n == 1 {
      SelfStep(step, loop[0]);
      assert 0 as real == 0.0;
      assert Sum(0, 0, EdgeAngles(step, loop)) == step(loop[0], loop[0]) + 0 as real;
    } else {
      PartialAngle(step, loop, n - 1);
      var a, b, c := loop[0], loop[n - 2], loop[n - 1];
      CongruentChain(Sum(0, n - 2, EdgeAngles(step, loop)), step(a, b), step(b, c), step(a, c)) by {
        assert Congruent(step(a, c), Detour(step, a, b, c));
      }
      assert EdgeAngles(step, loop)(n - 2) == step(b, c);
    }
  }

  /** The closed angle of a loop without a zero sample is a whole number of turns. */
  lemma ClosedAngleIsWholeTurns(step: StepFn, loop: seq<C>) returns (k: int)
    requires StepLaws(step) && |loop| >= 1
    requires forall i :: 0 <= i < |loop| ==> loop[i] != ZERO
    ensures ClosedAngle(step, loop) == k as real
  {
    var n := |loop|;
    PartialAngle(step, loop, n);
    var a, b := loop[0], loop[n - 1];
    var i := (Sum(0, n - 1, EdgeAngles(step, loop)) - step(a, b)).Floor;
    SelfStep(step, a);
    assert Congruent(step(a, a), Detour(step, a, b, a));
    var j := (step(a, a) - Detour(step, a, b, a)).Floor;
    assert EdgeAngles(step, loop)(n - 1) == step(b, a);
    k := i - j;
  }

  /** Every sample is above the amplitude floor. */
  ghost predicate AllAboveFloor(loop: seq<C>) {
    forall i :: 0 <= i < |loop| ==> NormSq(loop[i]) > AMPLITUDE_FLOOR * AMPLITUDE_FLOOR
  }

  /** Every edge angle is inside the admitted range. */
  ghost predicate AllInRange(step: StepFn, limit: real, loop: seq<C>) {
    forall i :: 0 <= i < |loop| ==> -limit < EdgeAngle(step, loop, i) < limit
  }

  predicate FarFrom(angle: real, k: int) {
    angle - k as real > RESIDUAL_TOLERANCE || k as real - angle > RESIDUAL_TOLERANCE
  }

  /** No integer is within the tolerance of the angle. */
  ghost predicate FarFromIntegers(angle: real) { forall k: int :: FarFrom(angle, k) }

  /** A nearest integer is within the tolerance as soon as some integer is. */
  lemma NearestDecides(angle: real)
    ensures FarFromIntegers(angle) <==> FarFrom(angle, Rint(angle))
  {
    var n := Rint(angle);
    forall k: int | k != n
      ensures FarFrom(angle, k)
    {
      assert k > n ==> k as real >= n as real + 1.0;
      assert k < n ==> k as real <= n as real - 1.0;
    }
  }

  /** When each of the three reasons is given. */
  lemma ReasonsExact(step: StepFn, limit: real, loop: seq<C>)
    requires |loop| >= 3
    ensures var r := Diagnostic(step, limit, loop);
            && (AmplitudeAtOrBelowFloor in r.reasons <==> !AllAboveFloor(loop))
            && (BranchAmbiguity in r.reasons <==> !AllInRange(step, limit, loop))
            && (NonIntegerIncrement in r.reasons <==> FarFromIntegers(r.closedAngle))
            && (r.reasons == [] <==>
                  AllAboveFloor(loop) && AllInRange(step, limit, loop) && !FarFromIntegers(r.closedAngle))
  {
    NearestDecides(ClosedAngle(step, loop));
  }

  /**
   In exact arithmetic the non-integer gate never fires on its own: without a floor failure the
   closed angle is exactly a whole number of turns, and a reliable readout reports that number.
   */
  lemma DiagnosticExact(step: StepFn, limit: real, loop: seq<C>)
    requires StepLaws(step) && |loop| >= 3
    ensures var r := Diagnostic(step, limit, loop);
            && (AllAboveFloor(loop) ==> NonIntegerIncrement !in r.reasons)
            && (r.winding.Some? <==> r.reasons == [])
            && (r.winding.Some? <==> AllAboveFloor(loop) && AllInRange(step, limit, loop))
            && (r.winding.Some? ==> r.closedAngle == r.winding.value as real)
  {
    ReasonsExact(step, limit, loop);
    if AllAboveFloor(loop) {
      AboveFloorNonzero(loop);
      var k := ClosedAngleIsWholeTurns(step, loop);
    }
  }

  /** The loop read from another origin. */
  function Rotated(loop: seq<C>): seq<C>
    requires loop != []
  {
    [loop[|loop| - 1]] + loop[..|loop| - 1]
  }

  /** The loop read backwards from the same origin. */
  function Backwards(loop: seq<C>): seq<C> {
    seq(|loop|, i requires 0 <= i < |loop| => loop[if i == 0 then 0 else |loop| - i])
  }

  /** Position of sample i of the rotated loop in the loop itself. */
  function Before(n: nat, i: int): int { if i == 0 then n - 1 else i - 1 }

  lemma RotatedEdges(step: StepFn, loop: seq<C>)
    requires loop != []
    ensures forall i :: 0 <= i < |loop| ==>
      && Rotated(loop)[i] == loop[Before(|loop|, i)]
      && EdgeAngle(step, Rotated(loop), i) == EdgeAngle(step, loop, Before(|loop|, i))
  {
  }

  lemma RotatedClosedAngle(step: StepFn, loop: seq<C>)
    requires loop != []
    ensures ClosedAngle(step, Rotated(loop)) == ClosedAngle(step, loop)
  {
    var n, turned := |loop|, Rotated(loop);
    var f, g := EdgeAngles(step, loop), EdgeAngles(step, turned);
    RotatedEdges(step, loop);
    forall i | 0 <= i < n
      ensures g(i) == f(Before(n, i))
    {
      assert EdgeAngle(step, turned, i) == EdgeAngle(step, loop, Before(n, i));
    }
    assert g(0) == f(Before(n, 0));
    forall i | 0 <= i < n - 1
      ensures f(i) == g(i + 1)
    {
      assert Before(n, i + 1) == i;
    }
    SumRotated(n, f, g);
  }

  function After(n: nat, i: int): int { if i == n - 1 then 0 else i + 1 }

  lemma RotatedGates(step: StepFn, limit: real, loop: seq<C>)
    requires loop != []
    ensures TouchesFloor(Rotated(loop)) == TouchesFloor(loop)
    ensures TouchesBranch(step, limit, Rotated(loop)) == TouchesBranch(step, limit, loop)
  {
    var n, turned := |loop|, Rotated(loop);
    RotatedEdges(step, loop);
    forall i | 0 <= i < n
      ensures 0 <= After(n, i) < n && turned[After(n, i)] == loop[i]
      ensures EdgeAngle(step, turned, After(n, i)) == EdgeAngle(step, loop, i)
    {
      assert Before(n, After(n, i)) == i;
    }
  }

  /** The reading does not depend on the origin of the loop. */
  lemma OriginFree(step: StepFn, limit: real, loop: seq<C>)
    requires |loop| >= 3
    ensures Diagnostic(step, limit, Rotated(loop)) == Diagnostic(step, limit, loop)
  {
    RotatedClosedAngle(step, loop);
    RotatedGates(step, limit, loop);
  }

  lemma BackwardsEdge(step: StepFn, loop: seq<C>, i: nat)
    requires StepLaws(step) && i < |loop|
    requires forall j :: 0 <= j < |loop| ==> loop[j] != ZERO
    requires EdgeAngle(step, loop, |loop| - 1 - i) != 0.5
    ensures EdgeAngle(step, Backwards(loop), i) == -EdgeAngle(step, loop, |loop| - 1 - i)
  {
    var j := |loop| - 1 - i;
    var next := if j + 1 == |loop| then 0 else j + 1;
    assert EdgeAngle(step, loop, j) == step(loop[j], loop[next]);
    assert Backwards(loop)[i] == loop[next];
    assert Backwards(loop)[if i + 1 == |loop| then 0 else i + 1] == loop[j];
  }

  lemma BackwardsEdges(step: StepFn, limit: real, loop: seq<C>)
    requires StepLaws(step) && IsBranchLimit(limit) && !TouchesFloor(loop) && !TouchesBranch(step, limit, loop)
    ensures forall i :: 0 <= i < |loop| ==>
      EdgeAngle(step, Backwards(loop), i) == -EdgeAngle(step, loop, |loop| - 1 - i)
  {
    AboveFloorNonzero(loop);
    forall i | 0 <= i < |loop|
      ensures EdgeAngle(step, Backwards(loop), i) == -EdgeAngle(step, loop, |loop| - 1 - i)
    {
      assert EdgeAngle(step, loop, |loop| - 1 - i) < limit;
      BackwardsEdge(step, loop, i);
    }
  }

  lemma BackwardsGates(step: StepFn, limit: real, loop: seq<C>)
    requires StepLaws(step) && IsBranchLimit(limit) && !TouchesFloor(loop) && !TouchesBranch(step, limit, loop)
    ensures !TouchesFloor(Backwards(loop)) && !TouchesBranch(step, limit, Backwards(loop))
  {
    BackwardsEdges(step, limit, loop);
  }

  lemma BackwardsClosedAngle(step: StepFn, limit: real, loop: seq<C>)
    requires StepLaws(step) && IsBranchLimit(limit) && !TouchesFloor(loop) && !TouchesBranch(step, limit, loop)
    ensures ClosedAngle(step, Backwards(loop)) == -ClosedAngle(step, loop)
  {
    var n := |loop|;
    var f, g := EdgeAngles(step, loop), EdgeAngles(step, Backwards(loop));
    var minus: int -> real := i => -f(i);
    BackwardsEdges(step, limit, loop);
    forall i | 0 <= i < n
      ensures g(i) == minus(n - 1 - i)
    {
      assert EdgeAngle(step, Backwards(loop), i) == -EdgeAngle(step, loop, n - 1 - i);
    }
    SumReverse(0, n, n - 1, g, minus);
    SumNegated(0, n, f, minus);
  }

  /** A reliable loop read backwards is reliable, with the opposite winding. */
  lemma BackwardsNegates(step: StepFn, limit: real, loop: seq<C>)
    requires StepLaws(step) && |loop| >= 3
    requires IsBranchLimit(limit) && Diagnostic(step, limit, loop).winding.Some?
    ensures Diagnostic(step, limit, Backwards(loop)).winding == Some(-Diagnostic(step, limit, loop).winding.value)
  {
    var back := Backwards(loop);
    DiagnosticExact(step, limit, loop);
    DiagnosticExact(step, limit, back);
    BackwardsGates(step, limit, loop);
    BackwardsClosedAngle(step, limit, loop);
  }

  lemma {:induction false} SumNegated(lo: int, hi: int, f: int -> real, g: int -> real)
    requires forall i :: lo <= i < hi ==> g(i) == -f(i)
    ensures Sum(lo, hi, g) == -Sum(lo, hi, f)
    decreases hi - lo
  {
    if lo >= hi {
    } else {
      SumNegated(lo, hi - 1, f, g);
    }
  }
}
