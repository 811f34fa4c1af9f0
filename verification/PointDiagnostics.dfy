/** Point series with a value or a reason per point, and their fixed quantile summaries. */
module PointDiagnostics {
  import opened Basics
  import opened SegmentDiagnostics

  // ----- Quantiles -----

  predicate Ascending(x: seq<real>) { forall i, j :: 0 <= i <= j < |x| ==> x[i] <= x[j] }

  function InsertValue(x: seq<real>, v: real): seq<real> {
    if x == [] || x[|x| - 1] <= v then x + [v] else InsertValue(x[..|x| - 1], v) + [x[|x| - 1]]
  }

  function Sorted(x: seq<real>): seq<real> {
    if x == [] then [] else InsertValue(Sorted(x[..|x| - 1]), x[|x| - 1])
  }

  lemma {:induction false} InsertValueKeeps(x: seq<real>, v: real)
    ensures multiset(InsertValue(x, v)) == multiset(x) + multiset{v}
  {
    if x == [] || x[|x| - 1] <= v {
    } else {
      InsertValueKeeps(x[..|x| - 1], v);
      assert x == x[..|x| - 1] + [x[|x| - 1]];
    }
  }

  lemma InsertedBelow(x: seq<real>, v: real, bound: real)
    requires v <= bound && forall i :: 0 <= i < |x| ==> x[i] <= bound
    ensures forall i :: 0 <= i < |InsertValue(x, v)| ==> InsertValue(x, v)[i] <= bound
  {
    var inserted := InsertValue(x, v);
    InsertValueKeeps(x, v);
    forall i | 0 <= i < |inserted|
      ensures inserted[i] <= bound
    {
      assert inserted[i] in multiset(inserted);
      assert inserted[i] in multiset(x) || inserted[i] == v;
      assert inserted[i] in x || inserted[i] == v;
    }
  }

  lemma AppendAscends(x: seq<real>, last: real)
    requires Ascending(x) && forall i :: 0 <= i < |x| ==> x[i] <= last
    ensures Ascending(x + [last])
  {
  }

  lemma {:induction false} InsertValueAscends(x: seq<real>, v: real)
    requires Ascending(x)
    ensures Ascending(InsertValue(x, v))
  {
    if x == [] || x[|x| - 1] <= v {
      AppendAscends(x, v);
    } else {
      InsertValueAscends(x[..|x| - 1], v);
      InsertedBelow(x[..|x| - 1], v, x[|x| - 1]);
      AppendAscends(InsertValue(x[..|x| - 1], v), x[|x| - 1]);
    }
  }

  /** Sorting gives the same values in ascending order. */
  lemma {:induction false} SortedAscends(x: seq<real>)
    ensures Ascending(Sorted(x)) && multiset(Sorted(x)) == multiset(x) && |Sorted(x)| == |x|
  {
    if x == [] {
    } else {
      SortedAscends(x[..|x| - 1]);
      InsertValueKeeps(Sorted(x[..|x| - 1]), x[|x| - 1]);
      InsertValueAscends(Sorted(x[..|x| - 1]), x[|x| - 1]);
      assert x == x[..|x| - 1] + [x[|x| - 1]];
    }
    assert |Sorted(x)| == |multiset(Sorted(x))| == |multiset(x)| == |x|;
  }

  lemma FrontOf(x: seq<real>)
    requires x != []
    ensures multiset(x[..|x| - 1]) == multiset(x) - multiset{x[|x| - 1]}
  {
    assert x == x[..|x| - 1] + [x[|x| - 1]];
  }

  lemma LastOf(a: seq<real>, b: seq<real>)
    requires Ascending(a) && Ascending(b) && multiset(a) == multiset(b) && a != []
    ensures |b| == |a| && a[|a| - 1] == b[|b| - 1]
  {
    assert |a| == |multiset(a)| == |multiset(b)| == |b|;
    assert a[|a| - 1] in multiset(b) && b[|b| - 1] in multiset(a);
    assert a[|a| - 1] in b && b[|b| - 1] in a;
  }

  lemma {:induction false} AscendingUnique(a: seq<real>, b: seq<real>)
    requires Ascending(a) && Ascending(b) && multiset(a) == multiset(b)
    ensures a == b
    decreases |a|
  {
    assert |a| == |multiset(a)| == |multiset(b)| == |b|;
    if a == [] {
    } else {
      LastOf(a, b);
      FrontOf(a);
      FrontOf(b);
      AscendingUnique(a[..|a| - 1], b[..|b| - 1]);
      assert a == a[..|a| - 1] + [a[|a| - 1]] && b == b[..|b| - 1] + [b[|b| - 1]];
    }
  }

  /** Weighted endpoints. */
  function Mix(low: real, high: real, f: real): real { (1.0 - f) * low + f * high }

  function Lower(m: nat): nat { m / 4 }

  function Upper(m: nat): nat { if m % 4 == 0 then m / 4 else m / 4 + 1 }

  function Fraction(m: nat): real { (m % 4) as real / 4.0 }

  /** The value at a location counted in quarter steps, between the ordered values on either side. */
  function AtQuarter(x: seq<real>, m: nat): real
    requires x != [] && m <= 4 * (|x| - 1)
  {
    Mix(x[Lower(m)], x[Upper(m)], Fraction(m))
  }

  datatype Five = Five(min: real, q25: real, median: real, q75: real, max: real)

  datatype Summary = Summary(count: nat, values: Option<Five>)

  /** The fixed summary: linear quantiles of the ordered values, and nothing for no values. */
  function FixedSummary(values: seq<real>): Summary {
    if values == [] then Summary(0, None)
    else
      SortedAscends(values);
      var x := Sorted(values);
      var steps := |x| - 1;
      Summary(|x|, Some(Five(x[0], AtQuarter(x, steps), AtQuarter(x, 2 * steps), AtQuarter(x, 3 * steps), x[steps])))
  }

  lemma MixAsRise(low: real, high: real, f: real)
    ensures Mix(low, high, f) == low + f * (high - low)
  {
  }

  lemma BetweenNeighbours(low: real, high: real, f: real, g: real)
    requires low <= high && 0.0 <= f <= g <= 1.0
    ensures low <= Mix(low, high, f) <= Mix(low, high, g) <= high
  {
    MixAsRise(low, high, f);
    MixAsRise(low, high, g);
    Scaled(high - low, f, g);
  }

  lemma Scaled(rise: real, f: real, g: real)
    requires rise >= 0.0 && 0.0 <= f <= g <= 1.0
    ensures 0.0 <= f * rise <= g * rise <= rise
  {
    assert (g - f) * rise >= 0.0 && (1.0 - g) * rise >= 0.0;
  }

  lemma FractionRange(m: nat, n: nat)
    requires m <= n
    ensures 0.0 <= Fraction(m) <= 1.0
    ensures Lower(m) == Lower(n) ==> Fraction(m) <= Fraction(n)
  {
    assert Lower(m) == Lower(n) ==> m % 4 <= n % 4;
  }

  lemma QuarterBounds(x: seq<real>, m: nat)
    requires x != [] && m <= 4 * (|x| - 1) && Ascending(x)
    ensures x[Lower(m)] <= AtQuarter(x, m) <= x[Upper(m)]
  {
    FractionRange(m, m);
    BetweenNeighbours(x[Lower(m)], x[Upper(m)], Fraction(m), Fraction(m));
  }

  /** Later locations have no smaller values. */
  lemma QuarterMonotone(x: seq<real>, m: nat, n: nat)
    requires x != [] && m <= n <= 4 * (|x| - 1) && Ascending(x)
    ensures AtQuarter(x, m) <= AtQuarter(x, n)
  {
    QuarterBounds(x, m);
    QuarterBounds(x, n);
    if Lower(m) == Lower(n) && m % 4 != 0 {
      FractionRange(m, n);
      FractionRange(n, n);
      BetweenNeighbours(x[Lower(m)], x[Upper(m)], Fraction(m), Fraction(n));
    } else {
      assert Upper(m) <= Lower(n);
    }
  }

  lemma QuartilesOrdered(x: seq<real>)
    requires x != [] && Ascending(x)
    ensures var steps := |x| - 1;
      x[0] <= AtQuarter(x, steps) <= AtQuarter(x, 2 * steps) <= AtQuarter(x, 3 * steps) <= x[steps]
  {
    var steps := |x| - 1;
    assert AtQuarter(x, 0) == x[0] && AtQuarter(x, 4 * steps) == x[steps];
    QuarterMonotone(x, 0, steps);
    QuarterMonotone(x, steps, 2 * steps);
    QuarterMonotone(x, 2 * steps, 3 * steps);
    QuarterMonotone(x, 3 * steps, 4 * steps);
  }

  /** Quantiles are ordered; there are none exactly when there are no values. */
  lemma SummaryOrdered(values: seq<real>)
    ensures FixedSummary(values).count == |values|
    ensures values == [] <==> FixedSummary(values).values.None?
    ensures values != [] ==>
      var s := FixedSummary(values).values.value; s.min <= s.q25 <= s.median <= s.q75 <= s.max
  {
    SortedAscends(values);
    if values != [] {
      QuartilesOrdered(Sorted(values));
    }
  }

  /** The ends of the summary are values, and bound all of them. */
  lemma SummaryAttained(values: seq<real>)
    requires values != []
    ensures var s := FixedSummary(values).values.value;
      s.min in values && s.max in values && forall v :: v in values ==> s.min <= v <= s.max
  {
    SortedAscends(values);
    var x := Sorted(values);
    SameValues(values, x);
    assert x[0] in x && x[|x| - 1] in x;
    forall v | v in values
      ensures x[0] <= v <= x[|x| - 1]
    {
      assert v in x;
    }
  }

  /** v is the value at location t of the ordered values, on the straight line between its two neighbours. */
  ghost predicate Interpolates(x: seq<real>, t: real, v: real) {
    && (forall i :: 0 <= i < |x| && i as real == t ==> v == x[i])
    && (forall i :: 0 <= i < |x| - 1 && i as real <= t <= (i + 1) as real ==> v == OnLine(x, t, i))
  }

  /** The straight line through values i and i + 1. */
  function OnLine(x: seq<real>, t: real, i: nat): real
    requires i + 1 < |x|
  {
    x[i] + (t - i as real) * (x[i + 1] - x[i])
  }

  lemma QuarterInterpolates(x: seq<real>, m: nat)
    requires x != [] && m <= 4 * (|x| - 1)
    ensures Interpolates(x, m as real / 4.0, AtQuarter(x, m))
  {
    var t := m as real / 4.0;
    forall i | 0 <= i < |x| && i as real == t
      ensures AtQuarter(x, m) == x[i]
    {
      WholeQuarter(m, i);
    }
    forall i | 0 <= i < |x| - 1 && i as real <= t <= (i + 1) as real
      ensures AtQuarter(x, m) == OnLine(x, t, i)
    {
      BetweenQuarters(x, m, i);
    }
  }

  lemma WholeQuarter(m: nat, i: nat)
    requires i as real == m as real / 4.0
    ensures m == 4 * i && Lower(m) == i && Upper(m) == i
  {
  }

  lemma QuarterLocation(m: nat, i: nat)
    requires i as real <= m as real / 4.0 <= (i + 1) as real
    ensures 4 * i <= m <= 4 * i + 4
    ensures m < 4 * i + 4 ==> Lower(m) == i && Fraction(m) == m as real / 4.0 - i as real
    ensures 4 * i < m ==> Upper(m) == i + 1
  {
  }

  lemma BetweenQuarters(x: seq<real>, m: nat, i: nat)
    requires i + 1 < |x| && m <= 4 * (|x| - 1) && i as real <= m as real / 4.0 <= (i + 1) as real
    ensures AtQuarter(x, m) == OnLine(x, m as real / 4.0, i)
  {
    QuarterLocation(m, i);
    if m == 4 * i + 4 {
      WholeStep(x[i], x[i + 1]);
    } else if m == 4 * i {
      assert Upper(m) == i;
    } else {
      MixAsRise(x[i], x[i + 1], Fraction(m));
    }
  }

  lemma WholeStep(low: real, high: real)
    ensures low + 1.0 * (high - low) == high
  {
  }

  /** The location of a quantile among count ordered values. */
  function Location(count: nat, q: real): real { (count - 1) as real * q }

  /** The quartiles are the linear interpolations a quarter, half and three quarters of the way along the values. */
  lemma SummaryInterpolates(values: seq<real>, x: seq<real>)
    requires values != [] && Ascending(x) && multiset(x) == multiset(values)
    ensures |x| == |values|
    ensures var s := FixedSummary(values).values.value;
      && s.min == x[0] && s.max == x[|x| - 1]
      && Interpolates(x, Location(|x|, 0.25), s.q25)
      && Interpolates(x, Location(|x|, 0.5), s.median)
      && Interpolates(x, Location(|x|, 0.75), s.q75)
  {
    SortedAscends(values);
    AscendingUnique(x, Sorted(values));
    QuartilesInterpolate(x);
    SummaryOfSorted(values);
  }

  lemma SummaryOfSorted(values: seq<real>)
    requires values != []
    ensures |Sorted(values)| == |values|
    ensures var s, x, steps := FixedSummary(values).values.value, Sorted(values), |values| - 1;
      && s.min == x[0] && s.q25 == AtQuarter(x, steps) && s.median == AtQuarter(x, 2 * steps)
      && s.q75 == AtQuarter(x, 3 * steps) && s.max == x[steps]
  {
    SortedAscends(values);
  }

  lemma QuartilesInterpolate(x: seq<real>)
    requires x != []
    ensures var steps := |x| - 1;
      && Interpolates(x, Location(|x|, 0.25), AtQuarter(x, steps))
      && Interpolates(x, Location(|x|, 0.5), AtQuarter(x, 2 * steps))
      && Interpolates(x, Location(|x|, 0.75), AtQuarter(x, 3 * steps))
  {
    var steps := |x| - 1;
    QuartersOf(steps);
    QuarterInterpolates(x, steps);
    QuarterInterpolates(x, 2 * steps);
    QuarterInterpolates(x, 3 * steps);
  }

  lemma QuartersOf(steps: nat)
    ensures steps as real / 4.0 == Location(steps + 1, 0.25)
    ensures (2 * steps) as real / 4.0 == Location(steps + 1, 0.5)
    ensures (3 * steps) as real / 4.0 == Location(steps + 1, 0.75)
  {
  }

  lemma SameValues(a: seq<real>, b: seq<real>)
    requires multiset(a) == multiset(b)
    ensures forall v :: v in a <==> v in b
  {
    forall v
      ensures v in a <==> v in b
    {
      assert v in a <==> v in multiset(a);
      assert v in b <==> v in multiset(b);
    }
  }

  lemma SummaryOrderFree(a: seq<real>, b: seq<real>)
    requires multiset(a) == multiset(b)
    ensures FixedSummary(a) == FixedSummary(b)
  {
    SortedAscends(a);
    SortedAscends(b);
    AscendingUnique(Sorted(a), Sorted(b));
    assert |a| == |multiset(a)| == |multiset(b)| == |b|;
  }

  // ----- Series -----

  datatype Arm = A | B

  datatype Cause = Unsupported | AtOrBelowFloor(arm: Arm) | NonfiniteAmplitude(arm: Arm) | NonfiniteValue

  /** Amplitudes and derived values; None stands for a value that is not finite. */
  type Values = seq<Option<real>>

  predicate Defined(support: seq<bool>, amplitude: Values, floor: real, i: nat)
    requires i < |support| && i < |amplitude|
  {
    support[i] && amplitude[i].Some? && amplitude[i].value > floor
  }

  /** Which arms a metric needs. */
  datatype Needs = Needs(a: bool, b: bool)

  /** What the series loop reads. */
  datatype Points = Points(support: seq<bool>, amplitudeA: Values, amplitudeB: Values, floor: real)

  predicate Aligned(points: Points, values: Values) {
    |points.support| == |points.amplitudeA| == |points.amplitudeB| == |values|
  }

  predicate Valid(points: Points, needs: Needs, values: Values, i: nat)
    requires Aligned(points, values) && i < |values|
  {
    && points.support[i]
    && (needs.a ==> Defined(points.support, points.amplitudeA, points.floor, i))
    && (needs.b ==> Defined(points.support, points.amplitudeB, points.floor, i))
    && values[i].Some?
  }

  function ArmCauses(required: bool, defined: bool, amplitude: Option<real>, arm: Arm): seq<Cause> {
    if !required || defined then [] else if amplitude.Some? then [AtOrBelowFloor(arm)] else [NonfiniteAmplitude(arm)]
  }

  /** The reasons of a point without a value. */
  function Causes(points: Points, needs: Needs, values: Values, i: nat): (causes: seq<Cause>)
    requires Aligned(points, values) && i < |values|
    ensures causes != []
  {
    if !points.support[i] then [Unsupported]
    else
      var arms :=
        ArmCauses(needs.a, Defined(points.support, points.amplitudeA, points.floor, i), points.amplitudeA[i], A) +
        ArmCauses(needs.b, Defined(points.support, points.amplitudeB, points.floor, i), points.amplitudeB[i], B);
      if arms == [] then [NonfiniteValue] else arms
  }

  /** The reasons of one point, appended arm by arm. */
  method CollectCauses(points: Points, needs: Needs, values: Values, i: nat) returns (causes: seq<Cause>)
    requires Aligned(points, values) && i < |values|
    ensures causes == Causes(points, needs, values, i)
  {
    if !points.support[i] {
      return [Unsupported];
    }
    causes := [];
    if needs.a && !Defined(points.support, points.amplitudeA, points.floor, i) {
      causes := causes + [if points.amplitudeA[i].Some? then AtOrBelowFloor(A) else NonfiniteAmplitude(A)];
    }
    if needs.b && !Defined(points.support, points.amplitudeB, points.floor, i) {
      causes := causes + [if points.amplitudeB[i].Some? then AtOrBelowFloor(B) else NonfiniteAmplitude(B)];
    }
    if causes == [] {
      causes := causes + [NonfiniteValue];
    }
  }

  /** What is wrong with a point. */
  ghost predicate Blames(points: Points, needs: Needs, values: Values, i: nat, cause: Cause)
    requires Aligned(points, values) && i < |values|
  {
    match cause
    case Unsupported => !points.support[i]
    case AtOrBelowFloor(arm) => points.support[i] && Needed(needs, arm)
      && Low(AmplitudeOf(points, arm)[i], points.floor)
    case NonfiniteAmplitude(arm) => points.support[i] && Needed(needs, arm) && AmplitudeOf(points, arm)[i].None?
    case NonfiniteValue =>
      points.support[i] && values[i].None?
      && (Needed(needs, A) ==> Defined(points.support, AmplitudeOf(points, A), points.floor, i))
      && (Needed(needs, B) ==> Defined(points.support, AmplitudeOf(points, B), points.floor, i))
  }

  predicate Needed(needs: Needs, arm: Arm) { if arm == A then needs.a else needs.b }

  function AmplitudeOf(points: Points, arm: Arm): Values { if arm == A then points.amplitudeA else points.amplitudeB }

  predicate Low(amplitude: Option<real>, floor: real) { amplitude.Some? && amplitude.value <= floor }

  /** A point without a value is blamed for exactly what is wrong with it. */
  ghost predicate BlamedExactly(points: Points, needs: Needs, values: Values, i: nat, causes: seq<Cause>)
    requires Aligned(points, values) && i < |values|
  {
    causes != [] && forall cause :: cause in causes <==> Blames(points, needs, values, i, cause)
  }

  lemma CausesExact(points: Points, needs: Needs, values: Values, i: nat)
    requires Aligned(points, values) && i < |values| && !Valid(points, needs, values, i)
    ensures BlamedExactly(points, needs, values, i, Causes(points, needs, values, i))
  {
    forall cause
      ensures cause in Causes(points, needs, values, i) <==> Blames(points, needs, values, i, cause)
    {
      CauseExact(points, needs, values, i, cause);
    }
  }

  lemma CauseExact(points: Points, needs: Needs, values: Values, i: nat, cause: Cause)
    requires Aligned(points, values) && i < |values| && !Valid(points, needs, values, i)
    ensures cause in Causes(points, needs, values, i) <==> Blames(points, needs, values, i, cause)
  {
  }

  /** A point has a value exactly when nothing is wrong with it. */
  lemma ValidIffBlameless(points: Points, needs: Needs, values: Values, i: nat)
    requires Aligned(points, values) && i < |values|
    ensures Valid(points, needs, values, i) <==> forall cause :: !Blames(points, needs, values, i, cause)
  {
    if Valid(points, needs, values, i) {
      forall cause
        ensures !Blames(points, needs, values, i, cause)
      {
        NothingWrong(points, needs, values, i, cause);
      }
    } else {
      CausesExact(points, needs, values, i);
      var causes := Causes(points, needs, values, i);
      assert causes[0] in causes;
    }
  }

  lemma NothingWrong(points: Points, needs: Needs, values: Values, i: nat, cause: Cause)
    requires Aligned(points, values) && i < |values| && Valid(points, needs, values, i)
    ensures !Blames(points, needs, values, i, cause)
  {
  }

  /** One series: each point has either its value or its reasons, never both and never neither. */
  method Series(points: Points, needs: Needs, values: Values)
    returns (series: Values, failures: seq<Option<seq<Cause>>>)
    requires Aligned(points, values)
    ensures |series| == |failures| == |values|
    ensures forall i :: 0 <= i < |values| ==> (series[i].Some? <==> failures[i].None?)
    ensures forall i :: 0 <= i < |values| ==>
      if Valid(points, needs, values, i) then series[i] == values[i]
      else
        && failures[i] == Some(Causes(points, needs, values, i))
        && BlamedExactly(points, needs, values, i, failures[i].value)
    ensures forall i :: 0 <= i < |values| ==>
      (series[i].Some? <==> forall cause :: !Blames(points, needs, values, i, cause))
  {
    series, failures := [], [];
    var i := 0;
    while i < |values|
      invariant i <= |values| && |series| == |failures| == i
      invariant forall j :: 0 <= j < i ==> (series[j].Some? <==> failures[j].None?)
      invariant forall j :: 0 <= j < i ==>
        if Valid(points, needs, values, j) then series[j] == values[j]
        else
          && failures[j] == Some(Causes(points, needs, values, j))
          && BlamedExactly(points, needs, values, j, failures[j].value)
      invariant forall j :: 0 <= j < i ==> (Valid(points, needs, values, j) <==> series[j].Some?)
      invariant forall j :: 0 <= j < i ==>
        (series[j].Some? <==> forall cause :: !Blames(points, needs, values, j, cause))
    {
      ValidIffBlameless(points, needs, values, i);
      if Valid(points, needs, values, i) {
        series, failures := series + [values[i]], failures + [None];
      } else {
        series := series + [None];
        var causes := CollectCauses(points, needs, values, i);
        CausesExact(points, needs, values, i);
        failures := failures + [Some(causes)];
      }
      i := i + 1;
    }
  }

  // ----- The closest column -----

  /** The closest parameters, filled first where there is no perturbation and then where there is one. */
  method ClosestColumn(hypot: Hypot, ra: seq<Vec>, rb: seq<Vec>) returns (closest: array<real>)
    requires |ra| == |rb| && IsHypot(hypot)
    ensures fresh(closest) && closest.Length == |ra|
    ensures forall i :: 0 <= i < |ra| ==> closest[i] == ClosestLambda(hypot, ra[i], rb[i])
  {
    closest := new real[|ra|](_ => -1.0);
    forall i | 0 <= i < |ra| && hypot(Minus(rb[i], ra[i])) == 0.0 {
      closest[i] := 0.0;
    }
    forall i | 0 <= i < |ra| && hypot(Minus(rb[i], ra[i])) > 0.0 {
      closest[i] := Clip(
        -Dot(ra[i], Vec(Minus(rb[i], ra[i]).x / hypot(Minus(rb[i], ra[i])),
                        Minus(rb[i], ra[i]).y / hypot(Minus(rb[i], ra[i]))))
        / hypot(Minus(rb[i], ra[i])));
    }
  }

  /** Where both amplitudes are above the floor the segment ratio lies between zero and one. */
  lemma SegmentRatioBounded(hypot: Hypot, a: Vec, b: Vec, floor: real)
    requires IsHypot(hypot) && floor > 0.0 && hypot(a) > floor && hypot(b) > floor
    ensures var endpoint := if hypot(a) <= hypot(b) then hypot(a) else hypot(b);
      0.0 <= MinimumSegment(hypot, a, b) / endpoint <= 1.0
  {
    MinimumBelowEndpoints(hypot, a, b);
    var endpoint := if hypot(a) <= hypot(b) then hypot(a) else hypot(b);
    RatioBounded(MinimumSegment(hypot, a, b), endpoint);
  }

  lemma RatioBounded(x: real, y: real)
    requires 0.0 <= x <= y && y > 0.0
    ensures 0.0 <= x / y <= 1.0
  {
    var ratio := x / y;
    assert ratio * y == x;
  }
}
