/** What one component reading says, and which readings are scored. */
module ScoredReadings {
  import opened Basics
  import opened Complex
  import opened Winding
  import opened SpatialFidelity
  import opened Scoring

  /**
   A component counts as resolved and charged exactly when the locator gave no reason against it, no sample is at or
   below the floor, no edge angle is outside the admitted range, and its closed angle is not zero; its unresolved
   reasons are those of the locator and those of the loop.
   */
  lemma ReadingExact(step: StepFn, limit: real, c: Component, samples: seq<C>)
    requires StepLaws(step) && |samples| >= 3
    ensures var r := ReadComponent(step, limit, c, samples);
      && r.component == c && r.diagnostic == Diagnostic(step, limit, samples)
      && (forall reason :: reason in r.unresolved <==> reason in c.reasons || reason in r.diagnostic.reasons)
      && (r.resolvedCharged <==>
            && c.reasons == [] && AllAboveFloor(samples) && AllInRange(step, limit, samples)
            && r.diagnostic.closedAngle != 0.0)
      && (r.resolvedCharged ==> r.diagnostic.winding.Some?)
  {
    DiagnosticExact(step, limit, samples);
    var r, d := ReadComponent(step, limit, c, samples), Diagnostic(step, limit, samples);
    assert c.reasons != [] ==> c.reasons[0] in r.unresolved;
    assert d.reasons != [] ==> d.reasons[0] in r.unresolved;
    assert 0 as real == 0.0;
  }

  /** The scored readings from a position on: increasing, each resolved and charged, none left out. */
  ghost predicate Scored(readings: seq<Reading>, from: nat, charges: seq<int>, at: seq<nat>) {
    && |at| == |charges|
    && (forall k :: 0 <= k < |at| ==> from <= at[k] < |readings| && ChargedAt(readings, at[k], charges[k]))
    && (forall k, l :: 0 <= k < l < |at| ==> at[k] < at[l])
    && (forall i: nat :: from <= i < |readings| && IsScored(readings, i) ==> i in at)
  }

  predicate ChargedAt(readings: seq<Reading>, i: nat, charge: int)
    requires i < |readings|
  {
    readings[i].resolvedCharged && readings[i].diagnostic.winding == Some(charge)
  }

  predicate IsScored(readings: seq<Reading>, i: nat)
    requires i < |readings|
  {
    readings[i].resolvedCharged && readings[i].diagnostic.winding.Some?
  }

  lemma {:induction false} ScoredFrom(readings: seq<Reading>, from: nat) returns (at: seq<nat>)
    requires from <= |readings|
    ensures Scored(readings, from, ResolvedCharges(readings[from..]), at)
    decreases |readings| - from
  {
    if from == |readings| {
      at := [];
    } else {
      var rest := ScoredFrom(readings, from + 1);
      assert readings[from..][1..] == readings[from + 1..];
      var charges := ResolvedCharges(readings[from + 1..]);
      if IsScored(readings, from) {
        at := [from] + rest;
        OneMore(readings, from, charges, rest);
      } else {
        at := rest;
        assert ResolvedCharges(readings[from..]) == charges;
      }
    }
  }

  lemma OneMore(readings: seq<Reading>, from: nat, charges: seq<int>, rest: seq<nat>)
    requires from < |readings| && IsScored(readings, from) && Scored(readings, from + 1, charges, rest)
    ensures Scored(readings, from, [readings[from].diagnostic.winding.value] + charges, [from] + rest)
  {
    var at := [from] + rest;
    assert at[0] == from;
    forall i: nat | from <= i < |readings| && IsScored(readings, i)
      ensures i in at
    {
      assert i != from ==> i in rest;
    }
  }

  /** The scored charges are the windings of exactly the resolved charged components, in the order of the components. */
  lemma ResolvedChargesExact(readings: seq<Reading>) returns (at: seq<nat>)
    ensures Scored(readings, 0, ResolvedCharges(readings), at)
  {
    at := ScoredFrom(readings, 0);
    assert readings[0..] == readings;
  }
}
