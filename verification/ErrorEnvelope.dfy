/** The error envelope: radii covering every disjoint pair of calibration cohorts. */
module ErrorEnvelope {
  import opened Basics
  import opened Complex
  import opened Modulus
  import opened CenterIdentifiability

  /** The affine reference rows fitted for one cohort. */
  datatype Coefficients = Coefficients(c0: C, cx: C, cy: C)

  datatype Reference = Reference(seed: int, k: int, hypothesis: int, coefficients: Coefficients,
                                 sealedForCalibration: bool)

  /** A calibration report; admissible stands for its lane, its repeat counts and its chronology flags. */
  datatype Report = Report(seed: int, admissible: bool, references: seq<Reference>)

  datatype Pair = Pair(first: int, second: int, differences: Radii)

  datatype Row = Row(k: int, hypothesis: int, pairs: seq<Pair>, radii: Radii)

  datatype Envelope = Envelope(seeds: seq<int>, ks: seq<int>, rows: seq<Row>)

  datatype EnvelopeError = CohortPairs | CohortRole | LostReference | ReferenceJoin

  datatype Made = Made(envelope: Envelope) | Refused(error: EnvelopeError)

  type Key = (int, int, int)

  // ----- Radii of a row -----

  function Join(a: Radii, b: Radii): Radii { Radii(MaxReal(a.r0, b.r0), MaxReal(a.rx, b.rx), MaxReal(a.ry, b.ry)) }

  /** The coordinatewise largest differences. */
  function Widest(pairs: seq<Pair>): Radii
    requires pairs != []
  {
    if |pairs| == 1 then pairs[0].differences else Join(Widest(pairs[..|pairs| - 1]), pairs[|pairs| - 1].differences)
  }

  function WithMargin(w: Radii): Radii { Radii(w.r0 + TOL, w.rx + TOL, w.ry + TOL) }

  predicate Within(a: Radii, b: Radii) { a.r0 <= b.r0 && a.rx <= b.rx && a.ry <= b.ry }

  /** The widest differences are the least radii that cover every pair. */
  lemma {:induction false} WidestIsLeast(pairs: seq<Pair>, bound: Radii)
    requires pairs != []
    ensures Within(Widest(pairs), bound) <==> forall p :: 0 <= p < |pairs| ==> Within(pairs[p].differences, bound)
  {
    if |pairs| <= 1 {
    } else {
      var front := pairs[..|pairs| - 1];
      WidestIsLeast(front, bound);
      assert forall p :: 0 <= p < |front| ==> front[p] == pairs[p];
      assert (forall p :: 0 <= p < |pairs| ==> Within(pairs[p].differences, bound)) ==>
        forall p :: 0 <= p < |front| ==> Within(front[p].differences, bound);
    }
  }

  /** Every pair of cohorts differs by at most the radii less the margin. */
  lemma RadiiCover(pairs: seq<Pair>, p: nat)
    requires p < |pairs|
    ensures Within(pairs[p].differences, Widest(pairs))
  {
    WidestIsLeast(pairs, Widest(pairs));
  }

  /** Further cohort pairs never shrink the radii. */
  lemma MorePairsWiden(pairs: seq<Pair>, more: seq<Pair>)
    requires pairs != []
    ensures Within(WithMargin(Widest(pairs)), WithMargin(Widest(pairs + more)))
  {
    WidestIsLeast(pairs + more, Widest(pairs + more));
    forall p | 0 <= p < |pairs|
      ensures Within(pairs[p].differences, Widest(pairs + more))
    {
      assert (pairs + more)[p] == pairs[p];
    }
    WidestIsLeast(pairs, Widest(pairs + more));
  }

  /** So further calibration never turns "one not excluded" into "two required". */
  lemma MoreCohortsStayCautious(r: Roots, f: Fit, o: Orientation, pairs: seq<Pair>, more: seq<Pair>)
    requires r.Valid() && Supports(r, f, o) && pairs != []
    requires forall p :: 0 <= p < |pairs| ==> pairs[p].differences.Nonnegative()
    requires InferActive(r, f, WithMargin(Widest(pairs)), o).solution.Some?
    ensures InferActive(r, f, WithMargin(Widest(pairs + more)), o).status == TwoRequired ==>
      InferActive(r, f, WithMargin(Widest(pairs)), o).status == TwoRequired
  {
    RadiiCover(pairs, 0);
    MorePairsWiden(pairs, more);
    RadiusMonotone(r, f, o, WithMargin(Widest(pairs)), WithMargin(Widest(pairs + more)));
  }

  // ----- Making the envelope -----

  function Difference(r: Roots, a: Coefficients, b: Coefficients): Radii {
    Radii(r.Abs(Sub(a.c0, b.c0)), r.Abs(Sub(a.cx, b.cx)), r.Abs(Sub(a.cy, b.cy)))
  }

  predicate PairedSeeds(seeds: seq<int>) {
    seeds != [] && |seeds| % 2 == 0 && forall i, j :: 0 <= i < j < |seeds| ==> seeds[i] != seeds[j]
  }

  function Along(k: int, hypotheses: seq<int>): seq<(int, int)> {
    seq(|hypotheses|, i requires 0 <= i < |hypotheses| => (k, hypotheses[i]))
  }

  /** All combinations, counts outermost. */
  function Denominator(ks: seq<int>, hypotheses: seq<int>): seq<(int, int)> {
    if ks == [] then [] else Denominator(ks[..|ks| - 1], hypotheses) + Along(ks[|ks| - 1], hypotheses)
  }

  lemma {:induction false} DenominatorSize(ks: seq<int>, hypotheses: seq<int>)
    ensures |Denominator(ks, hypotheses)| == |ks| * |hypotheses|
  {
    if ks == [] {
    } else {
      DenominatorSize(ks[..|ks| - 1], hypotheses);
      assert |ks| * |hypotheses| == (|ks| - 1) * |hypotheses| + |hypotheses|;
    }
  }

  /** Every count with every hypothesis, once, counts outermost. */
  lemma {:induction false} DenominatorExact(ks: seq<int>, hypotheses: seq<int>, i: nat, j: nat)
    requires i < |ks| && j < |hypotheses|
    ensures |Denominator(ks, hypotheses)| == |ks| * |hypotheses|
    ensures i * |hypotheses| + j < |Denominator(ks, hypotheses)|
    ensures Denominator(ks, hypotheses)[i * |hypotheses| + j] == (ks[i], hypotheses[j])
  {
    var front, last := ks[..|ks| - 1], Along(ks[|ks| - 1], hypotheses);
    DenominatorSize(ks, hypotheses);
    DenominatorSize(front, hypotheses);
    EarlierBlock(i, j, |front|, |hypotheses|);
    if i < |front| {
      DenominatorExact(front, hypotheses, i, j);
    } else {
      assert last[j] == (ks[i], hypotheses[j]);
    }
  }

  lemma EarlierBlock(i: nat, j: nat, m: nat, h: nat)
    requires j < h && i <= m
    ensures i * h + j < (m + 1) * h && (i < m ==> i * h + j < m * h)
  {
    assert i < m ==> (i + 1) * h <= m * h;
    assert (i + 1) * h <= (m + 1) * h;
  }

  function ReferenceNames(references: seq<Reference>): seq<(int, int)> {
    seq(|references|, i requires 0 <= i < |references| => (references[i].k, references[i].hypothesis))
  }

  function RowNames(rows: seq<Row>): seq<(int, int)> {
    seq(|rows|, i requires 0 <= i < |rows| => (rows[i].k, rows[i].hypothesis))
  }

  /** A coefficient row that some report lists under the key. */
  predicate Listed(reports: seq<Report>, key: Key, coefficients: Coefficients) {
    exists i, j :: 0 <= i < |reports| && 0 <= j < |reports[i].references|
      && reports[i].seed == key.0 && NamedReference(reports[i].references[j], key, coefficients)
  }

  predicate NamedReference(reference: Reference, key: Key, coefficients: Coefficients) {
    reference.seed == key.0 && reference.k == key.1 && reference.hypothesis == key.2
      && reference.coefficients == coefficients
  }

  /** The pairs of a row: consecutive seeds, with the differences of their listed references. */
  ghost predicate PairsOf(r: Roots, reports: seq<Report>, seeds: seq<int>, k: int, h: int, pairs: seq<Pair>) {
    2 * |pairs| <= |seeds| && forall p :: 0 <= p < |pairs| ==>
      PairOf(r, reports, seeds[2 * p], seeds[2 * p + 1], k, h, pairs[p])
  }

  ghost predicate PairOf(r: Roots, reports: seq<Report>, first: int, second: int, k: int, h: int, pair: Pair) {
    && pair.first == first && pair.second == second
    && exists a, b ::
      && Listed(reports, (first, k, h), a) && Listed(reports, (second, k, h), b)
      && pair.differences == Difference(r, a, b)
  }

  ghost predicate RowOf(r: Roots, reports: seq<Report>, seeds: seq<int>, row: Row) {
    && PairsOf(r, reports, seeds, row.k, row.hypothesis, row.pairs) && 2 * |row.pairs| == |seeds|
    && row.pairs != [] && row.radii == WithMargin(Widest(row.pairs))
  }

  ghost predicate EnvelopeOf(r: Roots, reports: seq<Report>, seeds: seq<int>, ks: seq<int>, hypotheses: seq<int>,
                             envelope: Envelope) {
    && envelope.seeds == seeds && envelope.ks == ks && PairedSeeds(seeds)
    && RowNames(envelope.rows) == Denominator(ks, hypotheses)
    && RowsOf(r, reports, seeds, envelope.rows)
  }

  /** An even number of different seeds, and the reports of exactly these cohorts in order. */
  predicate OrderedCohorts(reports: seq<Report>, seeds: seq<int>) {
    PairedSeeds(seeds) && |reports| == |seeds| && forall i :: 0 <= i < |reports| ==> reports[i].seed == seeds[i]
  }

  /** What makes a set of reports acceptable. */
  predicate Complete(reports: seq<Report>, seeds: seq<int>, ks: seq<int>, hypotheses: seq<int>) {
    && OrderedCohorts(reports, seeds)
    && forall i :: 0 <= i < |reports| ==> CompleteReport(reports[i], ks, hypotheses)
  }

  predicate CompleteReport(report: Report, ks: seq<int>, hypotheses: seq<int>) {
    && report.admissible && ReferenceNames(report.references) == Denominator(ks, hypotheses)
    && Joined(report, |report.references|)
  }

  /** Everything stored comes from a report, and every combination of every processed report is stored. */
  ghost predicate Stored(reports: seq<Report>, upto: nat, ks: seq<int>, hypotheses: seq<int>,
                         refs: map<Key, Coefficients>)
    requires upto <= |reports|
  {
    && AllListed(reports, refs)
    && (forall i, name :: 0 <= i < upto && name in Denominator(ks, hypotheses) ==>
         (reports[i].seed, name.0, name.1) in refs)
  }

  /** The keys of the first references of a report. */
  predicate KeysStored(report: Report, upto: nat, refs: map<Key, Coefficients>)
    requires upto <= |report.references|
  {
    forall n :: 0 <= n < upto ==> (report.seed, report.references[n].k, report.references[n].hypothesis) in refs
  }

  ghost predicate AllListed(reports: seq<Report>, refs: map<Key, Coefficients>) {
    forall key {:trigger key in refs} :: key in refs ==> Listed(reports, key, refs[key])
  }

  predicate Joined(report: Report, upto: nat)
    requires upto <= |report.references|
  {
    forall n :: 0 <= n < upto ==> report.references[n].sealedForCalibration && report.references[n].seed == report.seed
  }

  lemma StoreOne(reports: seq<Report>, i: nat, j: nat, refs: map<Key, Coefficients>)
    requires i < |reports| && j < |reports[i].references| && reports[i].references[j].seed == reports[i].seed
    requires AllListed(reports, refs)
    ensures var reference := reports[i].references[j];
      AllListed(reports, refs[(reports[i].seed, reference.k, reference.hypothesis) := reference.coefficients])
  {
    var reference := reports[i].references[j];
    var key := (reports[i].seed, reference.k, reference.hypothesis);
    assert NamedReference(reports[i].references[j], key, reference.coefficients);
    assert Listed(reports, key, reference.coefficients);
  }

  lemma ReportStored(reports: seq<Report>, i: nat, ks: seq<int>, hypotheses: seq<int>, refs: map<Key, Coefficients>,
                     refs': map<Key, Coefficients>)
    requires i < |reports| && Stored(reports, i, ks, hypotheses, refs)
    requires AllListed(reports, refs') && refs.Keys <= refs'.Keys
    requires ReferenceNames(reports[i].references) == Denominator(ks, hypotheses)
    requires KeysStored(reports[i], |reports[i].references|, refs')
    ensures Stored(reports, i + 1, ks, hypotheses, refs')
  {
    forall n, name | 0 <= n < i + 1 && name in Denominator(ks, hypotheses)
      ensures (reports[n].seed, name.0, name.1) in refs'
    {
      if n < i {
        assert (reports[n].seed, name.0, name.1) in refs;
      } else {
        var m :| 0 <= m < |ReferenceNames(reports[i].references)| && ReferenceNames(reports[i].references)[m] == name;
      }
    }
  }

  /** One report's references, joined by seed, count and hypothesis. */
  method StoreReport(reports: seq<Report>, i: nat, ks: seq<int>, hypotheses: seq<int>, refs: map<Key, Coefficients>)
    returns (error: Option<EnvelopeError>, refs': map<Key, Coefficients>)
    requires i < |reports| && Stored(reports, i, ks, hypotheses, refs)
    ensures error.None? <==> CompleteReport(reports[i], ks, hypotheses)
    ensures error == Some(CohortRole) <==> !reports[i].admissible
    ensures error != Some(CohortPairs)
    ensures error.None? ==> Stored(reports, i + 1, ks, hypotheses, refs')
  {
    var report := reports[i];
    refs' := refs;
    if !report.admissible {
      return Some(CohortRole), refs';
    }
    if ReferenceNames(report.references) != Denominator(ks, hypotheses) {
      return Some(LostReference), refs';
    }
    var ok;
    ok, refs' := StoreReferences(reports, i, refs);
    if !ok {
      return Some(ReferenceJoin), refs';
    }
    ReportStored(reports, i, ks, hypotheses, refs, refs');
    error := None;
  }

  /** The references of a report, one by one. */
  method StoreReferences(reports: seq<Report>, i: nat, refs: map<Key, Coefficients>)
    returns (ok: bool, refs': map<Key, Coefficients>)
    requires i < |reports| && AllListed(reports, refs)
    ensures ok <==> Joined(reports[i], |reports[i].references|)
    ensures ok ==>
      && AllListed(reports, refs') && refs.Keys <= refs'.Keys
      && KeysStored(reports[i], |reports[i].references|, refs')
  {
    var report := reports[i];
    refs' := refs;
    var j := 0;
    while j < |report.references|
      invariant j <= |report.references| && Joined(report, j)
      invariant AllListed(reports, refs') && refs.Keys <= refs'.Keys && KeysStored(report, j, refs')
    {
      var reference := report.references[j];
      if !reference.sealedForCalibration || reference.seed != report.seed {
        return false, refs';
      }
      StoreOne(reports, i, j, refs');
      refs' := refs'[(reference.seed, reference.k, reference.hypothesis) := reference.coefficients];
      j := j + 1;
    }
    ok := true;
  }

  /** The references of every cohort for a combination are at hand. */
  ghost predicate Ready(reports: seq<Report>, seeds: seq<int>, refs: map<Key, Coefficients>, name: (int, int)) {
    forall i :: 0 <= i < |seeds| ==> ReadyFor(reports, seeds[i], refs, name)
  }

  ghost predicate ReadyFor(reports: seq<Report>, seed: int, refs: map<Key, Coefficients>, name: (int, int)) {
    (seed, name.0, name.1) in refs && Listed(reports, (seed, name.0, name.1), refs[(seed, name.0, name.1)])
  }

  lemma KeysReady(reports: seq<Report>, seeds: seq<int>, ks: seq<int>, hypotheses: seq<int>,
                  refs: map<Key, Coefficients>, name: (int, int))
    requires Complete(reports, seeds, ks, hypotheses) && Stored(reports, |reports|, ks, hypotheses, refs)
    requires name in Denominator(ks, hypotheses)
    ensures Ready(reports, seeds, refs, name)
  {
    forall i | 0 <= i < |seeds|
      ensures ReadyFor(reports, seeds[i], refs, name)
    {
      assert (reports[i].seed, name.0, name.1) in refs;
    }
  }

  lemma NextPair(r: Roots, reports: seq<Report>, seeds: seq<int>, k: int, h: int, pairs: seq<Pair>, pair: Pair)
    requires PairsOf(r, reports, seeds, k, h, pairs) && 2 * |pairs| + 1 < |seeds|
    requires PairOf(r, reports, seeds[2 * |pairs|], seeds[2 * |pairs| + 1], k, h, pair)
    ensures PairsOf(r, reports, seeds, k, h, pairs + [pair])
  {
  }

  /** The difference of two consecutive cohorts' references. */
  method MakePair(r: Roots, reports: seq<Report>, first: int, second: int, refs: map<Key, Coefficients>,
                  name: (int, int))
    returns (pair: Pair)
    requires ReadyFor(reports, first, refs, name) && ReadyFor(reports, second, refs, name)
    ensures PairOf(r, reports, first, second, name.0, name.1, pair)
  {
    pair := Pair(first, second, Difference(r, refs[(first, name.0, name.1)], refs[(second, name.0, name.1)]));
  }

  /** The row of one combination: the differences of every pair of consecutive cohorts. */
  method MakeRow(r: Roots, reports: seq<Report>, seeds: seq<int>, refs: map<Key, Coefficients>, name: (int, int))
    returns (row: Row)
    requires PairedSeeds(seeds) && Ready(reports, seeds, refs, name)
    ensures row.k == name.0 && row.hypothesis == name.1 && RowOf(r, reports, seeds, row)
  {
    var (k, h) := name;
    var pairs: seq<Pair> := [];
    while 2 * |pairs| < |seeds|
      invariant PairsOf(r, reports, seeds, k, h, pairs)
      decreases |seeds| - |pairs|
    {
      var pair := MakePair(r, reports, seeds[2 * |pairs|], seeds[2 * |pairs| + 1], refs, name);
      NextPair(r, reports, seeds, k, h, pairs, pair);
      pairs := pairs + [pair];
    }
    row := Row(k, h, pairs, WithMargin(Widest(pairs)));
  }

  /** All reports' references, unless one report is not acceptable. */
  method StoreReports(reports: seq<Report>, ks: seq<int>, hypotheses: seq<int>)
    returns (error: Option<EnvelopeError>, refs: map<Key, Coefficients>)
    ensures error.None? <==> forall n :: 0 <= n < |reports| ==> CompleteReport(reports[n], ks, hypotheses)
    ensures error != Some(CohortPairs)
    ensures error.None? ==> Stored(reports, |reports|, ks, hypotheses, refs)
  {
    refs := map[];
    error := None;
    var i := 0;
    while i < |reports|
      invariant i <= |reports| && Stored(reports, i, ks, hypotheses, refs)
      invariant forall n :: 0 <= n < i ==> CompleteReport(reports[n], ks, hypotheses)
    {
      error, refs := StoreReport(reports, i, ks, hypotheses, refs);
      if error.Some? {
        return;
      }
      i := i + 1;
    }
    error := None;
  }

  ghost predicate RowsOf(r: Roots, reports: seq<Report>, seeds: seq<int>, rows: seq<Row>) {
    forall i :: 0 <= i < |rows| ==> RowOf(r, reports, seeds, rows[i])
  }

  lemma NextRow(r: Roots, reports: seq<Report>, seeds: seq<int>, names: seq<(int, int)>, rows: seq<Row>, row: Row)
    requires |rows| < |names| && RowNames(rows) == names[..|rows|] && RowsOf(r, reports, seeds, rows)
    requires (row.k, row.hypothesis) == names[|rows|] && RowOf(r, reports, seeds, row)
    ensures RowNames(rows + [row]) == names[..|rows| + 1] && RowsOf(r, reports, seeds, rows + [row])
  {
    assert RowNames(rows + [row]) == RowNames(rows) + [names[|rows|]];
    assert names[..|rows| + 1] == names[..|rows|] + [names[|rows|]];
  }

  /** One row per combination, in order. */
  method MakeRows(r: Roots, reports: seq<Report>, seeds: seq<int>, ks: seq<int>, hypotheses: seq<int>,
                  refs: map<Key, Coefficients>)
    returns (rows: seq<Row>)
    requires Complete(reports, seeds, ks, hypotheses) && Stored(reports, |reports|, ks, hypotheses, refs)
    ensures RowNames(rows) == Denominator(ks, hypotheses) && RowsOf(r, reports, seeds, rows)
  {
    rows := [];
    var names := Denominator(ks, hypotheses);
    while |rows| < |names|
      invariant |rows| <= |names| && RowNames(rows) == names[..|rows|]
      invariant RowsOf(r, reports, seeds, rows)
      decreases |names| - |rows|
    {
      KeysReady(reports, seeds, ks, hypotheses, refs, names[|rows|]);
      var row := MakeRow(r, reports, seeds, refs, names[|rows|]);
      NextRow(r, reports, seeds, names, rows, row);
      rows := rows + [row];
    }
    assert names[..|names|] == names;
  }

  /** Makes the envelope from complete reports and refuses any others. */
  method MakeEnvelope(r: Roots, reports: seq<Report>, seeds: seq<int>, ks: seq<int>, hypotheses: seq<int>)
    returns (made: Made)
    ensures made.Made? <==> Complete(reports, seeds, ks, hypotheses)
    ensures made == Refused(CohortPairs) <==> !OrderedCohorts(reports, seeds)
    ensures made.Made? ==> EnvelopeOf(r, reports, seeds, ks, hypotheses, made.envelope)
  {
    if !OrderedCohorts(reports, seeds) {
      return Refused(CohortPairs);
    }
    var error, refs := StoreReports(reports, ks, hypotheses);
    if error.Some? {
      return Refused(error.value);
    }
    var rows := MakeRows(r, reports, seeds, ks, hypotheses, refs);
    made := Made(Envelope(seeds, ks, rows));
  }

  /** Two listed cohorts whose coefficients differ by at most the radii, the margin included. */
  ghost predicate Covered(r: Roots, reports: seq<Report>, first: Key, second: Key, radii: Radii) {
    exists a, b :: Listed(reports, first, a) && Listed(reports, second, b) && CoversDifference(r, a, b, radii)
  }

  ghost predicate CoversDifference(r: Roots, a: Coefficients, b: Coefficients, radii: Radii) {
    && r.Abs(Sub(a.c0, b.c0)) + TOL <= radii.r0
    && r.Abs(Sub(a.cx, b.cx)) + TOL <= radii.rx
    && r.Abs(Sub(a.cy, b.cy)) + TOL <= radii.ry
  }

  /** The radii of a made row cover the coefficients of any two consecutive cohorts. */
  lemma CohortsCovered(r: Roots, reports: seq<Report>, seeds: seq<int>, row: Row, p: nat)
    requires RowOf(r, reports, seeds, row) && 2 * p + 1 < |seeds|
    ensures Covered(r, reports, (seeds[2 * p], row.k, row.hypothesis), (seeds[2 * p + 1], row.k, row.hypothesis),
                    row.radii)
  {
    assert PairOf(r, reports, seeds[2 * p], seeds[2 * p + 1], row.k, row.hypothesis, row.pairs[p]);
    var a, b :| Listed(reports, (seeds[2 * p], row.k, row.hypothesis), a)
      && Listed(reports, (seeds[2 * p + 1], row.k, row.hypothesis), b)
      && row.pairs[p].differences == Difference(r, a, b);
    RadiiCover(row.pairs, p);
    assert CoversDifference(r, a, b, row.radii);
  }

  /** A radius is the margin above how two consecutive cohorts differ in one coefficient. */
  ghost predicate Reached(reports: seq<Report>, seeds: seq<int>, row: Row,
                          differ: (Coefficients, Coefficients) -> real, radius: real) {
    exists p: nat, a, b :: FittedPair(reports, seeds, row, p, a, b) && radius == differ(a, b) + TOL
  }

  /** The coefficients of two consecutive cohorts. */
  ghost predicate FittedPair(reports: seq<Report>, seeds: seq<int>, row: Row, p: nat, a: Coefficients,
                             b: Coefficients) {
    && 2 * p + 1 < |seeds|
    && Listed(reports, (seeds[2 * p], row.k, row.hypothesis), a)
    && Listed(reports, (seeds[2 * p + 1], row.k, row.hypothesis), b)
  }

  /** And no radius is larger than some pair of consecutive cohorts makes it. */
  lemma CohortsAttain(r: Roots, reports: seq<Report>, seeds: seq<int>, row: Row)
    requires RowOf(r, reports, seeds, row)
    ensures Reached(reports, seeds, row, (a: Coefficients, b: Coefficients) => r.Abs(Sub(a.c0, b.c0)), row.radii.r0)
    ensures Reached(reports, seeds, row, (a: Coefficients, b: Coefficients) => r.Abs(Sub(a.cx, b.cx)), row.radii.rx)
    ensures Reached(reports, seeds, row, (a: Coefficients, b: Coefficients) => r.Abs(Sub(a.cy, b.cy)), row.radii.ry)
  {
    var i, j, l := WidestAttained(row.pairs);
    var a, b := FittedCoefficients(r, reports, seeds, row, i);
    var c, d := FittedCoefficients(r, reports, seeds, row, j);
    var e, f := FittedCoefficients(r, reports, seeds, row, l);
  }

  lemma FittedCoefficients(r: Roots, reports: seq<Report>, seeds: seq<int>, row: Row, p: nat)
    returns (a: Coefficients, b: Coefficients)
    requires RowOf(r, reports, seeds, row) && p < |row.pairs|
    ensures FittedPair(reports, seeds, row, p, a, b)
    ensures row.pairs[p].differences == Difference(r, a, b)
  {
    assert PairOf(r, reports, seeds[2 * p], seeds[2 * p + 1], row.k, row.hypothesis, row.pairs[p]);
    a, b :| Listed(reports, (seeds[2 * p], row.k, row.hypothesis), a)
      && Listed(reports, (seeds[2 * p + 1], row.k, row.hypothesis), b)
      && row.pairs[p].differences == Difference(r, a, b);
  }

  lemma {:induction false} WidestAttained(pairs: seq<Pair>) returns (i: nat, j: nat, l: nat)
    requires pairs != []
    ensures i < |pairs| && j < |pairs| && l < |pairs|
    ensures Widest(pairs) ==
      Radii(pairs[i].differences.r0, pairs[j].differences.rx, pairs[l].differences.ry)
  {
    if |pairs| == 1 {
      i, j, l := 0, 0, 0;
    } else {
      i, j, l := WidestAttained(pairs[..|pairs| - 1]);
      var w, d := Widest(pairs[..|pairs| - 1]), pairs[|pairs| - 1].differences;
      i := if w.r0 >= d.r0 then i else |pairs| - 1;
      j := if w.rx >= d.rx then j else |pairs| - 1;
      l := if w.ry >= d.ry then l else |pairs| - 1;
    }
  }

  // ----- Validating an envelope -----

  predicate ValidRow(seeds: seq<int>, row: Row) {
    && 2 * |row.pairs| == |seeds| && row.pairs != []
    && (forall p :: 0 <= p < |row.pairs| ==>
         row.pairs[p].first == seeds[2 * p] && row.pairs[p].second == seeds[2 * p + 1])
    && (forall p :: 0 <= p < |row.pairs| ==> row.pairs[p].differences.Nonnegative())
    && row.radii == WithMargin(Widest(row.pairs))
  }

  /** The check an envelope goes through whenever it is loaded. */
  predicate Validate(envelope: Envelope, hypotheses: seq<int>) {
    && RowNames(envelope.rows) == Denominator(envelope.ks, hypotheses)
    && PairedSeeds(envelope.seeds)
    && forall i :: 0 <= i < |envelope.rows| ==> ValidRow(envelope.seeds, envelope.rows[i])
  }

  lemma RowValid(r: Roots, reports: seq<Report>, seeds: seq<int>, row: Row)
    requires r.Valid() && RowOf(r, reports, seeds, row)
    ensures ValidRow(seeds, row)
  {
    forall p | 0 <= p < |row.pairs|
      ensures row.pairs[p].first == seeds[2 * p] && row.pairs[p].second == seeds[2 * p + 1]
      ensures row.pairs[p].differences.Nonnegative()
    {
      assert PairOf(r, reports, seeds[2 * p], seeds[2 * p + 1], row.k, row.hypothesis, row.pairs[p]);
      var a, b :| Listed(reports, (seeds[2 * p], row.k, row.hypothesis), a)
        && Listed(reports, (seeds[2 * p + 1], row.k, row.hypothesis), b)
        && row.pairs[p].differences == Difference(r, a, b);
      AbsNonnegative(r, Sub(a.c0, b.c0));
      AbsNonnegative(r, Sub(a.cx, b.cx));
      AbsNonnegative(r, Sub(a.cy, b.cy));
    }
  }

  /** Every envelope that is made passes its validation. */
  lemma MadeEnvelopeValidates(r: Roots, reports: seq<Report>, seeds: seq<int>, ks: seq<int>, hypotheses: seq<int>,
                              envelope: Envelope)
    requires r.Valid() && EnvelopeOf(r, reports, seeds, ks, hypotheses, envelope)
    ensures Validate(envelope, hypotheses)
  {
    forall i | 0 <= i < |envelope.rows|
      ensures ValidRow(envelope.seeds, envelope.rows[i])
    {
      RowValid(r, reports, seeds, envelope.rows[i]);
    }
  }

  /** A valid envelope's radii are usable as error radii: positive, and covering each of its pairs. */
  lemma ValidRadiiCover(envelope: Envelope, hypotheses: seq<int>, i: nat, p: nat)
    requires Validate(envelope, hypotheses) && i < |envelope.rows| && p < |envelope.rows[i].pairs|
    ensures envelope.rows[i].radii.Nonnegative()
    ensures Within(WithMargin(envelope.rows[i].pairs[p].differences), envelope.rows[i].radii)
  {
    assert ValidRow(envelope.seeds, envelope.rows[i]);
    RadiiCover(envelope.rows[i].pairs, p);
  }

  /** The cohorts of a valid envelope are all different, so no two pairs share one. */
  lemma PairsDisjoint(envelope: Envelope, hypotheses: seq<int>, i: nat, p: nat, q: nat)
    requires Validate(envelope, hypotheses) && i < |envelope.rows|
    requires p < |envelope.rows[i].pairs| && q < |envelope.rows[i].pairs|
    ensures var pairs := envelope.rows[i].pairs;
      && pairs[p].first != pairs[p].second && pairs[p].first != pairs[q].second
      && (p != q ==> pairs[p].first != pairs[q].first && pairs[p].second != pairs[q].second)
  {
    var seeds := envelope.seeds;
    assert ValidRow(seeds, envelope.rows[i]);
    assert seeds[2 * p] != seeds[2 * q + 1];
    assert p < q ==> seeds[2 * p] != seeds[2 * q] && seeds[2 * p + 1] != seeds[2 * q + 1];
    assert q < p ==> seeds[2 * q] != seeds[2 * p] && seeds[2 * q + 1] != seeds[2 * p + 1];
  }

  /** The rows of two envelopes with the same differences. */
  ghost predicate SameDifferences(a: Row, b: Row) {
    |a.pairs| == |b.pairs| && forall p :: 0 <= p < |a.pairs| ==> a.pairs[p].differences == b.pairs[p].differences
  }

  lemma SameRow(seeds: seq<int>, a: Row, b: Row)
    requires ValidRow(seeds, a) && ValidRow(seeds, b) && SameDifferences(a, b)
    ensures a.pairs == b.pairs && a.radii == b.radii
  {
    forall p | 0 <= p < |a.pairs|
      ensures a.pairs[p] == b.pairs[p]
    {
      assert a.pairs[p].first == seeds[2 * p] == b.pairs[p].first;
      assert a.pairs[p].second == seeds[2 * p + 1] == b.pairs[p].second;
    }
  }

  /**
   The validation leaves nothing open but the differences: two valid envelopes over the same seeds and counts with
   the same differences are the same, in their row names, the cohorts of their pairs and their radii.
   */
  lemma ValidationDetermines(a: Envelope, b: Envelope, hypotheses: seq<int>)
    requires Validate(a, hypotheses) && Validate(b, hypotheses) && a.seeds == b.seeds && a.ks == b.ks
    requires forall i :: 0 <= i < |a.rows| && i < |b.rows| ==> SameDifferences(a.rows[i], b.rows[i])
    ensures a == b
  {
    assert |a.rows| == |RowNames(a.rows)| == |RowNames(b.rows)| == |b.rows|;
    forall i | 0 <= i < |a.rows|
      ensures a.rows[i] == b.rows[i]
    {
      assert ValidRow(a.seeds, a.rows[i]) && ValidRow(b.seeds, b.rows[i]) && SameDifferences(a.rows[i], b.rows[i]);
      SameRow(a.seeds, a.rows[i], b.rows[i]);
      assert RowNames(a.rows)[i] == RowNames(b.rows)[i];
    }
  }

  /** Only an even, positive number of different seeds can be paired. */
  lemma PairedSeedsExact(seeds: seq<int>)
    ensures PairedSeeds(seeds) <==> |seeds| >= 2 && |seeds| % 2 == 0 && |set seed | seed in seeds| == |seeds|
  {
    DifferentSeeds(seeds);
  }

  lemma {:induction false} DifferentSeeds(seeds: seq<int>)
    ensures |set seed | seed in seeds| <= |seeds|
    ensures |set seed | seed in seeds| == |seeds| <==>
      forall i, j :: 0 <= i < j < |seeds| ==> seeds[i] != seeds[j]
  {
    if seeds == [] {
      assert (set seed | seed in seeds) == {};
    } else {
      var front, last := seeds[..|seeds| - 1], seeds[|seeds| - 1];
      DifferentSeeds(front);
      assert seeds == front + [last];
      assert (set seed | seed in seeds) == (set seed | seed in front) + {last};
    }
  }
}
