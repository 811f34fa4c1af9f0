/** The registered campaign: 144 positions in order, two sealed phases, and a fail-stop loop. */
module CampaignRunner {
  import opened Basics

  const TOTAL_SECONDS := 2400.0
  const DISK_BYTES := 8 * 1_073_741_824
  const UNITS := 144
  const ENVELOPE_UNITS := 32
  const REFERENCE_END := 48

  datatype Case =
    | EnvelopeCalibration(seed: int)
    | EvaluationReference(seed: int)
    | Geometry(alpha: int, seed: int, fixture: int)

  /** The registered cases: 32 envelope cohorts, 16 evaluation references, then alphas by seeds by fixtures. */
  function Cases(): (cases: seq<Case>)
    ensures |cases| == UNITS
  {
    seq(32, i => EnvelopeCalibration(500 + i)) + seq(16, i => EvaluationReference(600 + i))
    + seq(96, i => Geometry(i / 48, 700 + i / 12 % 4, i % 12))
  }

  /** Lanes come in phases, and every geometry combination has exactly one position. */
  lemma CasesInPhases(i: nat)
    requires i < UNITS
    ensures i < 32 <==> Cases()[i].EnvelopeCalibration?
    ensures 32 <= i < 48 <==> Cases()[i].EvaluationReference?
    ensures 48 <= i <==> Cases()[i].Geometry?
  {
  }

  lemma GeometryPosition(alpha: int, seed: int, fixture: int, i: nat)
    requires 0 <= alpha < 2 && 700 <= seed < 704 && 0 <= fixture < 12 && i < UNITS
    ensures Cases()[i] == Geometry(alpha, seed, fixture) <==> i == 48 + 48 * alpha + 12 * (seed - 700) + fixture
  {
    var j := i - 48;
    if j >= 0 {
      assert Cases()[i] == Geometry(j / 48, 700 + j / 12 % 4, j % 12);
      assert j == 48 * (j / 48) + 12 * (j / 12 % 4) + j % 12;
    }
  }

  datatype BankError = Positions | UnreadableUnit | InvalidReports | InvalidBank

  datatype Reason =
    | TimeBudget
    | DiskBudget
    | SourceChanged
    | IncompleteBank(error: BankError)
    | PriorUnitFailed
    | UnitDeadline
    | LaunchError
    | ResultValidation
    | NonzeroExit

  datatype Status = Completed | Failed | TimedOut | NotRun

  /** One position of the campaign; the digests bind an attempt to the banks sealed before it. */
  datatype Record = Record(index: nat, kase: Case, status: Status, reason: Option<Reason>, envelope: Option<nat>,
                           bank: Option<nat>)

  datatype Child = Returned(code: int) | Expired | NotLaunched

  /** What validating a unit comes to: an error of a class that the runner does not catch ends the campaign there. */
  datatype Validation = Accepted | Rejected | Uncaught

  datatype Event = SealEnvelope(units: seq<Record>) | SealReferences(units: seq<Record>) | Attempt(index: nat)

  /** Everything outside the runner: clock, disk, source lock, child processes and files. */
  datatype World = World(
    elapsed: nat -> real,
    used: nat -> nat,
    sourceSame: nat -> bool,
    child: nat -> Child,
    validates: nat -> Validation,
    readable: Record -> bool,
    makesEnvelope: seq<Record> -> bool,
    envelopeLoads: nat -> bool,
    referencesLoad: bool,
    digest: seq<Record> -> nat,
    sourceSameAtEnd: bool
  )

  /** Why a position is not admitted. */
  function Admission(world: World, index: nat): Option<Reason> {
    if world.elapsed(index) >= TOTAL_SECONDS then Some(TimeBudget)
    else if world.used(index) >= DISK_BYTES then Some(DiskBudget)
    else if !world.sourceSame(index) then Some(SourceChanged)
    else None
  }

  /** Whether an error that the runner does not catch comes up at a position. */
  predicate Raises(world: World, index: nat) { world.child(index) == Returned(0) && world.validates(index) == Uncaught }

  /** How an attempted unit ends otherwise. */
  function Ending(world: World, index: nat): (Status, Option<Reason>)
    requires !Raises(world, index)
  {
    match world.child(index)
    case Expired => (TimedOut, Some(UnitDeadline))
    case NotLaunched => (Failed, Some(LaunchError))
    case Returned(code) =>
      if code != 0 then (Failed, Some(NonzeroExit))
      else if world.validates(index) == Accepted then (Completed, None)
      else (Failed, Some(ResultValidation))
  }

  /** The not-run records from a position to the end. */
  function Remaining(from: nat, reason: Reason): seq<Record>
    requires from <= UNITS
  {
    seq(UNITS - from, k requires 0 <= k < UNITS - from =>
      Record(from + k, Cases()[from + k], NotRun, Some(reason), None, None))
  }

  /** The reports of calibration positions: the records must be exactly those positions, each completed and readable. */
  function ReportsFor(world: World, records: seq<Record>, lo: nat, hi: nat): Option<BankError>
    requires lo <= hi
  {
    if |records| != hi - lo || exists k :: 0 <= k < |records| && records[k].index != lo + k then Some(Positions)
    else if exists k :: 0 <= k < |records| && (records[k].status != Completed || !world.readable(records[k])) then
      Some(UnreadableUnit)
    else None
  }

  /** Completed units at consecutive positions. */
  predicate CompletedFrom(records: seq<Record>, lo: nat) {
    forall k :: 0 <= k < |records| ==> records[k].index == lo + k && records[k].status == Completed
  }

  /** With completed units in order the position check of the bank reader never fails. */
  lemma PositionsNeverFail(world: World, records: seq<Record>, lo: nat, hi: nat)
    requires lo <= hi && |records| == hi - lo && CompletedFrom(records, lo)
    ensures ReportsFor(world, records, lo, hi) != Some(Positions)
    ensures ReportsFor(world, records, lo, hi).None? <==> forall k :: 0 <= k < |records| ==> world.readable(records[k])
  {
  }

  // ----- Chronology -----

  /** The events up to and including the attempts of the first positions, when nothing stops them. */
  function Chronicle(records: seq<Record>, attempts: nat): seq<Event>
    requires attempts <= |records|
    decreases attempts, 0
  {
    if attempts == 0 then []
    else Sealed(records, attempts - 1) + [Attempt(attempts - 1)]
  }

  /** The events before the attempt at a position. */
  function Sealed(records: seq<Record>, index: nat): seq<Event>
    requires index <= |records|
    decreases index, 1
  {
    Chronicle(records, index) +
    if index == ENVELOPE_UNITS then [SealEnvelope(records[..ENVELOPE_UNITS])]
    else if index == REFERENCE_END then [SealReferences(records[ENVELOPE_UNITS..REFERENCE_END])]
    else []
  }

  /** Where the attempt of a position stands in the log. */
  function Place(index: nat): nat {
    index + (if index >= ENVELOPE_UNITS then 1 else 0) + if index >= REFERENCE_END then 1 else 0
  }

  lemma {:induction false} ChronicleSize(records: seq<Record>, attempts: nat)
    requires attempts <= |records|
    ensures |Chronicle(records, attempts)| == if attempts == 0 then 0 else Place(attempts - 1) + 1
  {
    if attempts == 0 {
    } else {
      ChronicleSize(records, attempts - 1);
    }
  }

  /** The log grows at its end only. */
  lemma ChroniclePrefix(records: seq<Record>, attempts: nat)
    requires 0 < attempts <= |records|
    ensures Chronicle(records, attempts - 1) <= Chronicle(records, attempts)
    ensures |Chronicle(records, attempts)| == Place(attempts - 1) + 1
    ensures Chronicle(records, attempts)[Place(attempts - 1)] == Attempt(attempts - 1)
  {
    ChronicleSize(records, attempts);
    var before := Chronicle(records, attempts - 1);
    assert Chronicle(records, attempts) == Sealed(records, attempts - 1) + [Attempt(attempts - 1)];
    assert before <= Sealed(records, attempts - 1);
  }

  lemma {:induction false} ChroniclePlaces(records: seq<Record>, attempts: nat)
    requires attempts <= |records|
    ensures |Chronicle(records, attempts)| == if attempts == 0 then 0 else Place(attempts - 1) + 1
    ensures forall i: nat :: i < attempts ==> Chronicle(records, attempts)[Place(i)] == Attempt(i)
  {
    if attempts == 0 {
    } else {
      ChroniclePlaces(records, attempts - 1);
      ChroniclePrefix(records, attempts);
    }
  }

  lemma {:induction false} ChronicleSeals(records: seq<Record>, attempts: nat)
    requires attempts <= |records|
    ensures |Chronicle(records, attempts)| == if attempts == 0 then 0 else Place(attempts - 1) + 1
    ensures attempts > ENVELOPE_UNITS ==>
      Chronicle(records, attempts)[ENVELOPE_UNITS] == SealEnvelope(records[..ENVELOPE_UNITS])
    ensures attempts > REFERENCE_END ==>
      Chronicle(records, attempts)[REFERENCE_END + 1] == SealReferences(records[ENVELOPE_UNITS..REFERENCE_END])
  {
    if attempts == 0 {
    } else {
      ChronicleSeals(records, attempts - 1);
      ChroniclePrefix(records, attempts);
      if attempts == ENVELOPE_UNITS + 1 || attempts == REFERENCE_END + 1 {
        assert Chronicle(records, attempts) == Sealed(records, attempts - 1) + [Attempt(attempts - 1)];
      }
    }
  }

  /** The log only depends on the records already made. */
  lemma {:induction false} ChronicleExtends(records: seq<Record>, more: seq<Record>, attempts: nat)
    requires attempts <= |records|
    ensures Chronicle(records + more, attempts) == Chronicle(records, attempts)
  {
    if attempts == 0 {
    } else {
      ChronicleExtends(records, more, attempts - 1);
      if attempts - 1 == ENVELOPE_UNITS {
        assert (records + more)[..ENVELOPE_UNITS] == records[..ENVELOPE_UNITS];
      }
      if attempts - 1 == REFERENCE_END {
        assert (records + more)[ENVELOPE_UNITS..REFERENCE_END] == records[ENVELOPE_UNITS..REFERENCE_END];
      }
    }
  }

  lemma SealedExtends(records: seq<Record>, more: seq<Record>, index: nat)
    requires index <= |records|
    ensures Sealed(records + more, index) == Sealed(records, index)
  {
    ChronicleExtends(records, more, index);
    if index == ENVELOPE_UNITS {
      assert (records + more)[..ENVELOPE_UNITS] == records[..ENVELOPE_UNITS];
    }
    if index == REFERENCE_END {
      assert (records + more)[ENVELOPE_UNITS..REFERENCE_END] == records[ENVELOPE_UNITS..REFERENCE_END];
    }
  }

  // ----- The run -----

  /** The digest an attempt carries once a bank is sealed. */
  function EnvelopeDigest(world: World, records: seq<Record>, index: nat): Option<nat> {
    if ENVELOPE_UNITS <= index && ENVELOPE_UNITS <= |records| then Some(world.digest(records[..ENVELOPE_UNITS]))
    else None
  }

  function BankDigest(world: World, records: seq<Record>, index: nat): Option<nat> {
    if REFERENCE_END <= index && REFERENCE_END <= |records| then
      Some(world.digest(records[ENVELOPE_UNITS..REFERENCE_END]))
    else None
  }

  /** The record of an attempt at a position, given the records before it. */
  function Attempted(world: World, before: seq<Record>, index: nat): Record
    requires index < UNITS && !Raises(world, index)
  {
    var (status, reason) := Ending(world, index);
    Record(index, Cases()[index], status, reason, EnvelopeDigest(world, before, index),
           BankDigest(world, before, index))
  }

  /** All units so far were admitted, attempted in order and completed, and both banks that are due were accepted. */
  ghost predicate Running(world: World, records: seq<Record>) {
    && |records| <= UNITS
    && forall i :: 0 <= i < |records| ==> GoodUnit(world, records, i)
  }

  ghost predicate GoodUnit(world: World, records: seq<Record>, i: nat)
    requires i < |records| <= UNITS
  {
    && Admission(world, i).None? && BankFailure(world, records[..i], i).None? && !Raises(world, i)
    && records[i] == Attempted(world, records[..i], i) && records[i].status == Completed
  }

  /** Closing the envelope: read the units, make the envelope, seal it, load it again. */
  function EnvelopeFailure(world: World, records: seq<Record>): Option<BankError> {
    var read := ReportsFor(world, records, 0, ENVELOPE_UNITS);
    if read.Some? then read
    else if !world.makesEnvelope(records) then Some(InvalidReports)
    else if !world.envelopeLoads(ENVELOPE_UNITS) then Some(InvalidBank)
    else None
  }

  /** Closing the references: the envelope must load, then read the units, seal, load again. */
  function ReferenceFailure(world: World, records: seq<Record>): Option<BankError> {
    if !world.envelopeLoads(REFERENCE_END) then Some(InvalidBank)
    else
      var read := ReportsFor(world, records, ENVELOPE_UNITS, REFERENCE_END);
      if read.Some? then read else if !world.referencesLoad then Some(InvalidBank) else None
  }

  /** The bank due at a position, if it fails. */
  function BankFailure(world: World, records: seq<Record>, index: nat): Option<BankError> {
    if index == ENVELOPE_UNITS then EnvelopeFailure(world, records)
    else if index == REFERENCE_END && |records| >= REFERENCE_END then
      ReferenceFailure(world, records[ENVELOPE_UNITS..REFERENCE_END])
    else None
  }

  /**
   How a campaign that stopped before its end looks: a good prefix, at most one bad attempt, then not-run positions.
   */
  ghost predicate StoppedAt(world: World, records: seq<Record>, good: nat) {
    && |records| == UNITS && good < UNITS && Running(world, records[..good])
    && (Admission(world, good).Some? ==> records[good..] == Remaining(good, Admission(world, good).value))
    && (Admission(world, good).None? && BankFailure(world, records[..good], good).Some? ==>
          records[good..] == Remaining(good, IncompleteBank(BankFailure(world, records[..good], good).value)))
    && (Admission(world, good).None? && BankFailure(world, records[..good], good).None? ==>
          && !Raises(world, good)
          && records[good] == Attempted(world, records[..good], good) && records[good].status != Completed
          && records[good + 1..] == Remaining(good + 1, PriorUnitFailed))
  }

  /** Whether position good was attempted when the campaign stopped there. */
  ghost predicate AttemptedLast(world: World, records: seq<Record>, good: nat)
    requires good <= |records|
  {
    Admission(world, good).None? && BankFailure(world, records[..good], good).None?
  }

  /** The banks sealed so far are exactly those due before the last position. */
  ghost predicate Banked(records: seq<Record>, envelope: Option<seq<Record>>, references: Option<seq<Record>>) {
    && (|records| > ENVELOPE_UNITS ==> envelope == Some(records[..ENVELOPE_UNITS]))
    && (|records| > REFERENCE_END ==> references == Some(records[ENVELOPE_UNITS..REFERENCE_END]))
  }

  lemma BankedOn(records: seq<Record>, record: Record, envelope: Option<seq<Record>>, references: Option<seq<Record>>)
    requires |records| >= ENVELOPE_UNITS ==> envelope == Some(records[..ENVELOPE_UNITS])
    requires |records| >= REFERENCE_END ==> references == Some(records[ENVELOPE_UNITS..REFERENCE_END])
    ensures Banked(records + [record], envelope, references)
  {
    var more := records + [record];
    assert |records| >= ENVELOPE_UNITS ==> more[..ENVELOPE_UNITS] == records[..ENVELOPE_UNITS];
    assert |records| >= REFERENCE_END ==> more[ENVELOPE_UNITS..REFERENCE_END] == records[ENVELOPE_UNITS..REFERENCE_END];
  }

  /**
   The log of a campaign that stopped: one attempt per good unit, one more for a bad attempt, and the banks in
   between.
   */
  ghost predicate LogStopsAt(world: World, records: seq<Record>, good: nat, events: seq<Event>)
    requires good < |records|
  {
    && (AttemptedLast(world, records, good) ==> events == Chronicle(records, good + 1))
    && (!AttemptedLast(world, records, good) ==> events == Chronicle(records, good) || events == Sealed(records, good))
  }

  ghost predicate Stopped(world: World, records: seq<Record>, events: seq<Event>) {
    exists good: nat :: StoppedAt(world, records, good) && LogStopsAt(world, records, good, events)
  }

  /** A campaign that an uncaught error ended: its records are the good units before, and the attempt is in the log. */
  ghost predicate Escaped(world: World, records: seq<Record>, events: seq<Event>) {
    && |records| < UNITS && Running(world, records)
    && Admission(world, |records|).None? && BankFailure(world, records, |records|).None? && Raises(world, |records|)
    && events == Sealed(records, |records|) + [Attempt(|records|)]
  }

  /** How a turn of the campaign loop ends. */
  datatype Turned = GoesOn | Stops | Raised

  lemma StoppedNotComplete(world: World, records: seq<Record>, good: nat)
    requires StoppedAt(world, records, good)
    ensures records[good].status != Completed
  {
    assert records[good] == records[good..][0];
  }

  /** A good unit more. */
  lemma RunningOn(world: World, records: seq<Record>, record: Record)
    requires Running(world, records) && |records| < UNITS
    requires Admission(world, |records|).None? && BankFailure(world, records, |records|).None?
    requires !Raises(world, |records|)
    requires record == Attempted(world, records, |records|) && record.status == Completed
    ensures Running(world, records + [record])
  {
    var more := records + [record];
    forall i | 0 <= i < |more|
      ensures GoodUnit(world, more, i)
    {
      assert more[..i] == records[..i];
      if i < |records| {
        assert GoodUnit(world, records, i);
      } else {
        assert records[..i] == records;
      }
    }
  }

  /** Stopping before an attempt. */
  lemma StopsBefore(world: World, records: seq<Record>, reason: Reason, events: seq<Event>)
    requires Running(world, records) && |records| < UNITS
    requires events == Chronicle(records, |records|) || events == Sealed(records, |records|)
    requires
      Admission(world, |records|) == Some(reason)
      || (Admission(world, |records|).None? && BankFailure(world, records, |records|).Some?
          && reason == IncompleteBank(BankFailure(world, records, |records|).value))
    ensures Stopped(world, records + Remaining(|records|, reason), events)
  {
    var all := records + Remaining(|records|, reason);
    assert all[..|records|] == records && all[|records|..] == Remaining(|records|, reason);
    ChronicleExtends(records, Remaining(|records|, reason), |records|);
    SealedExtends(records, Remaining(|records|, reason), |records|);
    assert StoppedAt(world, all, |records|) && LogStopsAt(world, all, |records|, events);
  }

  /** Stopping at a bad attempt. */
  lemma StopsAtAttempt(world: World, records: seq<Record>, record: Record, events: seq<Event>)
    requires Running(world, records) && |records| < UNITS
    requires Admission(world, |records|).None? && BankFailure(world, records, |records|).None?
    requires !Raises(world, |records|)
    requires record == Attempted(world, records, |records|) && record.status != Completed
    requires events == Chronicle(records + [record], |records| + 1)
    ensures Stopped(world, records + [record] + Remaining(|records| + 1, PriorUnitFailed), events)
  {
    var rest := Remaining(|records| + 1, PriorUnitFailed);
    var all := records + [record] + rest;
    assert all[..|records|] == records && all[|records| + 1..] == rest;
    ChronicleExtends(records + [record], rest, |records| + 1);
    assert StoppedAt(world, all, |records|) && LogStopsAt(world, all, |records|, events);
  }

  class Campaign {
    var records: seq<Record>
    var events: seq<Event>
    var envelope: Option<seq<Record>>
    var references: Option<seq<Record>>

    constructor ()
      ensures records == [] && events == [] && envelope.None? && references.None?
    {
      records, events, envelope, references := [], [], None, None;
    }

    /** The envelope bank over the first units. */
    method CloseEnvelope(world: World) returns (failure: Option<BankError>)
      modifies this
      ensures records == old(records) && references == old(references)
      ensures failure == EnvelopeFailure(world, records)
      ensures failure.None? ==> envelope == Some(records) && events == old(events) + [SealEnvelope(records)]
      ensures events == old(events) || events == old(events) + [SealEnvelope(records)]
    {
      failure := ReportsFor(world, records, 0, ENVELOPE_UNITS);
      if failure.Some? {
        return;
      }
      if !world.makesEnvelope(records) {
        return Some(InvalidReports);
      }
      envelope := Some(records);
      events := events + [SealEnvelope(records)];
      if !world.envelopeLoads(ENVELOPE_UNITS) {
        failure := Some(InvalidBank);
      }
    }

    /** The reference bank over the evaluation units. */
    method CloseReferences(world: World, units: seq<Record>) returns (failure: Option<BankError>)
      modifies this
      ensures records == old(records) && envelope == old(envelope)
      ensures failure == ReferenceFailure(world, units)
      ensures failure.None? ==> references == Some(units) && events == old(events) + [SealReferences(units)]
      ensures events == old(events) || events == old(events) + [SealReferences(units)]
    {
      if !world.envelopeLoads(REFERENCE_END) {
        return Some(InvalidBank);
      }
      failure := ReportsFor(world, units, ENVELOPE_UNITS, REFERENCE_END);
      if failure.Some? {
        return;
      }
      references := Some(units);
      events := events + [SealReferences(units)];
      if !world.referencesLoad {
        failure := Some(InvalidBank);
      }
    }

    /** Closes the bank that is due before the next position, if any. */
    method CloseDue(world: World) returns (failure: Option<BankError>)
      requires |records| < UNITS && Banked(records, envelope, references) && events == Chronicle(records, |records|)
      modifies this
      ensures records == old(records)
      ensures failure == BankFailure(world, records, |records|)
      ensures failure.None? ==> events == Sealed(records, |records|)
      ensures failure.None? && |records| >= ENVELOPE_UNITS ==> envelope == Some(records[..ENVELOPE_UNITS])
      ensures failure.None? && |records| >= REFERENCE_END ==> references == Some(records[ENVELOPE_UNITS..REFERENCE_END])
      ensures events == old(events) || events == Sealed(records, |records|)
    {
      failure := None;
      if |records| == ENVELOPE_UNITS {
        assert records[..ENVELOPE_UNITS] == records;
        failure := CloseEnvelope(world);
      } else if |records| == REFERENCE_END {
        failure := CloseReferences(world, records[ENVELOPE_UNITS..REFERENCE_END]);
      }
    }

    /** The record of a unit whose child has returned, timed out or not started, before any validation. */
    method Launch(world: World) returns (record: Record)
      requires |records| < UNITS
      requires |records| >= ENVELOPE_UNITS ==> envelope == Some(records[..ENVELOPE_UNITS])
      requires |records| >= REFERENCE_END ==> references == Some(records[ENVELOPE_UNITS..REFERENCE_END])
      ensures var index := |records|;
        && record.index == index && record.kase == Cases()[index]
        && record.envelope == EnvelopeDigest(world, records, index)
        && record.bank == BankDigest(world, records, index)
        && (record.status == Completed <==> world.child(index) == Returned(0))
        && (record.status == Completed ==> record.reason.None?)
        && (record.status != Completed ==> (record.status, record.reason) == Ending(world, index))
    {
      var index := |records|;
      record := Record(index, Cases()[index], Failed, None,
                       if index >= ENVELOPE_UNITS then Some(world.digest(envelope.value)) else None,
                       if index >= REFERENCE_END then Some(world.digest(references.value)) else None);
      var child := world.child(index);
      match child {
        case Expired => record := record.(status := TimedOut, reason := Some(UnitDeadline));
        case NotLaunched => record := record.(status := Failed, reason := Some(LaunchError));
        case Returned(code) =>
          record := record.(status := if code == 0 then Completed else Failed,
                            reason := if code == 0 then None else Some(NonzeroExit));
      }
    }

    /**
     Attempts the next position: the launch record, the child, and the validation of what it returned.
     There is no record when validation raises an error that is not caught.
     */
    method AttemptUnit(world: World) returns (attempt: Option<Record>)
      requires |records| < UNITS && events == Sealed(records, |records|)
      requires |records| >= ENVELOPE_UNITS ==> envelope == Some(records[..ENVELOPE_UNITS])
      requires |records| >= REFERENCE_END ==> references == Some(records[ENVELOPE_UNITS..REFERENCE_END])
      modifies this
      ensures envelope == old(envelope) && references == old(references)
      ensures attempt.None? <==> Raises(world, |old(records)|)
      ensures attempt.None? ==> records == old(records) && events == old(events) + [Attempt(|records|)]
      ensures attempt.Some? ==>
        && attempt.value == Attempted(world, old(records), |old(records)|)
        && records == old(records) + [attempt.value] && events == Chronicle(records, |records|)
    {
      var index := |records|;
      events := events + [Attempt(index)];
      var record := Launch(world);
      if record.status == Completed {
        var validation := world.validates(index);
        if validation == Uncaught {
          return None;
        }
        if validation == Rejected {
          record := record.(status := Failed, reason := Some(ResultValidation));
        }
      }
      SealedExtends(records, [record], index);
      records := records + [record];
      attempt := Some(record);
    }

    /** The attempt of an admitted position whose banks are closed. */
    method Proceed(world: World) returns (turned: Turned)
      requires |records| < UNITS && Running(world, records) && events == Sealed(records, |records|)
      requires Admission(world, |records|).None? && BankFailure(world, records, |records|).None?
      requires |records| >= ENVELOPE_UNITS ==> envelope == Some(records[..ENVELOPE_UNITS])
      requires |records| >= REFERENCE_END ==> references == Some(records[ENVELOPE_UNITS..REFERENCE_END])
      modifies this
      ensures turned == GoesOn ==> |records| == |old(records)| + 1
      ensures turned == GoesOn ==>
        && Running(world, records) && Banked(records, envelope, references)
        && events == Chronicle(records, |records|)
      ensures turned == Stops ==> Stopped(world, records, events)
      ensures turned == Raised ==> Escaped(world, records, events)
    {
      ghost var before := records;
      var index := |records|;
      var attempt := AttemptUnit(world);
      if attempt.None? {
        return Raised;
      }
      if attempt.value.status != Completed {
        StopsAtAttempt(world, before, attempt.value, events);
        records := records + Remaining(index + 1, PriorUnitFailed);
        return Stops;
      }
      RunningOn(world, before, attempt.value);
      BankedOn(before, attempt.value, envelope, references);
      turned := GoesOn;
    }

    /** One turn of the campaign loop; when it stops, all remaining positions have been recorded. */
    method Turn(world: World) returns (turned: Turned)
      requires |records| < UNITS && Running(world, records) && Banked(records, envelope, references)
        && events == Chronicle(records, |records|)
      modifies this
      ensures turned == GoesOn ==> |records| == |old(records)| + 1
      ensures turned == GoesOn ==>
        && Running(world, records) && Banked(records, envelope, references)
        && events == Chronicle(records, |records|)
      ensures turned == Stops ==> Stopped(world, records, events)
      ensures turned == Raised ==> Escaped(world, records, events)
    {
      ghost var before := records;
      var index := |records|;
      var reason := Admission(world, index);
      if reason.Some? {
        StopsBefore(world, before, reason.value, events);
        records := records + Remaining(index, reason.value);
        return Stops;
      }
      var failure := CloseDue(world);
      if failure.Some? {
        StopsBefore(world, before, IncompleteBank(failure.value), events);
        records := records + Remaining(index, IncompleteBank(failure.value));
        return Stops;
      }
      turned := Proceed(world);
    }

    /**
     The whole campaign: it ends with every unit good, or stopped at the first position that was not, unless an error
     that is not caught ends it, without a result and without the remaining records.
     */
    method Run(world: World) returns (ok: Option<bool>)
      requires records == [] && events == [] && envelope.None? && references.None?
      modifies this
      ensures ok.Some? ==> Finished(world, records, events)
      ensures ok.Some? ==> (ok.value <==> |records| == UNITS && Running(world, records) && world.sourceSameAtEnd)
      ensures ok.None? ==> Escaped(world, records, events)
    {
      var turned := GoesOn;
      while turned == GoesOn && |records| < UNITS
        invariant turned == GoesOn ==>
          && Running(world, records) && Banked(records, envelope, references)
          && events == Chronicle(records, |records|)
        invariant turned == Stops ==> Stopped(world, records, events)
        invariant turned == Raised ==> Escaped(world, records, events)
        decreases turned == GoesOn, UNITS - |records|
      {
        turned := Turn(world);
      }
      if turned == Raised {
        return None;
      }
      if turned == Stops {
        ghost var good: nat :| StoppedAt(world, records, good) && LogStopsAt(world, records, good, events);
        StoppedNotComplete(world, records, good);
        assert !GoodUnit(world, records, good);
      } else {
        AllCompleted(world, records);
      }
      ok := Some(|records| == UNITS && (forall i :: 0 <= i < |records| ==> records[i].status == Completed)
                 && world.sourceSameAtEnd);
    }
  }

  lemma AllCompleted(world: World, records: seq<Record>)
    requires Running(world, records)
    ensures forall i :: 0 <= i < |records| ==> records[i].status == Completed
  {
    forall i | 0 <= i < |records|
      ensures records[i].status == Completed
    {
      assert GoodUnit(world, records, i);
    }
  }

  // ----- What every campaign satisfies -----

  /** A finished campaign: every unit good, or stopped. */
  ghost predicate Finished(world: World, records: seq<Record>, events: seq<Event>) {
    (|records| == UNITS && Running(world, records) && events == Chronicle(records, UNITS))
      || Stopped(world, records, events)
  }

  /** A unit before the stop. */
  lemma GoodRecord(world: World, records: seq<Record>, k: nat)
    requires Running(world, records) && k < |records|
    ensures records[k].index == k && records[k].kase == Cases()[k] && records[k].status == Completed
  {
    assert GoodUnit(world, records, k);
  }

  /** A position from the stop on. */
  lemma StoppedRecord(world: World, records: seq<Record>, good: nat, k: nat)
    requires StoppedAt(world, records, good) && good <= k < UNITS
    ensures records[k].index == k && records[k].kase == Cases()[k] && records[k].status != Completed
    ensures k > good ==> records[k].status == NotRun
  {
    assert records[k] == records[good..][k - good];
    assert k > good ==> records[k] == records[good + 1..][k - good - 1];
  }

  /** One record per registered case, in index order. */
  lemma EveryPositionRecorded(world: World, records: seq<Record>, events: seq<Event>, i: nat)
    requires Finished(world, records, events) && i < UNITS
    ensures |records| == UNITS && records[i].index == i && records[i].kase == Cases()[i]
  {
    if Stopped(world, records, events) {
      var good: nat :| StoppedAt(world, records, good) && LogStopsAt(world, records, good, events);
      if i < good {
        GoodRecord(world, records[..good], i);
      } else {
        StoppedRecord(world, records, good, i);
      }
    } else {
      GoodRecord(world, records, i);
    }
  }

  /** Statuses are completed units, then at most one other attempt, then positions that were not run. */
  lemma StatusShape(world: World, records: seq<Record>, events: seq<Event>, i: nat, j: nat)
    requires Finished(world, records, events) && i < j < UNITS
    ensures |records| == UNITS
    ensures records[j].status != NotRun ==> records[i].status == Completed
  {
    if Stopped(world, records, events) {
      var good: nat :| StoppedAt(world, records, good) && LogStopsAt(world, records, good, events);
      if i < good {
        GoodRecord(world, records[..good], i);
      } else {
        StoppedRecord(world, records, good, j);
      }
    } else {
      GoodRecord(world, records, i);
    }
  }

  /** The first units of a campaign that got past them are completed, in order. */
  lemma FirstUnitsCompleted(world: World, records: seq<Record>, lo: nat, hi: nat)
    requires Running(world, records) && lo <= hi <= |records|
    ensures CompletedFrom(records[lo..hi], lo)
  {
    forall k | 0 <= k < hi - lo
      ensures records[lo..hi][k].index == lo + k && records[lo..hi][k].status == Completed
    {
      GoodRecord(world, records, lo + k);
    }
  }

  /** A run of good units cut short is one. */
  lemma RunningPrefix(world: World, records: seq<Record>, n: nat)
    requires Running(world, records) && n <= |records|
    ensures Running(world, records[..n])
  {
    forall i | 0 <= i < n
      ensures GoodUnit(world, records[..n], i)
    {
      assert GoodUnit(world, records, i) && records[..n][..i] == records[..i];
    }
  }

  /** An attempt stands only at its place. */
  lemma {:induction false} AttemptPlace(records: seq<Record>, attempts: nat, p: nat)
    requires attempts <= |records| && p < |Chronicle(records, attempts)| && Chronicle(records, attempts)[p].Attempt?
    ensures Chronicle(records, attempts)[p].index < attempts && p == Place(Chronicle(records, attempts)[p].index)
  {
    if attempts == 0 {
    } else {
      ChroniclePrefix(records, attempts);
      var before := Chronicle(records, attempts - 1);
      if p < |before| {
        assert Chronicle(records, attempts)[p] == before[p];
        AttemptPlace(records, attempts - 1, p);
      } else {
        SealIsNoAttempt(records, attempts, p);
      }
    }
  }

  lemma SealIsNoAttempt(records: seq<Record>, attempts: nat, p: nat)
    requires 0 < attempts <= |records|
    requires |Chronicle(records, attempts - 1)| <= p < |Chronicle(records, attempts)|
      && Chronicle(records, attempts)[p].Attempt?
    ensures p == |Chronicle(records, attempts)| - 1
  {
  }

  /** The attempts in the log of a finished campaign, and the units that were good before the last of them. */
  ghost predicate LogOf(world: World, records: seq<Record>, events: seq<Event>, attempts: nat) {
    && attempts <= |records| == UNITS && Running(world, records[..if attempts > 0 then attempts - 1 else 0])
    && (events == Chronicle(records, attempts) || (attempts < UNITS && events == Sealed(records, attempts)))
    && (forall i :: 0 <= i < UNITS ==> (records[i].status != NotRun <==> i < attempts))
  }

  /** Every finished campaign has such a log, whether it went through, stopped at an attempt or before one. */
  lemma FinishedLog(world: World, records: seq<Record>, events: seq<Event>) returns (attempts: nat)
    requires Finished(world, records, events)
    ensures LogOf(world, records, events, attempts)
  {
    if Stopped(world, records, events) {
      var good: nat :| StoppedAt(world, records, good) && LogStopsAt(world, records, good, events);
      attempts := StoppedLog(world, records, events, good);
    } else {
      attempts := UNITS;
      RunningPrefix(world, records, UNITS - 1);
      AllCompleted(world, records);
    }
  }

  lemma StoppedLog(world: World, records: seq<Record>, events: seq<Event>, good: nat) returns (attempts: nat)
    requires StoppedAt(world, records, good) && LogStopsAt(world, records, good, events)
    ensures LogOf(world, records, events, attempts)
  {
    attempts := if AttemptedLast(world, records, good) then good + 1 else good;
    var before := if attempts > 0 then attempts - 1 else 0;
    RunningPrefix(world, records[..good], before);
    assert records[..good][..before] == records[..before];
    forall i | 0 <= i < UNITS
      ensures records[i].status != NotRun <==> i < attempts
    {
      if i < good {
        GoodRecord(world, records[..good], i);
      } else {
        StoppedRecord(world, records, good, i);
        StoppingRecord(world, records, good);
      }
    }
  }

  /** The position where a campaign stopped was attempted, or not run for its admission or its bank. */
  lemma StoppingRecord(world: World, records: seq<Record>, good: nat)
    requires StoppedAt(world, records, good)
    ensures records[good].status != NotRun <==> AttemptedLast(world, records, good)
    ensures !AttemptedLast(world, records, good) ==>
      records[good].reason == if Admission(world, good).Some? then Admission(world, good)
                              else Some(IncompleteBank(BankFailure(world, records[..good], good).value))
  {
    assert records[good] == records[good..][0];
  }

  /** The attempts of the first positions stand at their places, and no others do. */
  ghost predicate Attempts(events: seq<Event>, attempts: nat) {
    && (forall i: nat :: i < attempts ==> Place(i) < |events| && events[Place(i)] == Attempt(i))
    && (forall p: nat :: p < |events| && events[p].Attempt? ==>
         events[p].index < attempts && p == Place(events[p].index))
  }

  lemma ChronicleAttempts(records: seq<Record>, attempts: nat)
    requires attempts <= |records|
    ensures Attempts(Chronicle(records, attempts), attempts)
  {
    var log := Chronicle(records, attempts);
    ChroniclePlaces(records, attempts);
    forall p: nat | p < |log| && log[p].Attempt?
      ensures log[p].index < attempts && p == Place(log[p].index)
    {
      AttemptPlace(records, attempts, p);
    }
  }

  lemma LogAttempts(world: World, records: seq<Record>, events: seq<Event>, attempts: nat)
    requires LogOf(world, records, events, attempts)
    ensures Attempts(events, attempts)
  {
    var log := Chronicle(records, attempts);
    ChronicleAttempts(records, attempts);
    assert events[..|log|] == log;
    assert forall p: nat :: |log| <= p < |events| ==> !events[p].Attempt?;
    forall p: nat | p < |log|
      ensures events[p] == log[p]
    {
    }
  }

  /** The attempts of the log are those of the positions that were run, each at its one place. */
  lemma AttemptsAreRuns(world: World, records: seq<Record>, events: seq<Event>, i: nat)
    requires Finished(world, records, events) && i < UNITS
    ensures |records| == UNITS
    ensures records[i].status != NotRun <==> Place(i) < |events| && events[Place(i)] == Attempt(i)
    ensures forall p :: 0 <= p < |events| && events[p] == Attempt(i) ==> p == Place(i)
  {
    var attempts := FinishedLog(world, records, events);
    LogAttempts(world, records, events, attempts);
  }

  /** A seal over completed units that comes before a place in the log. */
  ghost predicate SealedBefore(events: seq<Event>, p: nat, seal: Event, units: seq<Record>, lo: nat) {
    && CompletedFrom(units, lo)
    && exists q :: 0 <= q < p && q < |events| && events[q] == seal
  }

  /** The seals of a log with enough attempts. */
  lemma LogSeals(world: World, records: seq<Record>, events: seq<Event>, attempts: nat)
    requires LogOf(world, records, events, attempts)
    ensures attempts > ENVELOPE_UNITS ==>
      |events| > ENVELOPE_UNITS && events[ENVELOPE_UNITS] == SealEnvelope(records[..ENVELOPE_UNITS])
    ensures attempts > REFERENCE_END ==>
      |events| > REFERENCE_END + 1 && events[REFERENCE_END + 1] ==
        SealReferences(records[ENVELOPE_UNITS..REFERENCE_END])
  {
    var log := Chronicle(records, attempts);
    ChronicleSeals(records, attempts);
    assert events[..|log|] == log;
    assert forall p: nat :: p < |log| ==> events[p] == events[..|log|][p];
  }

  lemma LogUnitsCompleted(world: World, records: seq<Record>, events: seq<Event>, attempts: nat)
    requires LogOf(world, records, events, attempts)
    ensures attempts > ENVELOPE_UNITS ==> CompletedFrom(records[..ENVELOPE_UNITS], 0)
    ensures attempts > REFERENCE_END ==> CompletedFrom(records[ENVELOPE_UNITS..REFERENCE_END], ENVELOPE_UNITS)
  {
    if attempts > ENVELOPE_UNITS {
      var before := records[..attempts - 1];
      FirstUnitsCompleted(world, before, 0, ENVELOPE_UNITS);
      assert before[0..ENVELOPE_UNITS] == records[..ENVELOPE_UNITS];
      if attempts > REFERENCE_END {
        FirstUnitsCompleted(world, before, ENVELOPE_UNITS, REFERENCE_END);
        assert before[ENVELOPE_UNITS..REFERENCE_END] == records[ENVELOPE_UNITS..REFERENCE_END];
      }
    }
  }

  /**
   In every finished campaign no evaluation reference is attempted before the envelope is sealed over the 32 completed
   calibration units, and no geometry unit before the references are sealed over the 16 completed evaluation units.
   */
  lemma SealsPrecedeAttempts(world: World, records: seq<Record>, events: seq<Event>, p: nat)
    requires Finished(world, records, events) && p < |events| && events[p].Attempt?
    ensures |records| == UNITS
    ensures events[p].index >= ENVELOPE_UNITS ==>
      SealedBefore(events, p, SealEnvelope(records[..ENVELOPE_UNITS]), records[..ENVELOPE_UNITS], 0)
    ensures events[p].index >= REFERENCE_END ==>
      SealedBefore(events, p, SealReferences(records[ENVELOPE_UNITS..REFERENCE_END]),
                   records[ENVELOPE_UNITS..REFERENCE_END], ENVELOPE_UNITS)
  {
    var attempts := FinishedLog(world, records, events);
    LogAttempts(world, records, events, attempts);
    LogSeals(world, records, events, attempts);
    LogUnitsCompleted(world, records, events, attempts);
  }

  lemma BankPositionsHold(world: World, records: seq<Record>)
    requires Running(world, records) && |records| < UNITS
    ensures BankFailure(world, records, |records|) != Some(Positions)
  {
    if |records| == ENVELOPE_UNITS {
      FirstUnitsCompleted(world, records, 0, ENVELOPE_UNITS);
      assert records[0..ENVELOPE_UNITS] == records;
      PositionsNeverFail(world, records, 0, ENVELOPE_UNITS);
    } else if |records| == REFERENCE_END {
      FirstUnitsCompleted(world, records, ENVELOPE_UNITS, REFERENCE_END);
      PositionsNeverFail(world, records[ENVELOPE_UNITS..REFERENCE_END], ENVELOPE_UNITS, REFERENCE_END);
    }
  }

  /** The position check of the bank reader fails in no campaign: no record says that a bank was incomplete for it. */
  lemma NoPositionFailure(world: World, records: seq<Record>, events: seq<Event>, i: nat)
    requires Finished(world, records, events) && i < UNITS
    ensures |records| == UNITS && records[i].reason != Some(IncompleteBank(Positions))
  {
    if Stopped(world, records, events) {
      var good: nat :| StoppedAt(world, records, good) && LogStopsAt(world, records, good, events);
      if i < good {
        assert GoodUnit(world, records[..good], i);
      } else {
        BankPositionsHold(world, records[..good]);
        StoppedReason(world, records, good, i);
      }
    } else {
      assert GoodUnit(world, records, i);
    }
  }

  lemma StoppedReason(world: World, records: seq<Record>, good: nat, i: nat)
    requires StoppedAt(world, records, good) && good <= i < UNITS
    requires BankFailure(world, records[..good], good) != Some(Positions)
    ensures records[i].reason != Some(IncompleteBank(Positions))
  {
    StoppingRecord(world, records, good);
    assert records[i] == records[good..][i - good];
    assert i > good ==> records[i] == records[good + 1..][i - good - 1];
  }

  // ----- How a campaign ends -----

  /** Good units are determined by the world. */
  lemma {:induction false} SameGoodUnits(world: World, a: seq<Record>, b: seq<Record>, n: nat)
    requires Running(world, a) && Running(world, b) && n <= |a| && n <= |b|
    ensures a[..n] == b[..n]
  {
    if n == 0 {
    } else {
      SameGoodUnits(world, a, b, n - 1);
      assert GoodUnit(world, a, n - 1) && GoodUnit(world, b, n - 1);
      assert a[..n] == a[..n - 1] + [a[n - 1]] && b[..n] == b[..n - 1] + [b[n - 1]];
    }
  }

  lemma GoodNotRaised(world: World, records: seq<Record>)
    requires Running(world, records)
    ensures forall k: nat :: k < |records| ==> !Raises(world, k)
  {
    forall k: nat | k < |records|
      ensures !Raises(world, k)
    {
      assert GoodUnit(world, records, k);
    }
  }

  lemma GoodMeans(world: World, records: seq<Record>, k: nat, before: seq<Record>)
    requires Running(world, records) && k < |records| && records[..k] == before
    ensures Admission(world, k).None? && BankFailure(world, before, k).None? && !Raises(world, k)
    ensures Attempted(world, before, k).status == Completed
  {
    assert GoodUnit(world, records, k);
  }

  /** No good units go past the position where a campaign stopped; those up to it are the ones in its records. */
  lemma StoppedBounds(world: World, records: seq<Record>, good: nat, others: seq<Record>)
    requires StoppedAt(world, records, good) && Running(world, others)
    ensures |others| <= good && others == records[..|others|]
  {
    var prefix := records[..good];
    if |others| > good {
      SameGoodUnits(world, prefix, others, good);
      StoppedNotComplete(world, records, good);
      GoodMeans(world, others, good, prefix);
    } else {
      SameGoodUnits(world, prefix, others, |others|);
      assert prefix[..|others|] == records[..|others|];
    }
  }

  /** In one world campaigns end in one way: when one finishes, no error ends another. */
  lemma EndsOneWay(world: World, records: seq<Record>, events: seq<Event>, others: seq<Record>, otherEvents: seq<Event>)
    requires Finished(world, records, events)
    ensures !Escaped(world, others, otherEvents)
  {
    if Stopped(world, records, events) {
      var good: nat :| StoppedAt(world, records, good) && LogStopsAt(world, records, good, events);
      GoodNotRaised(world, records[..good]);
      if Running(world, others) {
        StoppedBounds(world, records, good, others);
      }
    } else {
      GoodNotRaised(world, records);
    }
  }
}
