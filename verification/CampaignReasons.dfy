/** What each record of a finished campaign says about the world, position by position. */
module CampaignReasons {
  import opened Basics
  import opened CampaignRunner

  /** Nothing speaks against starting a unit at the position. */
  predicate InBudget(world: World, index: nat) {
    world.elapsed(index) < TOTAL_SECONDS && world.used(index) < DISK_BYTES && world.sourceSame(index)
  }

  predicate AllReadable(world: World, units: seq<Record>) {
    forall k :: 0 <= k < |units| ==> world.readable(units[k])
  }

  /** What a failed bank means at the position where it was due. */
  ghost predicate BankMeaning(world: World, records: seq<Record>, index: nat, error: BankError)
    requires index <= |records|
  {
    if index == ENVELOPE_UNITS then EnvelopeMeaning(world, records[..ENVELOPE_UNITS], error)
    else index == REFERENCE_END && ReferenceMeaning(world, records[ENVELOPE_UNITS..REFERENCE_END], error)
  }

  ghost predicate EnvelopeMeaning(world: World, units: seq<Record>, error: BankError) {
    match error
    case Positions => false
    case UnreadableUnit => !AllReadable(world, units)
    case InvalidReports => AllReadable(world, units) && !world.makesEnvelope(units)
    case InvalidBank => AllReadable(world, units) && world.makesEnvelope(units) && !world.envelopeLoads(ENVELOPE_UNITS)
  }

  ghost predicate ReferenceMeaning(world: World, units: seq<Record>, error: BankError) {
    match error
    case Positions => false
    case UnreadableUnit => world.envelopeLoads(REFERENCE_END) && !AllReadable(world, units)
    case InvalidReports => false
    case InvalidBank => world.envelopeLoads(REFERENCE_END) ==> AllReadable(world, units) && !world.referencesLoad
  }

  /** What the reason of the positions that were not run says about the position where the campaign stopped. */
  ghost predicate StopMeaning(world: World, records: seq<Record>, good: nat, reason: Option<Reason>)
    requires good < |records|
  {
    match reason
    case Some(TimeBudget) => world.elapsed(good) >= TOTAL_SECONDS
    case Some(DiskBudget) => world.elapsed(good) < TOTAL_SECONDS && world.used(good) >= DISK_BYTES
    case Some(SourceChanged) =>
      world.elapsed(good) < TOTAL_SECONDS && world.used(good) < DISK_BYTES && !world.sourceSame(good)
    case Some(IncompleteBank(error)) => InBudget(world, good) && BankMeaning(world, records, good, error)
    case Some(PriorUnitFailed) => records[good].status == Failed || records[good].status == TimedOut
    case _ => false
  }

  /** What the status and the reason of an attempted position say about its child and its validation. */
  ghost predicate AttemptMeaning(world: World, record: Record, index: nat) {
    match world.child(index)
    case Expired => record.status == TimedOut && record.reason == Some(UnitDeadline)
    case NotLaunched => record.status == Failed && record.reason == Some(LaunchError)
    case Returned(code) =>
      if code != 0 then record.status == Failed && record.reason == Some(NonzeroExit)
      else
        match world.validates(index)
        case Accepted => record.status == Completed && record.reason == None
        case Rejected => record.status == Failed && record.reason == Some(ResultValidation)
        case Uncaught => false
  }

  /** An attempt carries the digests of exactly the banks that were sealed before it. */
  ghost predicate DigestMeaning(world: World, records: seq<Record>, index: nat)
    requires index < |records|
  {
    && records[index].envelope == (if index < ENVELOPE_UNITS then None else
                                   Some(world.digest(records[..ENVELOPE_UNITS])))
    && records[index].bank == (if index < REFERENCE_END then None else
                               Some(world.digest(records[ENVELOPE_UNITS..REFERENCE_END])))
  }

  /** The position where the campaign stopped: the first one that was not completed. */
  ghost predicate FirstStop(records: seq<Record>, good: nat) {
    && good < |records| && records[good].status != Completed
    && forall k :: 0 <= k < good ==> records[k].status == Completed
  }

  ghost predicate RecordMeaning(world: World, records: seq<Record>, i: nat)
    requires i < |records|
  {
    if records[i].status == NotRun then
      && records[i].envelope.None? && records[i].bank.None?
      && exists good: nat ::
        FirstStop(records, good) && good <= i && StopMeaning(world, records, good, records[i].reason)
    else
      InBudget(world, i) && AttemptMeaning(world, records[i], i) && DigestMeaning(world, records, i)
  }

  lemma AttemptExplained(world: World, records: seq<Record>, i: nat)
    requires i < |records| && i < UNITS && Admission(world, i).None? && !Raises(world, i)
    requires records[i] == Attempted(world, records[..i], i)
    ensures RecordMeaning(world, records, i) && records[i].status != NotRun
  {
    assert i >= ENVELOPE_UNITS ==> records[..i][..ENVELOPE_UNITS] == records[..ENVELOPE_UNITS];
    assert i >= REFERENCE_END ==>
      records[..i][ENVELOPE_UNITS..REFERENCE_END] == records[ENVELOPE_UNITS..REFERENCE_END];
  }

  lemma GoodExplained(world: World, records: seq<Record>, prefix: seq<Record>, i: nat)
    requires Running(world, prefix) && i < |prefix| <= |records| && prefix == records[..|prefix|]
    ensures RecordMeaning(world, records, i)
  {
    assert GoodUnit(world, prefix, i);
    assert prefix[..i] == records[..i];
    AttemptExplained(world, records, i);
  }

  /** The bank that failed where a campaign stopped. */
  lemma BankExplained(world: World, prefix: seq<Record>, records: seq<Record>, good: nat)
    requires Running(world, prefix) && |prefix| == good < UNITS && good <= |records| && prefix == records[..good]
    requires BankFailure(world, prefix, good).Some?
    ensures BankMeaning(world, records, good, BankFailure(world, prefix, good).value)
  {
    BankPositionsHold(world, prefix);
    if good == ENVELOPE_UNITS {
      FirstUnitsCompleted(world, prefix, 0, ENVELOPE_UNITS);
      assert prefix[0..ENVELOPE_UNITS] == records[..ENVELOPE_UNITS];
    } else {
      FirstUnitsCompleted(world, prefix, ENVELOPE_UNITS, REFERENCE_END);
      assert prefix[ENVELOPE_UNITS..REFERENCE_END] == records[ENVELOPE_UNITS..REFERENCE_END];
    }
  }

  lemma StopIsFirst(world: World, records: seq<Record>, good: nat)
    requires StoppedAt(world, records, good)
    ensures FirstStop(records, good)
  {
    StoppedNotComplete(world, records, good);
    forall k | 0 <= k < good
      ensures records[k].status == Completed
    {
      GoodRecord(world, records[..good], k);
    }
  }

  /** The records from the stop on. */
  lemma StopExplained(world: World, records: seq<Record>, good: nat, i: nat)
    requires StoppedAt(world, records, good) && good <= i < UNITS
    ensures RecordMeaning(world, records, i)
  {
    StopIsFirst(world, records, good);
    assert records[i] == records[good..][i - good];
    assert i > good ==> records[i] == records[good + 1..][i - good - 1];
    if AttemptedLast(world, records, good) {
      AttemptExplained(world, records, good);
      assert i > good ==> StopMeaning(world, records, good, records[i].reason);
    } else {
      if Admission(world, good).None? {
        BankExplained(world, records[..good], records, good);
      }
      assert StopMeaning(world, records, good, records[i].reason);
    }
  }

  /**
   Every record of every finished campaign tells the truth: an attempted unit about its child, its validation and the
   banks sealed before it, a unit that was not run about the first position that was not completed.
   */
  lemma RecordsMean(world: World, records: seq<Record>, events: seq<Event>, i: nat)
    requires Finished(world, records, events) && i < UNITS
    ensures |records| == UNITS && RecordMeaning(world, records, i)
  {
    if Stopped(world, records, events) {
      var good: nat :| StoppedAt(world, records, good) && LogStopsAt(world, records, good, events);
      if i < good {
        GoodExplained(world, records, records[..good], i);
      } else {
        StopExplained(world, records, good, i);
      }
    } else {
      assert records[..UNITS] == records;
      GoodExplained(world, records, records, i);
    }
  }

  // ----- The registered cases and the bank reader, by their values -----

  /** Every seed of the first two lanes has exactly one position. */
  lemma SeedPosition(seed: int, i: nat)
    requires i < UNITS
    ensures Cases()[i] == EnvelopeCalibration(seed) <==> 500 <= seed < 532 && i == seed - 500
    ensures Cases()[i] == EvaluationReference(seed) <==> 600 <= seed < 616 && i == seed - 568
  {
  }

  /** The positions of the records, in their order. */
  function Indices(records: seq<Record>): seq<int> {
    seq(|records|, k requires 0 <= k < |records| => records[k].index)
  }

  function Interval(lo: int, hi: int): seq<int>
    requires lo <= hi
  {
    seq(hi - lo, k => lo + k)
  }

  /** The bank reader accepts exactly the completed and readable units of its positions, in order. */
  lemma ReportsExact(world: World, records: seq<Record>, lo: nat, hi: nat)
    requires lo <= hi
    ensures ReportsFor(world, records, lo, hi) == Some(Positions) <==> Indices(records) != Interval(lo, hi)
    ensures ReportsFor(world, records, lo, hi) == Some(UnreadableUnit) <==>
      && Indices(records) == Interval(lo, hi)
      && exists k :: 0 <= k < |records| && !(records[k].status == Completed && world.readable(records[k]))
    ensures ReportsFor(world, records, lo, hi).Some? ==>
      ReportsFor(world, records, lo, hi).value in {Positions, UnreadableUnit}
  {
    var found, wanted := Indices(records), Interval(lo, hi);
    if ReportsFor(world, records, lo, hi) != Some(Positions) {
      assert found == wanted;
    } else if |records| == hi - lo {
      var k :| 0 <= k < |records| && records[k].index != lo + k;
      assert found[k] != wanted[k];
    }
  }
}
