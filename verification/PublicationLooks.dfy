/** What a process has seen for itself before it reports success, whoever else is at work. */
module PublicationLooks {
  import opened PublicationFs
  import opened PublicationProtocol

  /** The two looks after a promotion, and the one of the final confirmation. */
  datatype Look = First | Again | Last

  /** Whether a process takes this look at a location now. */
  predicate Looks(p: Process, location: Location, look: Look) {
    match look
    case First => p.location == location && p.pc.LookStage?
    case Again => p.location == location && p.pc.LookStageAgain?
    case Last => p.pc.Confirming? && |p.pc.seen| == (if location == External then 1 else 3)
  }

  /** The process takes this look at a location now, and there is no stage. */
  predicate Sees(s: System, id: nat, location: Location, look: Look) {
    id in s.processes && Looks(s.processes[id], location, look) && !Present(s.fs, location, Stage)
  }

  /** The process has looked at the location and has seen no stage. */
  ghost predicate Saw(run: seq<System>, id: nat, location: Location, look: Look) {
    exists i :: 0 <= i < |run| && Sees(run[i], id, location, look)
  }

  /** Past the first look at the current location, with the stage gone. */
  predicate PastFirst(pc: Pc) {
    pc == LookFinal(true) || pc.Rereading? || pc.LookStageAgain? || pc.LookFinalAgain? || Finished(pc)
  }

  predicate PastAgain(pc: Pc) { pc == LookFinalAgain(true) || Finished(pc) }

  /** Past the confirming look at a location. */
  predicate PastLast(pc: Pc, location: Location) {
    match pc
    case Confirming(seen) => var k := if location == External then 1 else 3; |seen| > k && !seen[k]
    case _ => pc.ReloadRepository? || pc.ReloadExternal? || pc.Done?
  }

  /** Which looks without a stage a process has behind it. */
  datatype Seen = Seen(external: Looked, repository: Looked) {
    predicate At(location: Location, look: Look) {
      if location == External then external.Had(look) else repository.Had(look)
    }
  }

  datatype Looked = Looked(first: bool, again: bool, last: bool) {
    predicate Had(look: Look) {
      match look
      case First => first
      case Again => again
      case Last => last
    }
  }

  ghost function SeenIn(run: seq<System>, id: nat): Seen {
    Seen(LookedIn(run, id, External), LookedIn(run, id, Repository))
  }

  ghost function LookedIn(run: seq<System>, id: nat, location: Location): Looked {
    Looked(Saw(run, id, location, First), Saw(run, id, location, Again), Saw(run, id, location, Last))
  }

  /** What a process must have seen to be where it is. */
  predicate Needed(p: Process, seen: Seen) {
    && (PastFirst(p.pc) ==> seen.At(p.location, First))
    && (PastAgain(p.pc) ==> seen.At(p.location, Again))
    && (p.role == Publisher && p.location == Repository ==>
          seen.At(External, First) && seen.At(External, Again))
    && (PastLast(p.pc, External) ==> seen.At(External, Last))
    && (PastLast(p.pc, Repository) ==> seen.At(Repository, Last))
    && (Finished(p.pc) ==> p.location == Repository)
    && (p.role == Publisher ==> !p.pc.Loading?)
  }

  predicate AtLeast(seen: Seen, before: Seen) {
    forall location, look :: before.At(location, look) ==> seen.At(location, look)
  }

  lemma SawBefore(run: seq<System>, s: System, id: nat, location: Location, look: Look)
    requires Saw(run, id, location, look)
    ensures Saw(run + [s], id, location, look)
  {
    var i :| 0 <= i < |run| && Sees(run[i], id, location, look);
    assert (run + [s])[i] == run[i];
  }

  lemma SeenBefore(run: seq<System>, s: System, id: nat)
    ensures AtLeast(SeenIn(run + [s], id), SeenIn(run, id))
  {
    forall location, look | SeenIn(run, id).At(location, look)
      ensures SeenIn(run + [s], id).At(location, look)
    {
      SawBefore(run, s, id, location, look);
    }
  }

  lemma StillNeeded(p: Process, before: Seen, seen: Seen)
    requires Needed(p, before) && AtLeast(seen, before)
    ensures Needed(p, seen)
  {
  }

  lemma SeenLast(run: seq<System>, id: nat, location: Location, look: Look)
    requires run != [] && Sees(run[|run| - 1], id, location, look)
    ensures Saw(run, id, location, look)
  {
  }

  /** A look without a stage that the process takes now is among those it has seen. */
  ghost predicate CountsNow(fs: Fs, p: Process, seen: Seen) {
    forall location, look :: Looks(p, location, look) && !Present(fs, location, Stage) ==> seen.At(location, look)
  }

  /** Where a system call of a promotion can lead. */
  predicate PromotionLeads(fs: Fs, p: Process, p': Process) {
    && p'.role == p.role && !p'.pc.Loading?
    && (p'.location == p.location || (p.pc == LookFinalAgain(true) && p'.location == Repository && p'.pc.CheckFinal?))
    && (PastFirst(p'.pc) ==> PastFirst(p.pc) || (Looks(p, p.location, First) && !Present(fs, p.location, Stage)))
    && (p'.pc == LookFinalAgain(true) ==> Looks(p, p.location, Again) && !Present(fs, p.location, Stage))
    && (Finished(p'.pc) ==> p.pc == LookFinalAgain(true) && p'.location == Repository && p'.pc == Confirming([]))
  }

  lemma PromotionCall(fs: Fs, id: nat, p: Process, c: Choice)
    requires Promoting(p.pc)
    ensures PromotionLeads(fs, p, Act(fs, id, p, c).1)
  {
  }

  lemma PromotionNeeds(fs: Fs, p: Process, p': Process, seen: Seen)
    requires Promoting(p.pc) && Needed(p, seen) && CountsNow(fs, p, seen) && PromotionLeads(fs, p, p')
    ensures Needed(p', seen)
  {
  }

  /** A system call of a promotion needs nothing that was not seen before it or in it. */
  lemma PromotionLooks(fs: Fs, id: nat, p: Process, c: Choice, seen: Seen)
    requires Promoting(p.pc) && Needed(p, seen) && CountsNow(fs, p, seen)
    ensures Needed(Act(fs, id, p, c).1, seen)
  {
    PromotionCall(fs, id, p, c);
    PromotionNeeds(fs, p, Act(fs, id, p, c).1, seen);
  }

  /** Nor does a system call of the confirmation. */
  lemma ConfirmingLooks(fs: Fs, id: nat, p: Process, c: Choice, seen: Seen)
    requires Finished(p.pc) && Needed(p, seen) && CountsNow(fs, p, seen)
    ensures Needed(Act(fs, id, p, c).1, seen)
  {
    assert Looks(p, External, Last) <==> p.pc.Confirming? && |p.pc.seen| == 1;
    assert Looks(p, Repository, Last) <==> p.pc.Confirming? && |p.pc.seen| == 3;
  }

  /** No other call gets past a look. */
  lemma OtherCallsLook(fs: Fs, id: nat, p: Process, c: Choice)
    requires !Promoting(p.pc) && !Finished(p.pc)
    ensures var p' := Act(fs, id, p, c).1;
      && p'.role == p.role && !PastFirst(p'.pc) && !Finished(p'.pc)
      && (p'.location == p.location || p'.location == External || p.pc.Loading?)
      && (p'.pc.Loading? ==> p'.role == Repairer)
  {
  }

  /** A system call needs nothing that was not seen before it or in it. */
  lemma ActLooks(fs: Fs, id: nat, p: Process, c: Choice, seen: Seen)
    requires Needed(p, seen) && CountsNow(fs, p, seen)
    ensures Needed(Act(fs, id, p, c).1, seen)
  {
    if Promoting(p.pc) {
      PromotionLooks(fs, id, p, c, seen);
    } else if Finished(p.pc) {
      ConfirmingLooks(fs, id, p, c, seen);
    } else {
      OtherCallsLook(fs, id, p, c);
    }
  }

  lemma CallLooks(run: seq<System>, id: nat, c: Choice)
    requires run != [] && id in run[|run| - 1].processes
    requires Needed(run[|run| - 1].processes[id], SeenIn(run, id))
    ensures Needed(Act(run[|run| - 1].fs, id, run[|run| - 1].processes[id], c).1, SeenIn(run, id))
  {
    var s := run[|run| - 1];
    var p := s.processes[id];
    forall location, look | Looks(p, location, look) && !Present(s.fs, location, Stage)
      ensures SeenIn(run, id).At(location, look)
    {
      SeenLast(run, id, location, look);
    }
    ActLooks(s.fs, id, p, c, SeenIn(run, id));
  }

  lemma NextLooks(run: seq<System>, s: System, id: nat)
    requires run != [] && Next(run[|run| - 1], s) && id in s.processes
    requires id in run[|run| - 1].processes ==> Needed(run[|run| - 1].processes[id], SeenIn(run, id))
    ensures Needed(s.processes[id], SeenIn(run, id))
  {
    var before := run[|run| - 1];
    if mover, c :| CallStep(before, s, mover, c) {
      if mover == id {
        CallLooks(run, id, c);
      }
    }
  }

  lemma {:induction false} RunLooks(run: seq<System>, n: nat, id: nat)
    requires IsRun(run) && 0 < n <= |run| && id in run[n - 1].processes
    ensures Needed(run[n - 1].processes[id], SeenIn(run[..n], id))
  {
    if n == 1 {
    } else {
      var before := run[..n - 1];
      assert Next(run[n - 2], run[(n - 2) + 1]);
      if id in run[n - 2].processes {
        RunLooks(run, n - 1, id);
      }
      NextLooks(before, run[n - 1], id);
      assert run[..n] == before + [run[n - 1]];
      SeenBefore(before, run[n - 1], id);
      StillNeeded(run[n - 1].processes[id], SeenIn(before, id), SeenIn(run[..n], id));
    }
  }

  /**
   A process that reports success has seen no stage beside the final it put into the repository, at both looks of the
   promotion, nor at either location when it confirmed the pair, and a publisher has seen none at the external location
   at both looks there; a stage that another process creates in between stops it.
   */
  lemma SuccessLooked(run: seq<System>, n: nat, id: nat)
    requires IsRun(run) && n < |run| && id in run[n].processes && run[n].processes[id].pc == Done
    ensures Saw(run[..n + 1], id, Repository, First) && Saw(run[..n + 1], id, Repository, Again)
    ensures run[n].processes[id].role == Publisher ==>
      Saw(run[..n + 1], id, External, First) && Saw(run[..n + 1], id, External, Again)
    ensures Saw(run[..n + 1], id, External, Last) && Saw(run[..n + 1], id, Repository, Last)
  {
    RunLooks(run, n + 1, id);
  }
}
