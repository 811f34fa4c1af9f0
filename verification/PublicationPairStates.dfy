/** Which runs keep the five pair states, and which leave them. */
module PublicationPairStates {
  import opened Basics
  import opened PublicationFs
  import opened PublicationProtocol

  // ----- The exact condition -----

  /** An exclusive create that succeeds beside the final of its location. */
  ghost predicate CreatesLate(fs: Fs, p: Process, c: Choice) {
    && p.pc == Creating
    && Present(fs, p.location, Final) && !Present(fs, p.location, Stage)
    && c.inode !in fs.files
  }

  /** A stage created beside the final of its location: that final appeared after the process had looked for it. */
  ghost predicate LateCreate(s: System, s': System) {
    exists id, c :: CallStep(s, s', id, c) && CreatesLate(s.fs, s.processes[id], c)
  }

  /** Some location shows a final and a stage at once. */
  predicate Crowded(fs: Fs) {
    || (Present(fs, External, Final) && Present(fs, External, Stage))
    || (Present(fs, Repository, Final) && Present(fs, Repository, Stage))
  }

  lemma RepositoryEntriesBacked(fs: Fs, leaf: Leaf)
    requires FsInv(fs) && Present(fs, Repository, leaf)
    ensures Present(fs, External, Final)
  {
    var slot := Slot(Repository, leaf);
    assert fs.files[fs.dir[slot]].location == slot.location;
    assert BytesAt(fs, External, Final) == Some(fs.files[fs.dir[slot]].goal);
  }

  lemma InvalidIffCrowded(fs: Fs)
    requires FsInv(fs)
    ensures StateOf(fs) == Invalid <==> Crowded(fs)
  {
    if Present(fs, Repository, Final) {
      RepositoryEntriesBacked(fs, Final);
    } else if Present(fs, Repository, Stage) {
      RepositoryEntriesBacked(fs, Stage);
    }
  }

  /** The entries change only by a create or a rename. */
  lemma OtherCallsKeepEntries(fs: Fs, id: nat, p: Process, c: Choice)
    requires !p.pc.Creating? && !p.pc.Renaming?
    ensures Act(fs, id, p, c).0.dir == fs.dir
  {
  }

  lemma RenameCrowds(fs: Fs, location: Location)
    requires CanRename(fs, location)
    ensures Crowded(Rename(fs, location)) <==> Crowded(fs)
  {
    assert !Present(Rename(fs, location), location, Stage);
    forall other, leaf | other != location
      ensures Present(Rename(fs, location), other, leaf) <==> Present(fs, other, leaf)
    {
    }
  }

  lemma CreateCrowds(fs: Fs, location: Location, inode: nat, source: Bytes, writer: nat)
    requires !Present(fs, location, Stage)
    ensures Crowded(CreateStage(fs, location, inode, source, writer)) <==> Crowded(fs) || Present(fs, location, Final)
  {
    var fs' := CreateStage(fs, location, inode, source, writer);
    assert forall other, leaf :: Present(fs', other, leaf) <==>
      Present(fs, other, leaf) || (other == location && leaf == Stage);
  }

  /** A system call crowds a location only by creating a stage late, and nothing clears a crowded one. */
  lemma ActCrowds(fs: Fs, id: nat, p: Process, c: Choice)
    ensures Crowded(Act(fs, id, p, c).0) <==> Crowded(fs) || CreatesLate(fs, p, c)
  {
    if p.pc.Creating? {
      if !Present(fs, p.location, Stage) && c.inode !in fs.files {
        CreateCrowds(fs, p.location, c.inode, p.source, id);
      }
    } else if p.pc.Renaming? {
      if c.moved && CanRename(fs, p.location) {
        RenameCrowds(fs, p.location);
      }
    } else {
      OtherCallsKeepEntries(fs, id, p, c);
    }
  }

  lemma NextCrowds(s: System, s': System)
    requires Next(s, s')
    ensures Crowded(s'.fs) <==> Crowded(s.fs) || LateCreate(s, s')
  {
    if id, c :| CallStep(s, s', id, c) {
      ActCrowds(s.fs, id, s.processes[id], c);
      if LateCreate(s, s') {
        LateCreateCrowds(s, s');
      }
    } else {
      assert s'.fs == s.fs;
      assert !LateCreate(s, s');
    }
  }

  lemma LateCreateCrowds(s: System, s': System)
    requires LateCreate(s, s')
    ensures Crowded(s'.fs)
  {
    var id, c :| CallStep(s, s', id, c) && CreatesLate(s.fs, s.processes[id], c);
    ActCrowds(s.fs, id, s.processes[id], c);
  }

  lemma {:induction false} CrowdedIffLateCreate(run: seq<System>, i: nat)
    requires IsRun(run) && i < |run|
    ensures Crowded(run[i].fs) <==> exists k :: 0 <= k < i && LateCreate(run[k], run[k + 1])
  {
    if i == 0 {
      assert !Crowded(run[0].fs);
    } else {
      CrowdedIffLateCreate(run, i - 1);
      assert Next(run[i - 1], run[(i - 1) + 1]);
      NextCrowds(run[i - 1], run[i]);
      assert LateCreate(run[i - 1], run[i]) ==> LateCreate(run[i - 1], run[(i - 1) + 1]);
    }
  }

  /**
   The pair state is outside the five valid ones exactly when some stage was created late, whoever runs beside whom.
   */
  lemma InvalidIffLateCreate(run: seq<System>, i: nat)
    requires IsRun(run) && i < |run|
    ensures StateOf(run[i].fs) == Invalid <==> exists k :: 0 <= k < i && LateCreate(run[k], run[k + 1])
  {
    RunKeepsInv(run, i);
    InvalidIffCrowded(run[i].fs);
    CrowdedIffLateCreate(run, i);
  }

  // ----- One process at a time -----

  predicate Live(p: Process) { !p.pc.Done? && !p.pc.Stopped? }

  ghost predicate OneLive(s: System) {
    forall a, b :: a in s.processes && b in s.processes && Live(s.processes[a]) && Live(s.processes[b]) ==> a == b
  }

  /** A process starts only when those before it have finished, stopped or crashed: publishers and repairers in turn. */
  ghost predicate InTurn(run: seq<System>) { forall i :: 0 <= i < |run| ==> OneLive(run[i]) }

  /** The process is about to create its stage and has found no final. */
  predicate HasLooked(p: Process) { p.pc.CheckStage? || p.pc.Creating? }

  /** What a process has looked for and not found is still not there. */
  ghost predicate LooksHold(s: System) {
    forall id :: id in s.processes && HasLooked(s.processes[id]) ==> !Present(s.fs, s.processes[id].location, Final)
  }

  /** A call by which a process has looked finds no final and changes nothing. */
  lemma LookingCall(fs: Fs, id: nat, p: Process, c: Choice)
    requires HasLooked(p) ==> !Present(fs, p.location, Final)
    requires HasLooked(Act(fs, id, p, c).1)
    ensures !Present(Act(fs, id, p, c).0, Act(fs, id, p, c).1.location, Final)
  {
  }

  lemma LooksHoldCall(s: System, s': System, id: nat, c: Choice)
    requires LooksHold(s) && OneLive(s) && CallStep(s, s', id, c)
    ensures LooksHold(s')
  {
    forall other | other in s'.processes && HasLooked(s'.processes[other])
      ensures !Present(s'.fs, s'.processes[other].location, Final)
    {
      if other == id {
        LookingCall(s.fs, id, s.processes[id], c);
      } else {
        assert s'.processes[other] == s.processes[other] && Live(s.processes[other]);
        assert !Live(s.processes[id]);
      }
    }
  }

  lemma LooksHoldNext(s: System, s': System)
    requires LooksHold(s) && OneLive(s) && Next(s, s')
    ensures LooksHold(s') && !LateCreate(s, s')
  {
    if id, c :| CallStep(s, s', id, c) {
      LooksHoldCall(s, s', id, c);
    }
  }

  lemma {:induction false} LooksHoldAlong(run: seq<System>, i: nat)
    requires IsRun(run) && InTurn(run) && i < |run|
    ensures LooksHold(run[i])
    ensures forall k :: 0 <= k < i ==> !LateCreate(run[k], run[k + 1])
  {
    if i == 0 {
      assert LooksHold(run[0]);
    } else {
      LooksHoldAlong(run, i - 1);
      assert Next(run[i - 1], run[(i - 1) + 1]);
      LooksHoldNext(run[i - 1], run[i]);
    }
  }

  /** Processes run one after another keep the five pair states, wherever each of them stops or crashes. */
  lemma InTurnStatesValid(run: seq<System>, i: nat)
    requires IsRun(run) && InTurn(run) && i < |run|
    ensures StateOf(run[i].fs) != Invalid
  {
    LooksHoldAlong(run, i);
    InvalidIffLateCreate(run, i);
  }

  // ----- Abandoned stages -----

  /**
   A stage that nobody will promote: its writer has stopped or crashed, and at the repository, where a repairer may
   take over a complete stage, it does not hold all that was to be written.
   */
  ghost predicate Abandoned(s: System, location: Location, inode: nat) {
    && Holds(s.fs, location, Stage, inode) && inode in s.fs.files
    && s.fs.files[inode].writer in s.processes && s.processes[s.fs.files[inode].writer].pc == Stopped
    && (location == Repository ==> s.fs.files[inode].bytes != s.fs.files[inode].goal)
  }

  /** No rename takes an abandoned stage away. */
  lemma AbandonedNotMoved(s: System, location: Location, inode: nat, id: nat)
    requires Inv(s) && Abandoned(s, location, inode) && id in s.processes
    requires s.processes[id].pc.Renaming? && s.processes[id].location == location
    ensures !CanRename(s.fs, location)
  {
    var p := s.processes[id];
    assert ProcessInv(s.fs, id, p) && HoldsWhole(s.fs, p) && Placed(s.fs, p.held);
    assert CanRename(s.fs, location) ==> p.held == inode;
  }

  /** A process that writes, writes to a file of its own. */
  lemma AbandonedNotWritten(s: System, location: Location, inode: nat, id: nat)
    requires Inv(s) && Abandoned(s, location, inode) && id in s.processes && s.processes[id].pc.Writing?
    ensures s.processes[id].held != inode
  {
    assert ProcessInv(s.fs, id, s.processes[id]);
  }

  lemma AbandonedCall(s: System, s': System, location: Location, inode: nat, id: nat, c: Choice)
    requires Inv(s) && Abandoned(s, location, inode) && CallStep(s, s', id, c)
    ensures Holds(s'.fs, location, Stage, inode) && inode in s'.fs.files
    ensures s'.fs.files[inode] == s.fs.files[inode]
  {
    var p := s.processes[id];
    if p.pc.Renaming? {
      if p.location == location {
        AbandonedNotMoved(s, location, inode, id);
      }
      RenameKeepsOthers(s.fs, id, p, c, location);
    } else if p.pc.Writing? {
      AbandonedNotWritten(s, location, inode, id);
      WriteKeepsOthers(s.fs, id, p, c, inode);
    } else if p.pc.Creating? {
      CreateKeepsOthers(s.fs, id, p, c, location, inode);
    } else {
      OtherCallsKeepEntries(s.fs, id, p, c);
      OtherCallsKeepFiles(s.fs, id, p, c);
    }
  }

  lemma RenameKeepsOthers(fs: Fs, id: nat, p: Process, c: Choice, location: Location)
    requires p.pc.Renaming? && (p.location == location ==> !CanRename(fs, location))
    ensures var fs' := Act(fs, id, p, c).0;
      fs'.files == fs.files && forall i :: Holds(fs, location, Stage, i) ==> Holds(fs', location, Stage, i)
  {
  }

  lemma WriteKeepsOthers(fs: Fs, id: nat, p: Process, c: Choice, inode: nat)
    requires p.pc.Writing? && p.held != inode && inode in fs.files
    ensures var fs' := Act(fs, id, p, c).0;
      fs'.dir == fs.dir && inode in fs'.files && fs'.files[inode] == fs.files[inode]
  {
  }

  lemma CreateKeepsOthers(fs: Fs, id: nat, p: Process, c: Choice, location: Location, inode: nat)
    requires p.pc.Creating? && Holds(fs, location, Stage, inode) && inode in fs.files
    ensures var fs' := Act(fs, id, p, c).0;
      Holds(fs', location, Stage, inode) && inode in fs'.files && fs'.files[inode] == fs.files[inode]
  {
  }

  lemma OtherCallsKeepFiles(fs: Fs, id: nat, p: Process, c: Choice)
    requires !p.pc.Creating? && !p.pc.Writing?
    ensures Act(fs, id, p, c).0.files == fs.files
  {
  }

  lemma StoppedStays(fs: Fs, id: nat, p: Process, c: Choice)
    requires p.pc == Stopped
    ensures Act(fs, id, p, c) == (fs, p)
  {
  }

  lemma AbandonedNext(s: System, s': System, location: Location, inode: nat)
    requires Inv(s) && Abandoned(s, location, inode) && Next(s, s')
    ensures Abandoned(s', location, inode) && s'.fs.files[inode] == s.fs.files[inode]
  {
    var writer := s.fs.files[inode].writer;
    if id, c :| CallStep(s, s', id, c) {
      AbandonedCall(s, s', location, inode, id, c);
      StoppedStays(s.fs, writer, s.processes[writer], c);
    }
  }

  lemma AbandonedStep(run: seq<System>, k: nat, location: Location, inode: nat)
    requires IsRun(run) && k + 1 < |run| && Abandoned(run[k], location, inode)
    ensures Abandoned(run[k + 1], location, inode) && run[k + 1].fs.files[inode] == run[k].fs.files[inode]
  {
    RunKeepsInv(run, k);
    AbandonedNext(run[k], run[k + 1], location, inode);
  }

  lemma AbandonedNotComplete(s: System, location: Location, inode: nat)
    requires Abandoned(s, location, inode)
    ensures StateOf(s.fs) != Complete
  {
  }

  /**
   An abandoned stage stays, with its bytes, through every continuation of every run, whatever publishers and repairers
   do: the pair is never complete from then on.
   */
  lemma {:induction false} AbandonedForEver(run: seq<System>, i: nat, j: nat, location: Location, inode: nat)
    requires IsRun(run) && i <= j < |run| && Abandoned(run[i], location, inode)
    ensures Abandoned(run[j], location, inode) && run[j].fs.files[inode] == run[i].fs.files[inode]
    ensures StateOf(run[j].fs) != Complete
    decreases j - i
  {
    if i == j {
    } else {
      AbandonedForEver(run, i, j - 1, location, inode);
      AbandonedStep(run, j - 1, location, inode);
    }
    AbandonedNotComplete(run[j], location, inode);
  }

  // ----- Crash points of a single publisher -----

  /** Only process id ever runs, as a publisher. */
  ghost predicate Solo(run: seq<System>, id: nat) {
    forall i :: 0 <= i < |run| ==>
      forall p :: p in run[i].processes ==> p == id && run[i].processes[p].role == Publisher
  }

  /** The pair states possible at each point of a single publisher. */
  ghost predicate SoloStates(fs: Fs, p: Process) {
    var state := StateOf(fs);
    match p.location
    case External =>
      (match p.pc
       case Observing(_) | CheckFinal | CheckStage | Creating => state == Absent
       case Writing | Verifying | StatStage | StatFinal | Renaming => state == ExternalStageUnresolved
       case Rereading | LookStageAgain | LookFinalAgain(_) => state == ExternalOnly
       case _ => state in {Absent, ExternalStageUnresolved, ExternalOnly})
    case Repository =>
      (match p.pc
       case Observing(_) => false
       case CheckFinal | CheckStage | Creating => state == ExternalOnly
       case Writing | Verifying | StatStage | StatFinal | Renaming => state == ExternalPlusRepositoryStage
       case Rereading | LookStageAgain | LookFinalAgain(_) | Confirming(_) | ReloadRepository | ReloadExternal | Done =>
         state == Complete
       case _ => state in {ExternalOnly, ExternalPlusRepositoryStage, Complete})
  }

  lemma SoloAct(fs: Fs, id: nat, p: Process, c: Choice)
    requires FsInv(fs) && ProcessInv(fs, id, p) && p.role == Publisher && SoloStates(fs, p)
    ensures var (fs', p') := Act(fs, id, p, c); SoloStates(fs', p')
  {
    match p.pc {
      case Creating => SoloCreate(fs, id, p, c);
      case Renaming => SoloRename(fs, id, p, c);
      case Writing => SoloWrite(fs, id, p, c);
      case _ => SoloRead(fs, id, p, c);
    }
  }

  lemma SoloCreate(fs: Fs, id: nat, p: Process, c: Choice)
    requires p.role == Publisher && SoloStates(fs, p) && p.pc.Creating?
    ensures var (fs', p') := Act(fs, id, p, c); SoloStates(fs', p')
  {
  }

  lemma SoloRename(fs: Fs, id: nat, p: Process, c: Choice)
    requires p.role == Publisher && SoloStates(fs, p) && p.pc.Renaming?
    ensures var (fs', p') := Act(fs, id, p, c); SoloStates(fs', p')
  {
  }

  lemma SoloWrite(fs: Fs, id: nat, p: Process, c: Choice)
    requires p.role == Publisher && SoloStates(fs, p) && p.pc.Writing?
    ensures var (fs', p') := Act(fs, id, p, c); SoloStates(fs', p')
  {
  }

  lemma SoloRead(fs: Fs, id: nat, p: Process, c: Choice)
    requires p.role == Publisher && SoloStates(fs, p) && ProcessInv(fs, id, p)
    requires !p.pc.Creating? && !p.pc.Renaming? && !p.pc.Writing?
    ensures var (fs', p') := Act(fs, id, p, c); SoloStates(fs', p')
  {
  }

  /** Before the publisher starts nothing exists; afterwards the pair state follows its program point. */
  ghost predicate SoloInv(s: System, id: nat) {
    if id in s.processes then SoloStates(s.fs, s.processes[id]) else StateOf(s.fs) == Absent
  }

  lemma {:induction false} SoloAlong(run: seq<System>, id: nat, i: nat)
    requires i < |run| && SoloInv(run[0], id)
    requires forall k :: 0 <= k < i ==> SoloInv(run[k], id) ==> SoloInv(run[k + 1], id)
    ensures SoloInv(run[i], id)
  {
    if i == 0 {
    } else {
      SoloAlong(run, id, i - 1);
      assert SoloInv(run[i - 1], id) ==> SoloInv(run[(i - 1) + 1], id);
    }
  }

  lemma SoloRunStates(run: seq<System>, id: nat, i: nat)
    requires IsRun(run) && Solo(run, id) && i < |run|
    ensures SoloInv(run[i], id)
  {
    forall k | 0 <= k < i
      ensures SoloInv(run[k], id) ==> SoloInv(run[k + 1], id)
    {
      RunKeepsInv(run, k);
      if SoloInv(run[k], id) {
        SoloNext(run[k], run[k + 1], id);
      }
    }
    SoloAlong(run, id, i);
  }

  lemma SoloNext(s: System, s': System, id: nat)
    requires Inv(s) && SoloInv(s, id) && Next(s, s')
    requires forall p :: p in s.processes ==> p == id && s.processes[p].role == Publisher
    requires forall p :: p in s'.processes ==> p == id && s'.processes[p].role == Publisher
    ensures SoloInv(s', id)
  {
    if n, c :| CallStep(s, s', n, c) {
      SoloAct(s.fs, id, s.processes[id], c);
    } else if n :| CrashStep(s, s', n) {
    } else {
      var n, role, source :| StartStep(s, s', n, role, source);
      assert n in s'.processes;
    }
  }

  /** Wherever a single publisher crashes, the four entries classify as one of the five valid pair states. */
  lemma SoloCrashStatesValid(run: seq<System>, id: nat, i: nat)
    requires IsRun(run) && Solo(run, id) && i < |run|
    ensures StateOf(run[i].fs) != Invalid
  {
    InTurnStatesValid(run, i);
  }
}
