/** Any number of publishers and repairers over the two locations, with crashes and partial writes. */
module PublicationProtocol {
  import opened Basics
  import opened PublicationFs

  datatype Role = Publisher | Repairer

  /** The next system call of a process. */
  datatype Pc =
    | Observing(seen: seq<bool>)
    | Loading(stageSeen: bool)
    | CheckFinal
    | CheckStage
    | Creating
    | Writing
    | Verifying
    | CheckBeforeOpen
    | Opening
    | LiveStat
    | Comparing
    | StatStage
    | StatFinal
    | Renaming
    | LookStage
    | LookFinal(stageGone: bool)
    | Rereading
    | LookStageAgain
    | LookFinalAgain(stageGone: bool)
    | Confirming(seen: seq<bool>)
    | ReloadRepository
    | ReloadExternal
    | Done
    | Stopped

  datatype Process = Process(role: Role, source: Bytes, location: Location, pc: Pc, held: nat, offset: nat)

  datatype System = System(fs: Fs, processes: map<nat, Process>)

  /**
   What the environment decides in one step: chunk size, fresh inode, whether the kernel moves the entry, and
   whether a content or privacy check accepts what it is given.
   */
  datatype Choice = Choice(chunk: nat, inode: nat, moved: bool, accepted: bool)

  /** The four presence bits are read one at a time, in this order. */
  function ObservedSlot(k: nat): Slot {
    if k == 0 then Slot(External, Final)
    else if k == 1 then Slot(External, Stage)
    else if k == 2 then Slot(Repository, Final)
    else Slot(Repository, Stage)
  }

  function Classified(seen: seq<bool>): PairState
    requires |seen| == 4
  {
    Classify(seen[0], seen[1], seen[2], seen[3])
  }

  /** After four observations: publishers need the absent state, repairers a repairable one. */
  function AfterObserving(p: Process, seen: seq<bool>): Process
    requires |seen| == 4
  {
    var state := Classified(seen);
    if p.role == Publisher then
      if state == Absent then p.(pc := CheckFinal, location := External) else p.(pc := Stopped)
    else if state == ExternalOnly || state == ExternalPlusRepositoryStage then
      p.(pc := Loading(state == ExternalPlusRepositoryStage))
    else p.(pc := Stopped)
  }

  /** The process and file system after one system call of p. */
  function Act(fs: Fs, id: nat, p: Process, c: Choice): (Fs, Process) {
    match p.pc
    case Observing(seen) =>
      if |seen| < 4 then (fs, p.(pc := Observing(seen + [ObservedSlot(|seen|) in fs.dir])))
      else if |seen| == 4 then (fs, AfterObserving(p, seen))
      else (fs, p.(pc := Stopped))
    case Loading(stageSeen) =>
      var loaded := BytesAt(fs, External, Final);
      if loaded.None? || loaded.value == [] || !c.accepted then (fs, p.(pc := Stopped))
      else
        (fs, p.(source := loaded.value, location := Repository,
                pc := if stageSeen then CheckBeforeOpen else CheckFinal))
    case CheckFinal => (fs, p.(pc := if !c.accepted || Present(fs, p.location, Final) then Stopped else CheckStage))
    case CheckStage => (fs, p.(pc := if Present(fs, p.location, Stage) then Stopped else Creating))
    case Creating =>
      if Present(fs, p.location, Stage) || c.inode in fs.files then (fs, p.(pc := Stopped))
      else (CreateStage(fs, p.location, c.inode, p.source, id), p.(held := c.inode, offset := 0, pc := Writing))
    case Writing =>
      if p.offset >= |p.source| then (fs, p.(pc := Verifying))
      else if p.held !in fs.files || c.chunk == 0 then (fs, p.(pc := Stopped))
      else
        var end := if p.offset + c.chunk < |p.source| then p.offset + c.chunk else |p.source|;
        (Append(fs, p.held, p.source[p.offset..end]), p.(offset := end))
    case Verifying =>
      (fs, p.(pc := if p.held in fs.files && fs.files[p.held].bytes == p.source then StatStage else Stopped))
    case CheckBeforeOpen => (fs, p.(pc := if Present(fs, Repository, Final) then Stopped else Opening))
    case Opening =>
      if Present(fs, Repository, Stage) then (fs, p.(held := fs.dir[Slot(Repository, Stage)], pc := LiveStat))
      else (fs, p.(pc := Stopped))
    case LiveStat =>
      (fs, p.(pc := if Holds(fs, Repository, Stage, p.held) && c.accepted then Comparing else Stopped))
    case Comparing =>
      (fs, p.(pc := if p.held in fs.files && fs.files[p.held].bytes == p.source then StatStage else Stopped))
    case StatStage => (fs, p.(pc := if Holds(fs, p.location, Stage, p.held) then StatFinal else Stopped))
    case StatFinal => (fs, p.(pc := if Present(fs, p.location, Final) then Stopped else Renaming))
    case Renaming =>
      (if c.moved && CanRename(fs, p.location) then Rename(fs, p.location) else fs, p.(pc := LookStage))
    case LookStage => (fs, p.(pc := LookFinal(!Present(fs, p.location, Stage))))
    case LookFinal(gone) =>
      (fs, p.(pc := if gone && Holds(fs, p.location, Final, p.held) then Rereading else Stopped))
    case Rereading =>
      (fs, p.(pc := if Holds(fs, p.location, Final, p.held) && BytesAt(fs, p.location, Final) == Some(p.source)
                    then LookStageAgain else Stopped))
    case LookStageAgain => (fs, p.(pc := LookFinalAgain(!Present(fs, p.location, Stage))))
    case LookFinalAgain(gone) =>
      if gone && Holds(fs, p.location, Final, p.held) then
        if p.location == External then (fs, p.(location := Repository, pc := CheckFinal))
        else (fs, p.(pc := Confirming([])))
      else (fs, p.(pc := Stopped))
    case Confirming(seen) =>
      if |seen| < 4 then (fs, p.(pc := Confirming(seen + [ObservedSlot(|seen|) in fs.dir])))
      else (fs, p.(pc := if |seen| == 4 && Classified(seen) == Complete then ReloadRepository else Stopped))
    case ReloadRepository =>
      (fs, p.(pc := if BytesAt(fs, Repository, Final) == Some(p.source) then ReloadExternal else Stopped))
    case ReloadExternal =>
      (fs, p.(pc := if BytesAt(fs, External, Final) == Some(p.source) then Done else Stopped))
    case Done => (fs, p)
    case Stopped => (fs, p)
  }

  /** One system call of process id. */
  ghost predicate CallStep(s: System, s': System, id: nat, c: Choice) {
    && id in s.processes
    && var (fs, p) := Act(s.fs, id, s.processes[id], c); s' == System(fs, s.processes[id := p])
  }

  /** A crash: the process takes no further step; everything on disk stays as it is. */
  ghost predicate CrashStep(s: System, s': System, id: nat) {
    && id in s.processes
    && s' == s.(processes := s.processes[id := s.processes[id].(pc := Stopped)])
  }

  /** A process as it starts. */
  function Started(role: Role, source: Bytes): Process {
    Process(role, source, if role == Publisher then External else Repository, Observing([]), 0, 0)
  }

  /** A new process: a publisher with its canonical bytes, or a repairer. */
  ghost predicate StartStep(s: System, s': System, id: nat, role: Role, source: Bytes) {
    && id !in s.processes && source != []
    && s' == s.(processes := s.processes[id := Started(role, source)])
  }

  ghost predicate Next(s: System, s': System) {
    || (exists id, c :: CallStep(s, s', id, c))
    || (exists id :: CrashStep(s, s', id))
    || (exists id, role, source :: StartStep(s, s', id, role, source))
  }

  ghost predicate IsRun(run: seq<System>) {
    && run != []
    && run[0] == System(Fs(map[], map[]), map[])
    && (forall i :: 0 <= i < |run| - 1 ==> Next(run[i], run[i + 1]))
  }

  // ----- Invariant -----

  /** Every file is still at the stage or the final entry of the location it was created for. */
  ghost predicate Placed(fs: Fs, inode: nat)
    requires inode in fs.files
  {
    Holds(fs, fs.files[inode].location, Stage, inode) || Holds(fs, fs.files[inode].location, Final, inode)
  }

  /** Entries name distinct existing files of their own location. */
  ghost predicate EntriesInv(fs: Fs) {
    && (forall slot :: slot in fs.dir ==> fs.dir[slot] in fs.files && fs.files[fs.dir[slot]].location == slot.location)
    && (forall a, b :: a in fs.dir && b in fs.dir && a != b ==> fs.dir[a] != fs.dir[b])
  }

  /** Files hold a prefix of what their creator writes, and are where they were put. */
  ghost predicate FilesInv(fs: Fs) {
    forall i :: i in fs.files ==> fs.files[i].bytes <= fs.files[i].goal && Placed(fs, i)
  }

  /** Whatever is written for the repository is meant to be the external final. */
  ghost predicate Backed(fs: Fs) {
    forall i :: i in fs.files && fs.files[i].location == Repository ==>
      BytesAt(fs, External, Final) == Some(fs.files[i].goal)
  }

  ghost predicate FsInv(fs: Fs) {
    EntriesInv(fs) && FilesInv(fs) && WholeFinal(fs, External) && WholeFinal(fs, Repository) && Backed(fs)
  }

  /** A process past observation and loading knows its source. */
  predicate Sourced(pc: Pc) { !pc.Observing? && !pc.Loading? && !pc.Stopped? }

  /** From the first stat before promotion to the last look after it. */
  predicate Promoting(pc: Pc) {
    pc.StatStage? || pc.StatFinal? || pc.Renaming? || pc.LookStage? || pc.LookFinal? || pc.Rereading?
    || pc.LookStageAgain? || pc.LookFinalAgain?
  }

  predicate Opened(pc: Pc) { pc.LiveStat? || pc.Comparing? }

  predicate Finished(pc: Pc) { pc.Confirming? || pc.ReloadRepository? || pc.ReloadExternal? || pc.Done? }

  /** The held file carries exactly the source, completely. */
  ghost predicate HoldsWhole(fs: Fs, p: Process) {
    && p.held in fs.files && fs.files[p.held].location == p.location
    && fs.files[p.held].bytes == fs.files[p.held].goal == p.source
  }

  /** The writer's file carries exactly the bytes written so far. */
  ghost predicate HoldsPart(fs: Fs, id: nat, p: Process) {
    && p.held in fs.files && fs.files[p.held].writer == id && fs.files[p.held].location == p.location
    && p.offset <= |p.source| && fs.files[p.held].goal == p.source && fs.files[p.held].bytes == p.source[..p.offset]
  }

  ghost predicate ProcessInv(fs: Fs, id: nat, p: Process) {
    && (p.role == Repairer ==> p.location == Repository)
    && (p.role == Publisher ==> !p.pc.Loading? && !p.pc.CheckBeforeOpen? && !p.pc.Opening? && !Opened(p.pc))
    && (Sourced(p.pc) && p.location == Repository ==> BytesAt(fs, External, Final) == Some(p.source))
    && (p.pc.Writing? ==> HoldsPart(fs, id, p))
    && (p.pc.Verifying? || Promoting(p.pc) ==> HoldsWhole(fs, p))
    && (Opened(p.pc) ==> p.held in fs.files && fs.files[p.held].location == Repository)
    && (p.pc.Rereading? || p.pc.LookStageAgain? || p.pc.LookFinalAgain? ==> Holds(fs, p.location, Final, p.held))
    && (Finished(p.pc) ==> p.location == Repository && BytesAt(fs, Repository, Final) == Some(p.source))
    && (p.role == Publisher && (p.pc.Writing? || p.pc.Verifying? || Promoting(p.pc)) ==>
          p.held in fs.files && fs.files[p.held].writer == id)
    && (p.role == Publisher && p.location == Repository ==> WonBy(fs, id))
  }

  /** The external final was created by process id. */
  ghost predicate WonBy(fs: Fs, id: nat) {
    && Present(fs, External, Final)
    && fs.dir[Slot(External, Final)] in fs.files
    && fs.files[fs.dir[Slot(External, Final)]].writer == id
  }

  /** External files are written by publishers, from the canonical bytes they were started with. */
  ghost predicate Authored(s: System) {
    forall i :: i in s.fs.files && s.fs.files[i].location == External ==>
      && s.fs.files[i].writer in s.processes
      && s.processes[s.fs.files[i].writer].role == Publisher
      && s.processes[s.fs.files[i].writer].source == s.fs.files[i].goal
  }

  ghost predicate Inv(s: System) {
    && FsInv(s.fs) && Authored(s)
    && forall id :: id in s.processes ==> ProcessInv(s.fs, id, s.processes[id])
  }

  /** A file system change that disturbs no file but unfinished ones of the given writer, and no final. */
  ghost predicate Extends(fs: Fs, fs': Fs, writer: nat) {
    && FinalsKept(fs, fs')
    && (forall i :: i in fs.files ==> FileKept(fs, fs', i, writer))
  }

  ghost predicate FileKept(fs: Fs, fs': Fs, i: nat, writer: nat)
    requires i in fs.files
  {
    && i in fs'.files
    && fs'.files[i].(bytes := fs.files[i].bytes) == fs.files[i]
    && (fs.files[i].bytes == fs.files[i].goal || fs.files[i].writer != writer ==> fs'.files[i] == fs.files[i])
  }

  /** What one process knows survives the step of another. */
  lemma OtherKeepsInv(fs: Fs, fs': Fs, mover: nat, id: nat, p: Process)
    requires ProcessInv(fs, id, p) && Extends(fs, fs', mover) && id != mover
    ensures ProcessInv(fs', id, p)
  {
    if p.held in fs.files {
      assert FileKept(fs, fs', p.held, mover);
    }
    if WonBy(fs, id) {
      assert FileKept(fs, fs', fs.dir[Slot(External, Final)], mover);
    }
  }

  lemma CreateKeepsFs(fs: Fs, location: Location, inode: nat, source: Bytes, writer: nat)
    requires FsInv(fs) && !Present(fs, location, Stage) && inode !in fs.files
    requires location == Repository ==> BytesAt(fs, External, Final) == Some(source)
    ensures FsInv(CreateStage(fs, location, inode, source, writer))
    ensures Extends(fs, CreateStage(fs, location, inode, source, writer), writer)
  {
    var fs' := CreateStage(fs, location, inode, source, writer);
    forall slot | slot in fs.dir
      ensures fs.dir[slot] != inode && fs'.dir[slot] == fs.dir[slot]
    {
    }
    forall i | i in fs.files
      ensures Placed(fs', i) && fs'.files[i] == fs.files[i]
    {
      assert Placed(fs, i);
    }
    assert Holds(fs', location, Stage, inode);
    assert FinalsKept(fs, fs');
    assert EntriesInv(fs');
    assert FilesInv(fs');
  }

  lemma AppendKeepsFs(fs: Fs, inode: nat, chunk: Bytes)
    requires FsInv(fs) && inode in fs.files && chunk != []
    requires fs.files[inode].bytes + chunk <= fs.files[inode].goal
    ensures FsInv(Append(fs, inode, chunk)) && Extends(fs, Append(fs, inode, chunk), fs.files[inode].writer)
  {
    var f, fs' := fs.files[inode], Append(fs, inode, chunk);
    assert |f.bytes| < |f.goal|;
    forall i | i in fs.files
      ensures Placed(fs', i)
    {
      assert Placed(fs, i);
    }
    assert FinalsKept(fs, fs');
  }

  /** The kernel moves exactly the held, complete file. */
  lemma RenameKeepsFs(fs: Fs, p: Process)
    requires FsInv(fs) && HoldsWhole(fs, p) && CanRename(fs, p.location)
    ensures fs.dir[Slot(p.location, Stage)] == p.held
    ensures FsInv(Rename(fs, p.location)) && (forall w: nat :: Extends(fs, Rename(fs, p.location), w))
  {
    var fs' := Rename(fs, p.location);
    assert Placed(fs, p.held);
    forall i | i in fs.files
      ensures Placed(fs', i)
    {
      assert Placed(fs, i);
      assert i != p.held ==> !Holds(fs, p.location, Stage, i);
    }
    assert FinalsKept(fs, fs');
  }

  /** The next chunk continues the source, so the file still holds a prefix of it. */
  lemma ChunkContinues(fs: Fs, id: nat, p: Process, end: nat)
    requires FsInv(fs) && HoldsPart(fs, id, p) && p.offset < end <= |p.source|
    ensures var fs' := Append(fs, p.held, p.source[p.offset..end]);
      FsInv(fs') && Extends(fs, fs', id) && HoldsPart(fs', id, p.(offset := end))
  {
    assert p.source[..p.offset] + p.source[p.offset..end] == p.source[..end];
    AppendKeepsFs(fs, p.held, p.source[p.offset..end]);
  }

  /** The step of a process that writes. */
  lemma WriteStep(fs: Fs, id: nat, p: Process, c: Choice)
    requires FsInv(fs) && ProcessInv(fs, id, p) && p.pc.Writing? && p.offset < |p.source| && c.chunk != 0
    ensures var (fs', p') := Act(fs, id, p, c); FsInv(fs') && Extends(fs, fs', id) && ProcessInv(fs', id, p')
  {
    var end := if p.offset + c.chunk < |p.source| then p.offset + c.chunk else |p.source|;
    ChunkContinues(fs, id, p, end);
    var (fs', p') := Act(fs, id, p, c);
    assert fs' == Append(fs, p.held, p.source[p.offset..end]) && p' == p.(offset := end);
  }

  /** What a process knows after creating its stage. */
  lemma CreatorKnows(fs: Fs, fs': Fs, id: nat, p: Process, inode: nat)
    requires FsInv(fs) && ProcessInv(fs, id, p) && p.pc.Creating? && Extends(fs, fs', id)
    requires fs' == CreateStage(fs, p.location, inode, p.source, id)
    ensures ProcessInv(fs', id, p.(held := inode, offset := 0, pc := Writing))
  {
    var p' := p.(held := inode, offset := 0, pc := Writing);
    assert HoldsPart(fs', id, p');
    if WonBy(fs, id) {
      assert FileKept(fs, fs', fs.dir[Slot(External, Final)], id);
    }
  }

  /** A process that stops knows no less. */
  lemma StoppingKeepsInv(fs: Fs, id: nat, p: Process)
    requires ProcessInv(fs, id, p)
    ensures ProcessInv(fs, id, p.(pc := Stopped))
  {
  }

  lemma CreateAct(fs: Fs, id: nat, p: Process, c: Choice)
    requires p.pc.Creating?
    ensures Act(fs, id, p, c) ==
      if Present(fs, p.location, Stage) || c.inode in fs.files then (fs, p.(pc := Stopped))
      else (CreateStage(fs, p.location, c.inode, p.source, id), p.(held := c.inode, offset := 0, pc := Writing))
  {
  }

  /** The step of a process that creates its stage. */
  lemma CreateStep(fs: Fs, id: nat, p: Process, c: Choice)
    requires FsInv(fs) && ProcessInv(fs, id, p) && p.pc.Creating?
    ensures var (fs', p') := Act(fs, id, p, c); FsInv(fs') && Extends(fs, fs', id) && ProcessInv(fs', id, p')
  {
    CreateAct(fs, id, p, c);
    if Present(fs, p.location, Stage) || c.inode in fs.files {
      NothingExtends(fs, id);
      StoppingKeepsInv(fs, id, p);
    } else {
      CreateKeepsFs(fs, p.location, c.inode, p.source, id);
      CreatorKnows(fs, CreateStage(fs, p.location, c.inode, p.source, id), id, p, c.inode);
    }
  }

  /** The rename step. */
  lemma RenameStep(fs: Fs, id: nat, p: Process, c: Choice)
    requires FsInv(fs) && ProcessInv(fs, id, p) && p.pc.Renaming?
    ensures var (fs', p') := Act(fs, id, p, c); FsInv(fs') && Extends(fs, fs', id) && ProcessInv(fs', id, p')
  {
    if c.moved && CanRename(fs, p.location) {
      RenameKeepsFs(fs, p);
      assert FileKept(fs, Rename(fs, p.location), p.held, id);
    } else {
      NothingExtends(fs, id);
    }
  }

  lemma NothingExtends(fs: Fs, id: nat)
    ensures Extends(fs, fs, id)
  {
  }

  /** The end of writing: the whole source is in the file. */
  lemma LastChunk(fs: Fs, id: nat, p: Process, c: Choice)
    requires FsInv(fs) && ProcessInv(fs, id, p) && p.pc.Writing? && p.offset >= |p.source|
    ensures Act(fs, id, p, c).0 == fs && ProcessInv(fs, id, Act(fs, id, p, c).1)
  {
    assert p.source[..|p.source|] == p.source;
  }

  /** Reads of a process that promotes. */
  lemma PromotingRead(fs: Fs, id: nat, p: Process, c: Choice)
    requires ProcessInv(fs, id, p) && Promoting(p.pc) && !p.pc.Renaming?
    ensures Act(fs, id, p, c).0 == fs && ProcessInv(fs, id, Act(fs, id, p, c).1)
  {
  }

  lemma OpeningRead(fs: Fs, id: nat, p: Process, c: Choice)
    requires FsInv(fs) && ProcessInv(fs, id, p) && p.pc.Opening?
    ensures Act(fs, id, p, c).0 == fs && ProcessInv(fs, id, Act(fs, id, p, c).1)
  {
    if Present(fs, Repository, Stage) {
      StageOfRepository(fs);
    }
  }

  lemma StageOfRepository(fs: Fs)
    requires EntriesInv(fs) && Present(fs, Repository, Stage)
    ensures fs.dir[Slot(Repository, Stage)] in fs.files
      && fs.files[fs.dir[Slot(Repository, Stage)]].location == Repository
  {
  }

  /** A repairer that found the external bytes in the stage holds the complete file. */
  lemma OpenedRead(fs: Fs, id: nat, p: Process, c: Choice)
    requires FsInv(fs) && ProcessInv(fs, id, p) && Opened(p.pc)
    ensures Act(fs, id, p, c).0 == fs && ProcessInv(fs, id, Act(fs, id, p, c).1)
  {
    assert BytesAt(fs, External, Final) == Some(fs.files[p.held].goal);
  }

  /** Reads before a process holds anything and after it has finished. */
  lemma OtherRead(fs: Fs, id: nat, p: Process, c: Choice)
    requires ProcessInv(fs, id, p) && !Promoting(p.pc) && !Opened(p.pc)
    requires !p.pc.Creating? && !p.pc.Writing? && !p.pc.Opening?
    ensures Act(fs, id, p, c).0 == fs && ProcessInv(fs, id, Act(fs, id, p, c).1)
  {
  }

  /** Steps that only read. */
  lemma ReadStep(fs: Fs, id: nat, p: Process, c: Choice)
    requires FsInv(fs) && ProcessInv(fs, id, p) && !p.pc.Creating? && !p.pc.Renaming?
    requires p.pc.Writing? ==> p.offset >= |p.source| || c.chunk == 0
    ensures Act(fs, id, p, c).0 == fs && ProcessInv(fs, id, Act(fs, id, p, c).1)
  {
    if p.pc.Writing? {
      if p.offset >= |p.source| {
        LastChunk(fs, id, p, c);
      }
    } else if Promoting(p.pc) {
      PromotingRead(fs, id, p, c);
    } else if Opened(p.pc) {
      OpenedRead(fs, id, p, c);
    } else if p.pc.Opening? {
      OpeningRead(fs, id, p, c);
    } else {
      OtherRead(fs, id, p, c);
    }
  }

  /** Every system call keeps the invariant of the file system, of its process, and disturbs no other. */
  lemma ActKeepsInv(fs: Fs, id: nat, p: Process, c: Choice)
    requires FsInv(fs) && ProcessInv(fs, id, p)
    ensures var (fs', p') := Act(fs, id, p, c); FsInv(fs') && Extends(fs, fs', id) && ProcessInv(fs', id, p')
  {
    if p.pc.Creating? {
      CreateStep(fs, id, p, c);
    } else if p.pc.Renaming? {
      RenameStep(fs, id, p, c);
    } else if p.pc.Writing? && p.offset < |p.source| && c.chunk != 0 {
      WriteStep(fs, id, p, c);
    } else {
      ReadStep(fs, id, p, c);
      NothingExtends(fs, id);
    }
  }

  lemma NextKeepsInv(s: System, s': System)
    requires Inv(s) && Next(s, s')
    ensures Inv(s') && FinalsKept(s.fs, s'.fs)
  {
    if id, c :| CallStep(s, s', id, c) {
      CallKeepsInv(s, s', id, c);
    } else if id :| CrashStep(s, s', id) {
      CrashKeepsInv(s, s', id);
    } else {
      var id, role, source :| StartStep(s, s', id, role, source);
      StartKeepsInv(s, s', id, role, source);
    }
  }

  lemma CrashKeepsInv(s: System, s': System, id: nat)
    requires Inv(s) && CrashStep(s, s', id)
    ensures Inv(s') && FinalsKept(s.fs, s'.fs)
  {
  }

  lemma StartKeepsInv(s: System, s': System, id: nat, role: Role, source: Bytes)
    requires Inv(s) && StartStep(s, s', id, role, source)
    ensures Inv(s') && FinalsKept(s.fs, s'.fs)
  {
  }

  lemma CallKeepsInv(s: System, s': System, id: nat, c: Choice)
    requires Inv(s) && CallStep(s, s', id, c)
    ensures Inv(s') && FinalsKept(s.fs, s'.fs)
  {
    ActKeepsInv(s.fs, id, s.processes[id], c);
    forall other | other in s.processes && other != id
      ensures ProcessInv(s'.fs, other, s.processes[other])
    {
      OtherKeepsInv(s.fs, s'.fs, id, other, s.processes[other]);
    }
    CallKeepsAuthors(s, s', id, c);
  }

  lemma CallKeepsAuthors(s: System, s': System, id: nat, c: Choice)
    requires Inv(s) && CallStep(s, s', id, c)
    ensures Authored(s')
  {
    var p := s.processes[id];
    ActKeepsRole(s.fs, id, p, c);
    forall i | i in s'.fs.files && s'.fs.files[i].location == External
      ensures s'.fs.files[i].writer in s'.processes
      ensures s'.processes[s'.fs.files[i].writer].role == Publisher
      ensures s'.processes[s'.fs.files[i].writer].source == s'.fs.files[i].goal
    {
      ActCreates(s.fs, id, p, c, i);
    }
  }

  /** A file after a step is an old file of the same author, or was just created by the acting process. */
  lemma ActCreates(fs: Fs, id: nat, p: Process, c: Choice, i: nat)
    requires i in Act(fs, id, p, c).0.files
    ensures var f := Act(fs, id, p, c).0.files[i];
      if i in fs.files then f.(bytes := fs.files[i].bytes) == fs.files[i]
      else f.writer == id && f.goal == p.source && f.location == p.location && p.pc.Creating?
  {
  }

  /** A process keeps its role, and a publisher its bytes. */
  lemma ActKeepsRole(fs: Fs, id: nat, p: Process, c: Choice)
    requires ProcessInv(fs, id, p)
    ensures var p' := Act(fs, id, p, c).1; p'.role == p.role && (p.role == Publisher ==> p'.source == p.source)
  {
  }

  lemma {:induction false} RunKeepsInv(run: seq<System>, i: nat)
    requires IsRun(run) && i < |run|
    ensures Inv(run[i])
  {
    if i == 0 {
    } else {
      RunKeepsInv(run, i - 1);
      assert Next(run[i - 1], run[(i - 1) + 1]);
      NextKeepsInv(run[i - 1], run[i]);
    }
  }

  // ----- Safety over whole runs -----

  lemma FinalsKeptTransitive(a: Fs, b: Fs, c: Fs)
    requires FinalsKept(a, b) && FinalsKept(b, c)
    ensures FinalsKept(a, c)
  {
    forall location | Present(a, location, Final)
      ensures Present(c, location, Final) && c.dir[Slot(location, Final)] == a.dir[Slot(location, Final)]
      ensures BytesAt(c, location, Final) == BytesAt(a, location, Final)
    {
      assert Present(b, location, Final);
    }
  }

  lemma RunStep(run: seq<System>, i: nat)
    requires IsRun(run) && i + 1 < |run|
    ensures FinalsKept(run[i].fs, run[i + 1].fs)
  {
    RunKeepsInv(run, i);
    NextKeepsInv(run[i], run[i + 1]);
  }

  lemma {:induction false} KeptAlong(run: seq<System>, i: nat, j: nat)
    requires i <= j < |run| && (forall k :: i <= k < j ==> FinalsKept(run[k].fs, run[k + 1].fs))
    ensures FinalsKept(run[i].fs, run[j].fs)
    decreases j - i
  {
    if i >= j {
    } else {
      KeptAlong(run, i, j - 1);
      assert FinalsKept(run[j - 1].fs, run[(j - 1) + 1].fs);
      FinalsKeptTransitive(run[i].fs, run[j - 1].fs, run[j].fs);
    }
  }

  /** No final is ever replaced, removed or altered, whatever is interleaved and wherever processes crash. */
  lemma FinalsNeverReplaced(run: seq<System>, i: nat, j: nat)
    requires IsRun(run) && i <= j < |run|
    ensures FinalsKept(run[i].fs, run[j].fs)
  {
    forall k | i <= k < j
      ensures FinalsKept(run[k].fs, run[k + 1].fs)
    {
      RunStep(run, k);
    }
    KeptAlong(run, i, j);
  }

  /** No final is ever seen half-written, and a repository final always has an external final with identical bytes. */
  lemma FinalsWholeAndPaired(run: seq<System>, i: nat)
    requires IsRun(run) && i < |run|
    ensures WholeFinal(run[i].fs, External) && WholeFinal(run[i].fs, Repository)
    ensures Present(run[i].fs, Repository, Final) ==>
      Present(run[i].fs, External, Final)
      && BytesAt(run[i].fs, Repository, Final).Some?
      && BytesAt(run[i].fs, Repository, Final) == BytesAt(run[i].fs, External, Final)
  {
    RunKeepsInv(run, i);
  }

  /** A process that reports success has both finals in place with its bytes, then and ever after. */
  lemma SuccessIsPermanent(run: seq<System>, i: nat, j: nat, id: nat)
    requires IsRun(run) && i <= j < |run| && id in run[i].processes && run[i].processes[id].pc == Done
    ensures BytesAt(run[j].fs, External, Final) == Some(run[i].processes[id].source)
    ensures BytesAt(run[j].fs, Repository, Final) == Some(run[i].processes[id].source)
  {
    RunKeepsInv(run, i);
    FinalsNeverReplaced(run, i, j);
  }

  /** The external final holds exactly the bytes one publisher was started with, and that publisher created it. */
  lemma ExternalFinalAuthored(run: seq<System>, i: nat) returns (author: nat)
    requires IsRun(run) && i < |run| && Present(run[i].fs, External, Final)
    ensures author in run[i].processes && run[i].processes[author].role == Publisher
    ensures WonBy(run[i].fs, author) && BytesAt(run[i].fs, External, Final) == Some(run[i].processes[author].source)
  {
    RunKeepsInv(run, i);
    author := run[i].fs.files[run[i].fs.dir[Slot(External, Final)]].writer;
  }

  /** At most one publisher ever gets past the external location. */
  lemma OnePublisherWins(run: seq<System>, i: nat, a: nat, b: nat)
    requires IsRun(run) && i < |run| && a in run[i].processes && b in run[i].processes
    requires run[i].processes[a].role == Publisher && run[i].processes[a].location == Repository
    requires run[i].processes[b].role == Publisher && run[i].processes[b].location == Repository
    ensures a == b
  {
    RunKeepsInv(run, i);
    assert ProcessInv(run[i].fs, a, run[i].processes[a]) && ProcessInv(run[i].fs, b, run[i].processes[b]);
  }
}
