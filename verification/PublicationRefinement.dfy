/** The publisher run alone takes one of the paths of the interleaved protocol. */
module PublicationRefinement {
  import opened Basics
  import opened PublicationFs
  import opened PublicationProtocol
  import Alone = PublicationRepair

  /** The result of a sequence of system calls of one process, undisturbed. */
  function Exec(fs: Fs, id: nat, p: Process, choices: seq<Choice>): (Fs, Process)
    decreases |choices|
  {
    if choices == [] then (fs, p)
    else
      var (fs', p') := Act(fs, id, p, choices[0]);
      Exec(fs', id, p', choices[1..])
  }

  ghost predicate Reaches(fs: Fs, id: nat, p: Process, fs': Fs, p': Process) {
    exists choices :: Exec(fs, id, p, choices) == (fs', p')
  }

  lemma {:induction false} ExecMore(fs: Fs, id: nat, p: Process, choices: seq<Choice>, c: Choice)
    ensures Exec(fs, id, p, choices + [c]) ==
      (var (fs', p') := Exec(fs, id, p, choices); Act(fs', id, p', c))
    decreases |choices|
  {
    if choices == [] {
      assert (choices + [c])[1..] == [];
    } else {
      var (fs', p') := Act(fs, id, p, choices[0]);
      ExecMore(fs', id, p', choices[1..], c);
      assert (choices + [c])[1..] == choices[1..] + [c];
    }
  }

  lemma {:induction false} ExecJoined(fs: Fs, id: nat, p: Process, first: seq<Choice>, second: seq<Choice>)
    ensures Exec(fs, id, p, first + second) ==
      (var (fs', p') := Exec(fs, id, p, first); Exec(fs', id, p', second))
    decreases |first|
  {
    if first == [] {
      assert first + second == second;
    } else {
      var (fs', p') := Act(fs, id, p, first[0]);
      ExecJoined(fs', id, p', first[1..], second);
      assert (first + second)[1..] == first[1..] + second;
    }
  }

  lemma ReachesOn(fs: Fs, id: nat, p: Process, fs1: Fs, p1: Process, fs2: Fs, p2: Process)
    requires Reaches(fs, id, p, fs1, p1) && Reaches(fs1, id, p1, fs2, p2)
    ensures Reaches(fs, id, p, fs2, p2)
  {
    var first :| Exec(fs, id, p, first) == (fs1, p1);
    var second :| Exec(fs1, id, p1, second) == (fs2, p2);
    ExecJoined(fs, id, p, first, second);
    assert Exec(fs, id, p, first + second) == (fs2, p2);
  }

  lemma ReachesItself(fs: Fs, id: nat, p: Process)
    ensures Reaches(fs, id, p, fs, p)
  {
    assert Exec(fs, id, p, []) == (fs, p);
  }

  /** One more system call. */
  lemma ReachesNext(fs: Fs, id: nat, p: Process, fs1: Fs, p1: Process, c: Choice, fs2: Fs, p2: Process)
    requires Reaches(fs, id, p, fs1, p1) && Act(fs1, id, p1, c) == (fs2, p2)
    ensures Reaches(fs, id, p, fs2, p2)
  {
    var choices :| Exec(fs, id, p, choices) == (fs1, p1);
    ExecMore(fs, id, p, choices, c);
    assert Exec(fs, id, p, choices + [c]) == (fs2, p2);
  }

  /** The choice a kernel makes at a write offset, and at the other calls. */
  function ChoiceOf(kernel: Alone.Kernel, offset: nat): Choice {
    Choice(if kernel.wrote(offset) > 0 then kernel.wrote(offset) else 0, kernel.inode, kernel.moves, true)
  }

  /** The file system while a publisher with id 0 writes its stage. */
  function Staging(fs: Fs, location: Location, kernel: Alone.Kernel, source: Bytes, offset: nat): Fs
    requires offset <= |source|
  {
    Alone.AfterPublish(fs, location, kernel.inode, source[..offset], source, false)
  }

  function Writer(p: Process, kernel: Alone.Kernel, offset: nat): Process {
    p.(held := kernel.inode, offset := offset, pc := Writing)
  }

  /** A publisher at an empty location gets to writing. */
  lemma StartsWriting(fs: Fs, p: Process, kernel: Alone.Kernel)
    requires p.pc == CheckFinal && !Alone.Occupied(fs, p.location) && kernel.inode !in fs.files
    ensures Reaches(fs, 0, p, Staging(fs, p.location, kernel, p.source, 0), Writer(p, kernel, 0))
  {
    var c := ChoiceOf(kernel, 0);
    ReachesItself(fs, 0, p);
    ReachesNext(fs, 0, p, fs, p, c, fs, p.(pc := CheckStage));
    ReachesNext(fs, 0, p, fs, p.(pc := CheckStage), c, fs, p.(pc := Creating));
    assert p.source[..0] == [];
    ReachesNext(fs, 0, p, fs, p.(pc := Creating), c, Staging(fs, p.location, kernel, p.source, 0),
                Writer(p, kernel, 0));
  }

  /** One write of the publisher is one writing step of the protocol. */
  lemma OneWrite(fs: Fs, p: Process, kernel: Alone.Kernel, offset: nat)
    requires offset < |p.source| && 0 < kernel.wrote(offset) <= |p.source| - offset
    ensures Act(Staging(fs, p.location, kernel, p.source, offset), 0, Writer(p, kernel, offset),
                ChoiceOf(kernel, offset))
      == (Staging(fs, p.location, kernel, p.source, offset + kernel.wrote(offset)),
          Writer(p, kernel, offset + kernel.wrote(offset)))
  {
    var end := offset + kernel.wrote(offset);
    var here, next := Staging(fs, p.location, kernel, p.source, offset), Staging(fs, p.location, kernel, p.source, end);
    var written := Append(here, kernel.inode, p.source[offset..end]);
    assert p.source[..offset] + p.source[offset..end] == p.source[..end];
    assert written.files == next.files && written.dir == next.dir;
    assert Act(here, 0, Writer(p, kernel, offset), ChoiceOf(kernel, offset)) ==
      (written, Writer(p, kernel, offset).(offset := end));
  }

  /** Writing goes as far as the writes get: to the whole source, or to a stop at a proper prefix. */
  lemma {:induction false} WritesOn(fs0: Fs, p0: Process, fs: Fs, p: Process, kernel: Alone.Kernel, offset: nat)
    requires offset <= |p.source| && Alone.WritesWithin(kernel.wrote, |p.source|)
    requires Reaches(fs0, 0, p0, Staging(fs, p.location, kernel, p.source, offset), Writer(p, kernel, offset))
    ensures var end := Alone.Written(kernel.wrote, offset, |p.source|);
      Reaches(fs0, 0, p0, Staging(fs, p.location, kernel, p.source, end),
              if end == |p.source| then Writer(p, kernel, end) else Writer(p, kernel, end).(pc := Stopped))
    decreases |p.source| - offset
  {
    if offset >= |p.source| {
    } else {
      var here, writer := Staging(fs, p.location, kernel, p.source, offset), Writer(p, kernel, offset);
      if kernel.wrote(offset) <= 0 {
        ReachesNext(fs0, 0, p0, here, writer, ChoiceOf(kernel, offset), here, writer.(pc := Stopped));
      } else {
        var next := offset + kernel.wrote(offset);
        OneWrite(fs, p, kernel, offset);
        ReachesNext(fs0, 0, p0, here, writer, ChoiceOf(kernel, offset),
                    Staging(fs, p.location, kernel, p.source, next), Writer(p, kernel, next));
        WritesOn(fs0, p0, fs, p, kernel, next);
      }
    }
  }

  /** Where a process goes after it has published at its location. */
  function Onward(w: Process): Process {
    if w.location == External then w.(location := Repository, pc := CheckFinal) else w.(pc := Confirming([]))
  }

  /** A held stage with exactly the source, at a location without a final. */
  ghost predicate HoldsStage(fs: Fs, w: Process) {
    && Holds(fs, w.location, Stage, w.held) && !Present(fs, w.location, Final)
    && w.held in fs.files && fs.files[w.held].bytes == w.source
  }

  function AfterKernel(fs: Fs, location: Location, kernel: Alone.Kernel): Fs {
    if kernel.moves && CanRename(fs, location) then Rename(fs, location) else fs
  }

  /** From the first look before promotion to the kernel's answer. */
  lemma AsksKernel(fs0: Fs, p0: Process, fs: Fs, w: Process, kernel: Alone.Kernel)
    requires Reaches(fs0, 0, p0, fs, w) && w.pc == StatStage && HoldsStage(fs, w)
    ensures Reaches(fs0, 0, p0, AfterKernel(fs, w.location, kernel), w.(pc := LookStage))
  {
    var c := ChoiceOf(kernel, 0);
    ReachesNext(fs0, 0, p0, fs, w, c, fs, w.(pc := StatFinal));
    ReachesNext(fs0, 0, p0, fs, w.(pc := StatFinal), c, fs, w.(pc := Renaming));
    ReachesNext(fs0, 0, p0, fs, w.(pc := Renaming), c, AfterKernel(fs, w.location, kernel), w.(pc := LookStage));
  }

  /** What the process finds after the kernel moved its stage. */
  ghost predicate AtFinal(fs: Fs, w: Process) {
    !Present(fs, w.location, Stage) && Holds(fs, w.location, Final, w.held)
      && BytesAt(fs, w.location, Final) == Some(w.source)
  }

  lemma MovedIsAtFinal(fs: Fs, w: Process)
    requires HoldsStage(fs, w)
    ensures CanRename(fs, w.location) && AtFinal(Rename(fs, w.location), w)
  {
  }

  lemma LooksAfterMove(fs0: Fs, p0: Process, fs: Fs, w: Process, c: Choice)
    requires AtFinal(fs, w) && Reaches(fs0, 0, p0, fs, w.(pc := LookStage))
    ensures Reaches(fs0, 0, p0, fs, Onward(w))
  {
    ReachesNext(fs0, 0, p0, fs, w.(pc := LookStage), c, fs, w.(pc := LookFinal(true)));
    ReachesNext(fs0, 0, p0, fs, w.(pc := LookFinal(true)), c, fs, w.(pc := Rereading));
    RereadsAfterMove(fs0, p0, fs, w, c);
  }

  lemma RereadsAfterMove(fs0: Fs, p0: Process, fs: Fs, w: Process, c: Choice)
    requires AtFinal(fs, w) && Reaches(fs0, 0, p0, fs, w.(pc := Rereading))
    ensures Reaches(fs0, 0, p0, fs, Onward(w))
  {
    ReachesNext(fs0, 0, p0, fs, w.(pc := Rereading), c, fs, w.(pc := LookStageAgain));
    ReachesNext(fs0, 0, p0, fs, w.(pc := LookStageAgain), c, fs, w.(pc := LookFinalAgain(true)));
    ReachesNext(fs0, 0, p0, fs, w.(pc := LookFinalAgain(true)), c, fs, Onward(w));
  }

  lemma LooksAfterRefusal(fs0: Fs, p0: Process, fs: Fs, w: Process, c: Choice)
    requires HoldsStage(fs, w) && Reaches(fs0, 0, p0, fs, w.(pc := LookStage))
    ensures Reaches(fs0, 0, p0, fs, w.(pc := Stopped))
  {
    ReachesNext(fs0, 0, p0, fs, w.(pc := LookStage), c, fs, w.(pc := LookFinal(false)));
    ReachesNext(fs0, 0, p0, fs, w.(pc := LookFinal(false)), c, fs, w.(pc := Stopped));
  }

  /** From the kernel's answer to the next location, or to a stop. */
  lemma LooksAround(fs0: Fs, p0: Process, fs: Fs, w: Process, kernel: Alone.Kernel)
    requires HoldsStage(fs, w) && Reaches(fs0, 0, p0, AfterKernel(fs, w.location, kernel), w.(pc := LookStage))
    ensures Reaches(fs0, 0, p0, AfterKernel(fs, w.location, kernel),
                    if kernel.moves then Onward(w) else w.(pc := Stopped))
  {
    MovedIsAtFinal(fs, w);
    if kernel.moves {
      LooksAfterMove(fs0, p0, AfterKernel(fs, w.location, kernel), w, ChoiceOf(kernel, 0));
    } else {
      LooksAfterRefusal(fs0, p0, fs, w, ChoiceOf(kernel, 0));
    }
  }

  /** The process after the publication of one file: at its next location, or stopped. */
  ghost function AfterFile(p: Process, kernel: Alone.Kernel): Process
    requires Alone.WritesWithin(kernel.wrote, |p.source|)
  {
    var w := Writer(p, kernel, Alone.Written(kernel.wrote, 0, |p.source|));
    if Alone.Publishes(p.source, kernel) then Onward(w) else w.(pc := Stopped)
  }

  /**
   The publication of one file, as it runs alone, is a path of the protocol: the file system it leaves is one
   that the interleaved process reaches, going on exactly when the publication succeeds.
   */
  lemma PublishFileIsAPath(fs: Fs, p: Process, kernel: Alone.Kernel)
    requires p.pc == CheckFinal && !Alone.Occupied(fs, p.location) && kernel.inode !in fs.files
    requires Alone.WritesWithin(kernel.wrote, |p.source|)
    ensures Reaches(fs, 0, p, Alone.AfterFile(fs, p.location, p.source, kernel), AfterFile(p, kernel))
  {
    var size := Alone.Written(kernel.wrote, 0, |p.source|);
    StartsWriting(fs, p, kernel);
    WritesOn(fs, p, fs, p, kernel, 0);
    if size == |p.source| {
      WholeStage(fs, p, kernel);
      PromotesWhole(fs, p, Staging(fs, p.location, kernel, p.source, size), Writer(p, kernel, size), kernel);
    }
  }

  /** What a fully written stage is, and what the kernel makes of it. */
  lemma WholeStage(fs: Fs, p: Process, kernel: Alone.Kernel)
    requires !Alone.Occupied(fs, p.location) && Alone.WritesWithin(kernel.wrote, |p.source|)
    requires Alone.Progresses(kernel.wrote, 0, |p.source|)
    ensures var whole := Staging(fs, p.location, kernel, p.source, |p.source|);
      && HoldsStage(whole, Writer(p, kernel, |p.source|))
      && AfterKernel(whole, p.location, kernel) == Alone.AfterFile(fs, p.location, p.source, kernel)
  {
    assert p.source[..|p.source|] == p.source;
  }

  /** From the last write to the next location, or to a stop. */
  lemma PromotesWhole(fs0: Fs, p0: Process, fs: Fs, w: Process, kernel: Alone.Kernel)
    requires Reaches(fs0, 0, p0, fs, w) && w.pc == Writing && w.offset >= |w.source| && HoldsStage(fs, w)
    ensures Reaches(fs0, 0, p0, AfterKernel(fs, w.location, kernel),
                    if kernel.moves then Onward(w) else w.(pc := Stopped))
  {
    ReachesNext(fs0, 0, p0, fs, w, ChoiceOf(kernel, 0), fs, w.(pc := Verifying));
    ReachesNext(fs0, 0, p0, fs, w.(pc := Verifying), ChoiceOf(kernel, 0), fs, w.(pc := StatStage));
    AsksKernel(fs0, p0, fs, w.(pc := StatStage), kernel);
    assert w.(pc := StatStage).(pc := LookStage) == w.(pc := LookStage);
    LooksAround(fs0, p0, fs, w, kernel);
  }

  /** The promotion of a stage that is already there, as it runs alone, is a path of the protocol too. */
  lemma PromoteExistingIsAPath(fs: Fs, p: Process, kernel: Alone.Kernel)
    requires p.pc == CheckBeforeOpen && p.location == Repository
    requires CanRename(fs, Repository) && BytesAt(fs, Repository, Stage) == Some(p.source)
    ensures var w := p.(held := fs.dir[Slot(Repository, Stage)]);
      Reaches(fs, 0, p, if kernel.moves then Rename(fs, Repository) else fs,
              if kernel.moves then Onward(w) else w.(pc := Stopped))
  {
    var c := ChoiceOf(kernel, 0);
    var w := p.(held := fs.dir[Slot(Repository, Stage)]);
    ReachesItself(fs, 0, p);
    ReachesNext(fs, 0, p, fs, p, c, fs, p.(pc := Opening));
    ReachesNext(fs, 0, p, fs, p.(pc := Opening), c, fs, w.(pc := LiveStat));
    ReachesNext(fs, 0, p, fs, w.(pc := LiveStat), c, fs, w.(pc := Comparing));
    ReachesNext(fs, 0, p, fs, w.(pc := Comparing), c, fs, w.(pc := StatStage));
    AsksKernel(fs, p, fs, w.(pc := StatStage), kernel);
    assert w.(pc := StatStage).(pc := LookStage) == w.(pc := LookStage);
    LooksAround(fs, p, fs, w, kernel);
  }

  // ----- Whole calls -----

  /** The four entries as one process reads them when nothing changes in between. */
  function Bits(fs: Fs): seq<bool> {
    [Present(fs, External, Final), Present(fs, External, Stage), Present(fs, Repository, Final),
     Present(fs, Repository, Stage)]
  }

  /** One more entry is read, at the start or at the end. */
  lemma SeesNext(fs0: Fs, id: nat, p0: Process, fs: Fs, p: Process, k: nat)
    requires k < 4
    requires p.pc == Observing(Bits(fs)[..k]) || p.pc == Confirming(Bits(fs)[..k])
    requires Reaches(fs0, id, p0, fs, p)
    ensures var seen := Bits(fs)[..k + 1];
      Reaches(fs0, id, p0, fs, p.(pc := if p.pc.Observing? then Observing(seen) else Confirming(seen)))
  {
    var seen := Bits(fs)[..k] + [ObservedSlot(k) in fs.dir];
    assert seen == Bits(fs)[..k + 1];
    var c := Choice(0, 0, false, true);
    ReachesNext(fs0, id, p0, fs, p, c, fs, p.(pc := if p.pc.Observing? then Observing(seen) else Confirming(seen)));
  }

  /** A process reads the pair state. */
  lemma SeesAll(fs0: Fs, id: nat, p0: Process, fs: Fs, p: Process)
    requires p.pc == Observing([]) || p.pc == Confirming([])
    requires Reaches(fs0, id, p0, fs, p)
    ensures Reaches(fs0, id, p0, fs, p.(pc := if p.pc.Observing? then Observing(Bits(fs)) else Confirming(Bits(fs))))
  {
    var bits := Bits(fs);
    SeesFrom(fs0, id, p0, fs, p, 0);
    assert bits[..0] == [] && bits[..4] == bits;
  }

  lemma {:induction false} SeesFrom(fs0: Fs, id: nat, p0: Process, fs: Fs, p: Process, k: nat)
    requires k <= 4
    requires p.pc == Observing(Bits(fs)[..k]) || p.pc == Confirming(Bits(fs)[..k])
    requires Reaches(fs0, id, p0, fs, p)
    ensures var seen := Bits(fs)[..4];
      Reaches(fs0, id, p0, fs, p.(pc := if p.pc.Observing? then Observing(seen) else Confirming(seen)))
    decreases 4 - k
  {
    if k == 4 {
      assert p == p.(pc := p.pc);
    } else {
      var seen := Bits(fs)[..k + 1];
      SeesNext(fs0, id, p0, fs, p, k);
      SeesFrom(fs0, id, p0, fs, p.(pc := if p.pc.Observing? then Observing(seen) else Confirming(seen)), k + 1);
    }
  }

  /** At the start a process reads the four entries and decides by the pair state. */
  lemma DecidesByState(fs: Fs, id: nat, p: Process)
    requires p.pc == Observing([])
    ensures Reaches(fs, id, p, fs, AfterObserving(p.(pc := Observing(Bits(fs))), Bits(fs)))
    ensures Classified(Bits(fs)) == StateOf(fs)
  {
    var seen := p.(pc := Observing(Bits(fs)));
    ReachesItself(fs, id, p);
    SeesAll(fs, id, p, fs, p);
    ReachesNext(fs, id, p, fs, seen, Choice(0, 0, false, true), fs, AfterObserving(seen, Bits(fs)));
  }

  /** At the end it reads them again, and both finals. */
  lemma ConfirmsPair(fs0: Fs, id: nat, p0: Process, fs: Fs, p: Process)
    requires Reaches(fs0, id, p0, fs, p) && p.pc == Confirming([]) && StateOf(fs) == Complete
    requires BytesAt(fs, External, Final) == BytesAt(fs, Repository, Final) == Some(p.source)
    ensures Reaches(fs0, id, p0, fs, p.(pc := Done))
  {
    SeesAll(fs0, id, p0, fs, p);
    ReachesNext(fs0, id, p0, fs, p.(pc := Confirming(Bits(fs))), Choice(0, 0, false, true),
                fs, p.(pc := ReloadRepository));
    ReloadsFinals(fs0, id, p0, fs, p);
  }

  lemma ReloadsFinals(fs0: Fs, id: nat, p0: Process, fs: Fs, p: Process)
    requires Reaches(fs0, id, p0, fs, p.(pc := ReloadRepository))
    requires BytesAt(fs, External, Final) == BytesAt(fs, Repository, Final) == Some(p.source)
    ensures Reaches(fs0, id, p0, fs, p.(pc := Done))
  {
    var c := Choice(0, 0, false, true);
    ReachesNext(fs0, id, p0, fs, p.(pc := ReloadRepository), c, fs, p.(pc := ReloadExternal));
    ReachesNext(fs0, id, p0, fs, p.(pc := ReloadExternal), c, fs, p.(pc := Done));
  }

  /** The file system is one that the process reaches, where it is done or has stopped. */
  ghost predicate EndsAt(fs: Fs, p: Process, after: Fs, done: bool) {
    exists w :: Reaches(fs, 0, p, after, w) && w.pc == if done then Done else Stopped
  }

  lemma ExternalPublished(fs: Fs, source: Bytes, kernel: Alone.Kernel)
    requires StateOf(fs) == Absent && Alone.WritesWithin(kernel.wrote, |source|) && Alone.Publishes(source, kernel)
    ensures var fs1 := Alone.AfterFile(fs, External, source, kernel);
      StateOf(fs1) == ExternalOnly && BytesAt(fs1, External, Final) == Some(source)
  {
    assert source[..|source|] == source;
  }

  /** The step in which a check refuses what it is given. */
  const REFUSED := Choice(0, 0, false, false)

  /**
   A whole publication, as it runs alone, is a path of the protocol, which ends done exactly when it succeeds:
   for any bytes, any state of the files, and anything the kernel decides.
   */
  lemma PublishPairIsAPath(fs: Fs, source: Bytes, checks: Alone.Checks, external: Alone.Kernel,
                           repository: Alone.Kernel)
    requires external.inode !in fs.files && repository.inode !in fs.files && external.inode != repository.inode
    requires Alone.WritesWithin(external.wrote, |source|) && Alone.WritesWithin(repository.wrote, |source|)
    ensures EndsAt(fs, Started(Publisher, source),
                   if Alone.Canonical(source, checks) then Alone.AfterPair(fs, source, external, repository) else fs,
                   && StateOf(fs) == Absent && Alone.Canonical(source, checks)
                   && Alone.Publishes(source, external) && Alone.Publishes(source, repository))
  {
    if Alone.Canonical(source, checks) {
      CanonicalPairPath(fs, source, external, repository);
    } else {
      var p0 := Started(Publisher, source);
      DecidesByState(fs, 0, p0);
      if StateOf(fs) == Absent {
        ReachesNext(fs, 0, p0, fs, p0.(pc := CheckFinal), REFUSED, fs, p0.(pc := Stopped));
      }
    }
  }

  /** The publication of canonical bytes. */
  lemma CanonicalPairPath(fs: Fs, source: Bytes, external: Alone.Kernel, repository: Alone.Kernel)
    requires external.inode !in fs.files && repository.inode !in fs.files && external.inode != repository.inode
    requires Alone.WritesWithin(external.wrote, |source|) && Alone.WritesWithin(repository.wrote, |source|)
    ensures EndsAt(fs, Started(Publisher, source), Alone.AfterPair(fs, source, external, repository),
                   StateOf(fs) == Absent && Alone.Publishes(source, external) && Alone.Publishes(source, repository))
  {
    var p0 := Started(Publisher, source);
    DecidesByState(fs, 0, p0);
    if StateOf(fs) == Absent {
      var p := p0.(pc := CheckFinal);
      PublishFileIsAPath(fs, p, external);
      var fs1, p1 := Alone.AfterFile(fs, External, source, external), AfterFile(p, external);
      ReachesOn(fs, 0, p0, fs, p, fs1, p1);
      if Alone.Publishes(source, external) {
        ExternalPublished(fs, source, external);
        SecondFile(fs, p0, fs1, p1, source, repository);
      }
    }
  }

  /** From the external final to the end of the publication. */
  lemma SecondFile(fs0: Fs, p0: Process, fs: Fs, p: Process, source: Bytes, kernel: Alone.Kernel)
    requires Reaches(fs0, 0, p0, fs, p) && p.pc == CheckFinal && p.location == Repository && p.source == source
    requires StateOf(fs) == ExternalOnly && BytesAt(fs, External, Final) == Some(source)
    requires kernel.inode !in fs.files && Alone.WritesWithin(kernel.wrote, |source|)
    ensures EndsAt(fs0, p0, Alone.AfterFile(fs, Repository, source, kernel), Alone.Publishes(source, kernel))
  {
    PublishFileIsAPath(fs, p, kernel);
    var fs2, p2 := Alone.AfterFile(fs, Repository, source, kernel), AfterFile(p, kernel);
    ReachesOn(fs0, 0, p0, fs, p, fs2, p2);
    if Alone.Publishes(source, kernel) {
      assert source[..|source|] == source;
      ConfirmsPair(fs0, 0, p0, fs2, p2);
    }
  }

  /** The promotion of an existing stage, to the end of the repair. */
  lemma PromotesStage(fs0: Fs, p0: Process, fs: Fs, p: Process, kernel: Alone.Kernel)
    requires Reaches(fs0, 0, p0, fs, p) && p.pc == CheckBeforeOpen && p.location == Repository
    requires StateOf(fs) == ExternalPlusRepositoryStage
    requires BytesAt(fs, Repository, Stage) == BytesAt(fs, External, Final) == Some(p.source)
    ensures EndsAt(fs0, p0, if kernel.moves then Rename(fs, Repository) else fs, kernel.moves)
  {
    var w := p.(held := fs.dir[Slot(Repository, Stage)]);
    PromoteExistingIsAPath(fs, p, kernel);
    if kernel.moves {
      ReachesOn(fs0, 0, p0, fs, p, Rename(fs, Repository), Onward(w));
      ConfirmsPair(fs0, 0, p0, Rename(fs, Repository), Onward(w));
    } else {
      ReachesOn(fs0, 0, p0, fs, p, fs, w.(pc := Stopped));
    }
  }

  /** The repair of a repairable state. */
  lemma RepairablePath(fs: Fs, checks: Alone.Checks, private: bool, kernel: Alone.Kernel, source: Bytes)
    requires Alone.Repairable(fs, checks, private) && kernel.inode !in fs.files
    requires Alone.WritesWithin(kernel.wrote, |BytesAt(fs, External, Final).value|)
    ensures EndsAt(fs, Started(Repairer, source), Alone.AfterRepair(fs, kernel),
                   kernel.moves && Alone.WritesThrough(fs, kernel))
  {
    var p0 := Started(Repairer, source);
    var stageSeen := StateOf(fs) == ExternalPlusRepositoryStage;
    DecidesByState(fs, 0, p0);
    var loaded := BytesAt(fs, External, Final).value;
    var p := p0.(source := loaded, pc := if stageSeen then CheckBeforeOpen else CheckFinal);
    ReachesNext(fs, 0, p0, fs, p0.(pc := Loading(stageSeen)), Choice(0, 0, false, true), fs, p);
    if stageSeen {
      PromotesStage(fs, p0, fs, p, kernel);
    } else {
      SecondFile(fs, p0, fs, p, loaded, kernel);
    }
  }

  /** In any other state a repairer that nobody disturbs stops where the state is read. */
  lemma RefusedRepairStops(fs: Fs, source: Bytes)
    requires StateOf(fs) != ExternalOnly && StateOf(fs) != ExternalPlusRepositoryStage
    ensures EndsAt(fs, Started(Repairer, source), fs, false)
  {
    DecidesByState(fs, 0, Started(Repairer, source));
  }

  /** A record that is missing or not accepted stops the repair where it is loaded. */
  lemma UnreadableRecordStops(fs: Fs, source: Bytes)
    requires StateOf(fs) == ExternalOnly || StateOf(fs) == ExternalPlusRepositoryStage
    ensures EndsAt(fs, Started(Repairer, source), fs, false)
  {
    var p0 := Started(Repairer, source);
    var loading := p0.(pc := Loading(StateOf(fs) == ExternalPlusRepositoryStage));
    DecidesByState(fs, 0, p0);
    ReachesNext(fs, 0, p0, fs, loading, REFUSED, fs, p0.(pc := Stopped));
  }

  /** A stage that is not private, or differs from the external record, stops it where the stage is opened or read. */
  lemma ForeignStageStops(fs: Fs, private: bool, source: Bytes)
    requires StateOf(fs) == ExternalPlusRepositoryStage
    requires BytesAt(fs, External, Final).Some? && BytesAt(fs, External, Final).value != []
    requires !private || BytesAt(fs, Repository, Stage) != BytesAt(fs, External, Final)
    ensures EndsAt(fs, Started(Repairer, source), fs, false)
  {
    var p0, c := Started(Repairer, source), Choice(0, 0, false, true);
    DecidesByState(fs, 0, p0);
    var p := p0.(source := BytesAt(fs, External, Final).value, pc := CheckBeforeOpen);
    var w := p.(held := fs.dir[Slot(Repository, Stage)]);
    ReachesNext(fs, 0, p0, fs, p0.(pc := Loading(true)), c, fs, p);
    ReachesNext(fs, 0, p0, fs, p, c, fs, p.(pc := Opening));
    ReachesNext(fs, 0, p0, fs, p.(pc := Opening), c, fs, w.(pc := LiveStat));
    if private {
      ReachesNext(fs, 0, p0, fs, w.(pc := LiveStat), c, fs, w.(pc := Comparing));
      ReachesNext(fs, 0, p0, fs, w.(pc := Comparing), c, fs, w.(pc := Stopped));
    } else {
      ReachesNext(fs, 0, p0, fs, w.(pc := LiveStat), REFUSED, fs, w.(pc := Stopped));
    }
  }

  /**
   A whole repair, as it runs alone, is a path of the protocol, which ends done exactly when it succeeds: in any state
   of the files, whatever the checks say and the kernel decides. The bytes a repairer starts with play no part:
   it takes those of the external final.
   */
  lemma RepairIsAPath(fs: Fs, checks: Alone.Checks, private: bool, kernel: Alone.Kernel, source: Bytes)
    requires kernel.inode !in fs.files
    requires Alone.ValidRecord(fs, checks) ==> Alone.WritesWithin(kernel.wrote, |BytesAt(fs, External, Final).value|)
    ensures EndsAt(fs, Started(Repairer, source),
                   if Alone.Repairable(fs, checks, private) then Alone.AfterRepair(fs, kernel) else fs,
                   Alone.Repairable(fs, checks, private) && kernel.moves && Alone.WritesThrough(fs, kernel))
  {
    if Alone.Repairable(fs, checks, private) {
      RepairablePath(fs, checks, private, kernel, source);
    } else if StateOf(fs) != ExternalOnly && StateOf(fs) != ExternalPlusRepositoryStage {
      RefusedRepairStops(fs, source);
    } else if !Alone.ValidRecord(fs, checks) {
      UnreadableRecordStops(fs, source);
    } else {
      ForeignStageStops(fs, private, source);
    }
  }
}
