/** Runs that leave the five pair states: a stage created beside a final that another process put there meanwhile. */
module PublicationConflict {
  import opened PublicationFs
  import opened PublicationProtocol
  import opened PublicationRefinement
  import Alone = PublicationRepair

  ghost predicate Reachable(s: System) { exists run :: IsRun(run) && run[|run| - 1] == s }

  lemma ReachableNext(s: System, s': System)
    requires Reachable(s) && Next(s, s')
    ensures Reachable(s')
  {
    var run :| IsRun(run) && run[|run| - 1] == s;
    var longer := run + [s'];
    forall i | 0 <= i < |longer| - 1
      ensures Next(longer[i], longer[i + 1])
    {
      assert i < |run| - 1 ==> Next(run[i], run[i + 1]);
    }
    assert IsRun(longer) && longer[|longer| - 1] == s';
  }

  /** What one process reaches alone, the system reaches while the others wait. */
  lemma {:induction false} ReachableByOne(s: System, id: nat, choices: seq<Choice>)
    requires Reachable(s) && id in s.processes
    ensures var (fs, p) := Exec(s.fs, id, s.processes[id], choices); Reachable(System(fs, s.processes[id := p]))
    decreases |choices|
  {
    if choices == [] {
      assert s.processes[id := s.processes[id]] == s.processes;
    } else {
      var (fs, p) := Act(s.fs, id, s.processes[id], choices[0]);
      var next := System(fs, s.processes[id := p]);
      assert CallStep(s, next, id, choices[0]);
      ReachableNext(s, next);
      ReachableByOne(next, id, choices[1..]);
      var (fs', p') := Exec(fs, id, p, choices[1..]);
      assert s.processes[id := p][id := p'] == s.processes[id := p'];
    }
  }

  lemma ReachableThrough(s: System, id: nat, fs: Fs, p: Process)
    requires Reachable(s) && id in s.processes && Reaches(s.fs, id, s.processes[id], fs, p)
    ensures Reachable(System(fs, s.processes[id := p]))
  {
    var choices :| Exec(s.fs, id, s.processes[id], choices) == (fs, p);
    ReachableByOne(s, id, choices);
  }

  const EMPTY := Fs(map[], map[])

  function Fresh(source: Bytes): Process { Started(Publisher, source) }

  /** On the empty store a publisher sees the absent state. */
  lemma SeesAbsent(id: nat, source: Bytes)
    ensures Reaches(EMPTY, id, Fresh(source), EMPTY, Fresh(source).(pc := CheckFinal))
  {
    DecidesByState(EMPTY, id, Fresh(source));
  }

  /** It may stand just before creating its stage, all checks passed. */
  lemma ChecksPassed(id: nat, source: Bytes)
    ensures Reaches(EMPTY, id, Fresh(source), EMPTY, Fresh(source).(pc := Creating))
  {
    var p, c := Fresh(source), Choice(0, 0, false, true);
    SeesAbsent(id, source);
    ReachesNext(EMPTY, id, p, EMPTY, p.(pc := CheckFinal), c, EMPTY, p.(pc := CheckStage));
    ReachesNext(EMPTY, id, p, EMPTY, p.(pc := CheckStage), c, EMPTY, p.(pc := Creating));
  }

  /** Both publishers are there, the second with all its checks passed, the first about to publish. */
  lemma BothReady(source: Bytes)
    requires source != []
    ensures Reachable(System(EMPTY, map[0 := Fresh(source).(pc := CheckFinal), 1 := Fresh(source).(pc := Creating)]))
  {
    var start := System(EMPTY, map[]);
    assert IsRun([start]) && [start][0] == start;
    assert Reachable(start);
    var one := System(EMPTY, map[0 := Fresh(source)]);
    assert StartStep(start, one, 0, Publisher, source);
    ReachableNext(start, one);
    var two := System(EMPTY, map[0 := Fresh(source), 1 := Fresh(source)]);
    assert two.processes == one.processes[1 := Fresh(source)];
    assert StartStep(one, two, 1, Publisher, source);
    ReachableNext(one, two);
    ChecksPassed(1, source);
    ReachableThrough(two, 1, EMPTY, Fresh(source).(pc := Creating));
    var three := System(EMPTY, two.processes[1 := Fresh(source).(pc := Creating)]);
    SeesAbsent(0, source);
    ReachableThrough(three, 0, EMPTY, Fresh(source).(pc := CheckFinal));
    assert three.processes[0 := Fresh(source).(pc := CheckFinal)]
      == map[0 := Fresh(source).(pc := CheckFinal), 1 := Fresh(source).(pc := Creating)];
  }

  function WholeWrites(source: Bytes, inode: nat): Alone.Kernel {
    Alone.Kernel((k: nat) => |source| - k, inode, true, 0)
  }

  lemma WholeWritesPublish(source: Bytes, inode: nat)
    ensures Alone.WritesWithin(WholeWrites(source, inode).wrote, |source|)
    ensures Alone.Publishes(source, WholeWrites(source, inode))
  {
    var wrote := WholeWrites(source, inode).wrote;
    assert Alone.Progresses(wrote, |source|, |source|);
    assert |source| > 0 ==> wrote(0) == |source|;
  }

  /** A run of processes 0 and 1 in the given roles that ends outside the five states. */
  ghost predicate Conflict(zero: Role, one: Role) {
    exists s :: Reachable(s) && ConflictAt(s, zero, one)
  }

  ghost predicate ConflictAt(s: System, zero: Role, one: Role) {
    && StateOf(s.fs) == Invalid && s.processes.Keys == {0, 1}
    && s.processes[0].role == zero && s.processes[1].role == one
  }

  /**
   Process 1 has looked; process 0 publishes at the same location; then process 1 creates its stage beside the final.
   */
  lemma Overtakes(s: System, inode: nat, late: nat)
    requires Reachable(s) && s.processes.Keys == {0, 1}
    requires s.processes[0].pc == CheckFinal && s.processes[1].pc == Creating
    requires s.processes[0].location == s.processes[1].location && !Alone.Occupied(s.fs, s.processes[0].location)
    requires inode !in s.fs.files && late !in s.fs.files && inode != late
    ensures Conflict(s.processes[0].role, s.processes[1].role)
  {
    var p, q := s.processes[0], s.processes[1];
    var kernel := WholeWrites(p.source, inode);
    WholeWritesPublish(p.source, inode);
    PublishFileIsAPath(s.fs, p, kernel);
    var fs, w := Alone.AfterFile(s.fs, p.location, p.source, kernel), AfterFile(p, kernel);
    ReachableThrough(s, 0, fs, w);
    var published := System(fs, s.processes[0 := w]);
    var last := System(CreateStage(fs, q.location, late, q.source, 1),
                       published.processes[1 := q.(held := late, offset := 0, pc := Writing)]);
    assert CallStep(published, last, 1, Choice(0, late, false, true));
    ReachableNext(published, last);
    assert Present(last.fs, p.location, Final) && Present(last.fs, p.location, Stage);
    assert ConflictAt(last, p.role, q.role);
  }

  /** Two publishers that both saw the absent state can leave the five states, at the external location. */
  lemma TwoPublishersCanConflict(source: Bytes)
    requires source != []
    ensures Conflict(Publisher, Publisher)
  {
    BothReady(source);
    Overtakes(System(EMPTY, map[0 := Fresh(source).(pc := CheckFinal), 1 := Fresh(source).(pc := Creating)]), 7, 8);
  }

  // ----- A publisher and a repairer -----

  function ExternalOnlyFs(source: Bytes): Fs { Alone.AfterPublish(EMPTY, External, 7, source, source, true) }

  function BetweenFiles(source: Bytes): Process {
    Process(Publisher, source, Repository, CheckFinal, 7, |source|)
  }

  /** A publisher alone, between its two files. */
  lemma FirstFileDone(source: Bytes)
    requires source != []
    ensures Reachable(System(ExternalOnlyFs(source), map[0 := BetweenFiles(source)]))
  {
    var start, one := System(EMPTY, map[]), System(EMPTY, map[0 := Fresh(source)]);
    assert IsRun([start]) && [start][0] == start;
    assert Reachable(start);
    assert StartStep(start, one, 0, Publisher, source);
    ReachableNext(start, one);
    var p := Fresh(source).(pc := CheckFinal);
    SeesAbsent(0, source);
    WholeWritesPublish(source, 7);
    PublishFileIsAPath(EMPTY, p, WholeWrites(source, 7));
    assert source[..|source|] == source;
    ReachesOn(EMPTY, 0, Fresh(source), EMPTY, p, ExternalOnlyFs(source), BetweenFiles(source));
    ReachableThrough(one, 0, ExternalOnlyFs(source), BetweenFiles(source));
    assert one.processes[0 := BetweenFiles(source)] == map[0 := BetweenFiles(source)];
  }

  /** A repairer that sees the external final gets to just before creating its stage. */
  lemma RepairerReady(source: Bytes)
    requires source != []
    ensures var p := Started(Repairer, source);
      Reaches(ExternalOnlyFs(source), 1, p, ExternalOnlyFs(source), p.(pc := Creating))
  {
    var fs, p, c := ExternalOnlyFs(source), Started(Repairer, source), Choice(0, 0, false, true);
    DecidesByState(fs, 1, p);
    ReachesNext(fs, 1, p, fs, p.(pc := Loading(false)), c, fs, p.(pc := CheckFinal));
    ReachesNext(fs, 1, p, fs, p.(pc := CheckFinal), c, fs, p.(pc := CheckStage));
    ReachesNext(fs, 1, p, fs, p.(pc := CheckStage), c, fs, p.(pc := Creating));
  }

  /** A publisher and a repairer can leave the five states too, at the repository location. */
  lemma PublisherAndRepairerCanConflict(source: Bytes)
    requires source != []
    ensures Conflict(Publisher, Repairer)
  {
    var fs, p := ExternalOnlyFs(source), Started(Repairer, source);
    var one := System(fs, map[0 := BetweenFiles(source)]);
    FirstFileDone(source);
    var two := System(fs, one.processes[1 := p]);
    assert StartStep(one, two, 1, Repairer, source);
    ReachableNext(one, two);
    RepairerReady(source);
    ReachableThrough(two, 1, fs, p.(pc := Creating));
    Overtakes(System(fs, two.processes[1 := p.(pc := Creating)]), 8, 9);
  }
}
