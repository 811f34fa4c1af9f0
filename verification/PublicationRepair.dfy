/**
 The publisher and the repairer as they run alone: every system call in order, with what the kernel decides as input.
 */
module PublicationRepair {
  import opened Basics
  import opened PublicationFs

  const MAX_RECORD_BYTES := 262144

  /**
   What the kernel decides: how many bytes a write at an offset takes, the inode of the next file,
   whether the rename takes place, and the code it returns.
   */
  datatype Kernel = Kernel(wrote: nat -> int, inode: nat, moves: bool, code: int)

  /**
   The two content checks: canonical JSON, and validity as a record bound to the terminal evidence and this publisher.
   */
  datatype Checks = Checks(canonical: Bytes -> bool, valid: Bytes -> bool)

  datatype Outcome =
    | Published
    | NotCanonical
    | NotAbsent
    | NotRepairable
    | UnreadableRecord
    | FinalExists
    | StageExists
    | NoProgress
    | StageDiffers
    | RenameFailed
    | InvalidNamespace
    | NotComplete

  datatype HeldState = Staged | AtFinal | Elsewhere

  /** Where the held file is. */
  function HeldStateOf(fs: Fs, location: Location, held: nat): HeldState {
    if Holds(fs, location, Stage, held) && !Present(fs, location, Final) then Staged
    else if !Present(fs, location, Stage) && Holds(fs, location, Final, held) then AtFinal
    else Elsewhere
  }

  /** The entries of one location. */
  function EntriesAt(fs: Fs, location: Location): map<Slot, nat> {
    map slot | slot in fs.dir && slot.location == location :: fs.dir[slot]
  }

  /** The held file is staged, or is the final, exactly when it is the only entry of its location. */
  lemma HeldStateExact(fs: Fs, location: Location, held: nat)
    ensures HeldStateOf(fs, location, held) == Staged <==> EntriesAt(fs, location) == map[Slot(location, Stage) := held]
    ensures HeldStateOf(fs, location, held) == AtFinal <==>
      EntriesAt(fs, location) == map[Slot(location, Final) := held]
  {
    var entries := EntriesAt(fs, location);
    assert Slot(location, Stage) in entries <==> Present(fs, location, Stage);
    assert Slot(location, Final) in entries <==> Present(fs, location, Final);
    forall slot | slot in entries
      ensures slot == Slot(location, Stage) || slot == Slot(location, Final)
    {
      assert slot.leaf == Stage || slot.leaf == Final;
    }
  }

  /** Entries name existing files and no file has two names. */
  ghost predicate WellFormed(fs: Fs) {
    && (forall slot :: slot in fs.dir ==> fs.dir[slot] in fs.files)
    && (forall a, b :: a in fs.dir && b in fs.dir && a != b ==> fs.dir[a] != fs.dir[b])
  }

  /** A write never takes more than it is offered. */
  ghost predicate WritesWithin(wrote: nat -> int, size: nat) {
    forall k: nat :: k < size ==> wrote(k) <= size - k
  }

  /** Whether every write from the given offset on takes at least one byte. */
  ghost predicate Progresses(wrote: nat -> int, offset: nat, size: nat)
    decreases size - offset
  {
    offset >= size || (wrote(offset) > 0 && Progresses(wrote, offset + wrote(offset), size))
  }

  /** How far the writes get from the given offset on: to the end, or to the first one that takes nothing. */
  ghost function Written(wrote: nat -> int, offset: nat, size: nat): (end: nat)
    requires offset <= size && WritesWithin(wrote, size)
    ensures end <= size && (end == size <==> Progresses(wrote, offset, size))
    decreases size - offset
  {
    if offset == size || wrote(offset) <= 0 then offset else Written(wrote, offset + wrote(offset), size)
  }

  /** Bytes of bounded size in canonical form. */
  predicate Canonical(source: Bytes, checks: Checks) { 0 < |source| <= MAX_RECORD_BYTES && checks.canonical(source) }

  predicate IsRecord(source: Option<Bytes>, checks: Checks) {
    source.Some? && Canonical(source.value, checks) && checks.valid(source.value)
  }

  /** No bytes, none or too many of them, bytes out of canonical form, or no valid record. */
  predicate Unreadable(source: Option<Bytes>, checks: Checks) {
    source.None? || source.value == [] || |source.value| > MAX_RECORD_BYTES || !checks.canonical(source.value)
      || !checks.valid(source.value)
  }

  /** The external record: present, canonical and valid. */
  predicate ValidRecord(fs: Fs, checks: Checks) { IsRecord(BytesAt(fs, External, Final), checks) }

  /** The states repair can finish: the repository has no stage, or a private stage with exactly the external bytes. */
  ghost predicate Repairable(fs: Fs, checks: Checks, private: bool) {
    && ValidRecord(fs, checks)
    && (StateOf(fs) == ExternalOnly
        || (StateOf(fs) == ExternalPlusRepositoryStage && private
            && BytesAt(fs, Repository, Stage) == BytesAt(fs, External, Final)))
  }

  /** Whether a publication of the source into an empty location goes through. */
  ghost predicate Publishes(source: Bytes, kernel: Kernel) { Progresses(kernel.wrote, 0, |source|) && kernel.moves }

  /** How the rename of a file that is in place ends. */
  function Moved(kernel: Kernel): Outcome {
    if kernel.moves then Published else if kernel.code != 0 then RenameFailed else InvalidNamespace
  }

  /** How the publication of canonical bytes at an empty location ends. */
  ghost function FileOutcome(source: Bytes, kernel: Kernel): Outcome {
    if Progresses(kernel.wrote, 0, |source|) then Moved(kernel) else NoProgress
  }

  /** Repair writes only when the repository has no stage; then every write must make progress. */
  ghost predicate WritesThrough(fs: Fs, kernel: Kernel) {
    StateOf(fs) == ExternalOnly && BytesAt(fs, External, Final).Some? ==>
      Progresses(kernel.wrote, 0, |BytesAt(fs, External, Final).value|)
  }

  /** The finished pair: both finals, no stage, one valid record in both places. */
  predicate Finished(fs: Fs, checks: Checks) {
    StateOf(fs) == Complete && ValidRecord(fs, checks) && BytesAt(fs, Repository, Final) == BytesAt(fs, External, Final)
  }

  /** The file system after the held file has received the given bytes. */
  function WithBytes(fs: Fs, held: nat, bytes: Bytes): Fs
    requires held in fs.files
  {
    fs.(files := fs.files[held := fs.files[held].(bytes := bytes)])
  }

  /** A location with a final or a stage. */
  predicate Occupied(fs: Fs, location: Location) { Present(fs, location, Final) || Present(fs, location, Stage) }

  /** The file system after publishing into an empty location: one new file, still the stage or already the final. */
  function AfterPublish(fs: Fs, location: Location, inode: nat, bytes: Bytes, goal: Bytes, promoted: bool): Fs {
    Fs(fs.dir[Slot(location, if promoted then Final else Stage) := inode],
       fs.files[inode := File(bytes, goal, 0, location)])
  }

  /** The file system after the publication of one file into an empty location, as far as it gets. */
  ghost function AfterFile(fs: Fs, location: Location, source: Bytes, kernel: Kernel): Fs
    requires WritesWithin(kernel.wrote, |source|)
  {
    AfterPublish(fs, location, kernel.inode, source[..Written(kernel.wrote, 0, |source|)], source,
                 Publishes(source, kernel))
  }

  /** The file system after the publication of the pair. */
  ghost function AfterPair(fs: Fs, source: Bytes, external: Kernel, repository: Kernel): Fs
    requires WritesWithin(external.wrote, |source|) && WritesWithin(repository.wrote, |source|)
  {
    var fs1 := AfterFile(fs, External, source, external);
    if StateOf(fs) != Absent then fs
    else if !Publishes(source, external) then fs1
    else AfterFile(fs1, Repository, source, repository)
  }

  /** The file system after repair of a repairable state. */
  ghost function AfterRepair(fs: Fs, kernel: Kernel): Fs
    requires BytesAt(fs, External, Final).Some? && WritesWithin(kernel.wrote, |BytesAt(fs, External, Final).value|)
  {
    if StateOf(fs) == ExternalOnly then AfterFile(fs, Repository, BytesAt(fs, External, Final).value, kernel)
    else if kernel.moves && CanRename(fs, Repository) then Rename(fs, Repository)
    else fs
  }

  /** The state that repair of a repairable state leaves behind. */
  lemma RepairMeaning(fs: Fs, checks: Checks, private: bool, kernel: Kernel)
    requires WellFormed(fs) && kernel.inode !in fs.files && Repairable(fs, checks, private)
    requires WritesWithin(kernel.wrote, |BytesAt(fs, External, Final).value|)
    ensures var after := AfterRepair(fs, kernel);
      && FinalsKept(fs, after)
      && (kernel.moves && WritesThrough(fs, kernel) ==>
            && StateOf(after) == Complete
            && BytesAt(after, Repository, Final) == BytesAt(after, External, Final) == BytesAt(fs, External, Final))
      && (!kernel.moves && WritesThrough(fs, kernel) ==> Repairable(after, checks, true))
      && (!WritesThrough(fs, kernel) ==>
            StateOf(after) == ExternalPlusRepositoryStage && forall again :: !Repairable(after, checks, again))
  {
    var source := BytesAt(fs, External, Final).value;
    assert source[..|source|] == source;
    if StateOf(fs) == ExternalPlusRepositoryStage && kernel.moves {
      assert CanRename(fs, Repository);
    }
  }

  class Store {
    var fs: Fs

    constructor (initial: Fs)
      ensures fs == initial
    {
      fs := initial;
    }

    /** Writes until everything is written or a write makes no progress; what was written is a prefix. */
    method WriteAll(held: nat, source: Bytes, wrote: nat -> int) returns (offset: nat)
      requires held in fs.files && fs.files[held].bytes == [] && WritesWithin(wrote, |source|)
      modifies this
      ensures offset == Written(wrote, 0, |source|) && fs == WithBytes(old(fs), held, source[..offset])
    {
      offset := 0;
      assert source[..0] == [];
      while offset < |source|
        invariant offset <= |source| && held in fs.files
        invariant fs == WithBytes(old(fs), held, source[..offset])
        invariant Written(wrote, 0, |source|) == Written(wrote, offset, |source|)
      {
        var written := wrote(offset);
        if written <= 0 {
          return;
        }
        assert source[..offset] + source[offset..offset + written] == source[..offset + written];
        fs := Append(fs, held, source[offset..offset + written]);
        offset := offset + written;
      }
    }

    /**
     Promotion of the held stage. Success is decided by where the held file is afterwards:
     the returned code only chooses between two errors.
     */
    method Promote(location: Location, held: nat, source: Bytes, kernel: Kernel) returns (outcome: Outcome)
      requires WellFormed(fs) && held in fs.files
      modifies this
      ensures WellFormed(fs)
      ensures fs == if old(HeldStateOf(fs, location, held)) == Staged && kernel.moves then old(Rename(fs, location))
        else old(fs)
      ensures outcome == Published <==>
        old(HeldStateOf(fs, location, held)) == Staged && kernel.moves && old(fs).files[held].bytes == source
      ensures outcome == RenameFailed <==>
        old(HeldStateOf(fs, location, held)) == Staged && !kernel.moves && kernel.code != 0
      ensures outcome == StageDiffers <==>
        old(HeldStateOf(fs, location, held)) == Staged && kernel.moves && old(fs).files[held].bytes != source
      ensures outcome in {Published, StageDiffers, RenameFailed, InvalidNamespace}
    {
      if HeldStateOf(fs, location, held) != Staged {
        return InvalidNamespace;
      }
      if kernel.moves && CanRename(fs, location) {
        fs := Rename(fs, location);
      }
      var observed := HeldStateOf(fs, location, held);
      if observed != AtFinal {
        return if observed == Staged && kernel.code != 0 then RenameFailed else InvalidNamespace;
      }
      if BytesAt(fs, location, Final) != Some(source) {
        return StageDiffers;
      }
      outcome := if HeldStateOf(fs, location, held) == AtFinal then Published else InvalidNamespace;
    }

    /** Creates the stage exclusively and writes the source into it, as far as the writes go. */
    method WriteStage(location: Location, source: Bytes, kernel: Kernel) returns (offset: nat)
      requires WellFormed(fs) && kernel.inode !in fs.files && WritesWithin(kernel.wrote, |source|)
        && !Occupied(fs, location)
      modifies this
      ensures offset == Written(kernel.wrote, 0, |source|)
      ensures fs == AfterPublish(old(fs), location, kernel.inode, source[..offset], source, false)
      ensures WellFormed(fs) && HeldStateOf(fs, location, kernel.inode) == Staged
    {
      fs := CreateStage(fs, location, kernel.inode, source, 0);
      offset := WriteAll(kernel.inode, source, kernel.wrote);
    }

    /** Publishes one file: exclusive stage, write, reread, promote. */
    method PublishFile(location: Location, source: Bytes, checks: Checks, kernel: Kernel) returns (outcome: Outcome)
      requires WellFormed(fs) && kernel.inode !in fs.files && WritesWithin(kernel.wrote, |source|)
      modifies this
      ensures WellFormed(fs)
      ensures outcome == Published <==>
        Canonical(source, checks) && !old(Occupied(fs, location)) && Progresses(kernel.wrote, 0, |source|)
          && kernel.moves
      ensures Canonical(source, checks) && !old(Occupied(fs, location)) ==>
        fs == AfterFile(old(fs), location, source, kernel)
      ensures !Canonical(source, checks) || old(Occupied(fs, location)) ==> fs == old(fs)
      ensures outcome == NotCanonical <==>
        source == [] || |source| > MAX_RECORD_BYTES || !checks.canonical(source)
      ensures outcome == FinalExists <==> Canonical(source, checks) && old(Present(fs, location, Final))
      ensures outcome == StageExists <==>
        Canonical(source, checks) && !old(Present(fs, location, Final)) && old(Present(fs, location, Stage))
      ensures Canonical(source, checks) && !old(Occupied(fs, location)) ==> outcome == FileOutcome(source, kernel)
    {
      if !Canonical(source, checks) {
        return NotCanonical;
      }
      if Present(fs, location, Final) {
        return FinalExists;
      }
      if Present(fs, location, Stage) {
        return StageExists;
      }
      var offset := WriteStage(location, source, kernel);
      assert source[..|source|] == source;
      if offset < |source| {
        return NoProgress;
      }
      var held := kernel.inode;
      if fs.files[held].bytes != source {
        return StageDiffers;
      }
      outcome := Promote(location, held, source, kernel);
    }

    /** Promotes the stage that is already in the repository, if it is private and carries exactly the source. */
    method PromoteExisting(source: Bytes, checks: Checks, private: bool, kernel: Kernel) returns (outcome: Outcome)
      requires WellFormed(fs)
      modifies this
      ensures WellFormed(fs)
      ensures outcome == Published <==>
        && Canonical(source, checks) && private && kernel.moves
        && old(CanRename(fs, Repository)) && old(BytesAt(fs, Repository, Stage)) == Some(source)
      ensures fs == if outcome == Published then old(Rename(fs, Repository)) else old(fs)
      ensures outcome == NotCanonical <==>
        source == [] || |source| > MAX_RECORD_BYTES || !checks.canonical(source)
      ensures outcome == FinalExists <==> Canonical(source, checks) && old(Present(fs, Repository, Final))
      ensures Canonical(source, checks) && !old(Present(fs, Repository, Final)) ==>
        outcome == if private && old(BytesAt(fs, Repository, Stage)) == Some(source) then Moved(kernel)
          else StageDiffers
    {
      if !Canonical(source, checks) {
        return NotCanonical;
      }
      if Present(fs, Repository, Final) {
        return FinalExists;
      }
      if !Present(fs, Repository, Stage) {
        return StageDiffers;
      }
      var held := fs.dir[Slot(Repository, Stage)];
      if !Holds(fs, Repository, Stage, held) || !private || fs.files[held].bytes != source {
        return StageDiffers;
      }
      outcome := Promote(Repository, held, source, kernel);
    }

    /** The verification of a finished pair. */
    method VerifyExisting(checks: Checks) returns (ok: bool)
      ensures ok <==> Finished(fs, checks)
      ensures ok <==>
        && Present(fs, External, Final) && Present(fs, Repository, Final)
        && !Present(fs, External, Stage) && !Present(fs, Repository, Stage)
        && BytesAt(fs, External, Final) == BytesAt(fs, Repository, Final)
        && !Unreadable(BytesAt(fs, Repository, Final), checks)
    {
      if StateOf(fs) != Complete {
        return false;
      }
      var source := BytesAt(fs, Repository, Final);
      if !IsRecord(source, checks) {
        return false;
      }
      ok := BytesAt(fs, External, Final) == source;
    }

    /** Publishes the external file, then the repository file, then confirms the pair. */
    method PublishPair(source: Bytes, checks: Checks, external: Kernel, repository: Kernel) returns (outcome: Outcome)
      requires WellFormed(fs) && external.inode !in fs.files && repository.inode !in fs.files
      requires external.inode != repository.inode
      requires WritesWithin(external.wrote, |source|) && WritesWithin(repository.wrote, |source|)
      modifies this
      ensures WellFormed(fs)
      ensures outcome == Published <==>
        && old(StateOf(fs)) == Absent && Canonical(source, checks)
        && Publishes(source, external) && Publishes(source, repository)
      ensures outcome == Published ==>
        StateOf(fs) == Complete && BytesAt(fs, External, Final) == BytesAt(fs, Repository, Final) == Some(source)
      ensures outcome == NotAbsent <==> old(StateOf(fs)) != Absent
      ensures outcome == NotCanonical <==> old(StateOf(fs)) == Absent && !Canonical(source, checks)
      ensures old(StateOf(fs)) == Absent && Canonical(source, checks) ==>
        outcome == FileOutcome(source, if Publishes(source, external) then repository else external)
      ensures fs == if Canonical(source, checks) then AfterPair(old(fs), source, external, repository) else old(fs)
      ensures outcome != Published && fs != old(fs) ==>
        StateOf(fs) == if Publishes(source, external) then ExternalPlusRepositoryStage else ExternalStageUnresolved
    {
      if StateOf(fs) != Absent {
        return NotAbsent;
      }
      outcome := PublishFile(External, source, checks, external);
      assert source[..|source|] == source;
      if outcome != Published {
        return;
      }
      assert fs == AfterPublish(old(fs), External, external.inode, source, source, true);
      outcome := PublishFile(Repository, source, checks, repository);
      if outcome != Published {
        return;
      }
      if StateOf(fs) != Complete {
        return NotComplete;
      }
      if BytesAt(fs, Repository, Final) != Some(source) || BytesAt(fs, External, Final) != Some(source) {
        outcome := StageDiffers;
      }
    }

    /**
     Repair of the repository location from the external record. It completes the pair exactly in the
     repairable states when the kernel lets it, and changes nothing in any other state. A refused rename leaves
     a state from which repair can be called again; a broken-off write leaves one which repair refuses for ever.
     */
    method Repair(checks: Checks, private: bool, kernel: Kernel) returns (outcome: Outcome)
      requires WellFormed(fs) && kernel.inode !in fs.files
      requires ValidRecord(fs, checks) ==> WritesWithin(kernel.wrote, |BytesAt(fs, External, Final).value|)
      modifies this
      ensures WellFormed(fs) && FinalsKept(old(fs), fs)
      ensures outcome == Published <==>
        old(Repairable(fs, checks, private)) && kernel.moves && old(WritesThrough(fs, kernel))
      ensures outcome == Published ==>
        && StateOf(fs) == Complete
        && BytesAt(fs, Repository, Final) == BytesAt(fs, External, Final) == old(BytesAt(fs, External, Final))
      ensures fs == if old(Repairable(fs, checks, private)) then AfterRepair(old(fs), kernel) else old(fs)
      ensures outcome == NotRepairable <==>
        old(StateOf(fs)) != ExternalOnly && old(StateOf(fs)) != ExternalPlusRepositoryStage
      ensures outcome == UnreadableRecord <==>
        && old(StateOf(fs)) in {ExternalOnly, ExternalPlusRepositoryStage}
        && Unreadable(old(BytesAt(fs, External, Final)), checks)
      ensures outcome == StageDiffers <==>
        && old(StateOf(fs)) == ExternalPlusRepositoryStage && old(ValidRecord(fs, checks))
        && !old(Repairable(fs, checks, private))
      ensures old(Repairable(fs, checks, private)) ==>
        outcome == if old(StateOf(fs)) == ExternalOnly then FileOutcome(old(BytesAt(fs, External, Final)).value, kernel)
          else Moved(kernel)
      ensures old(Repairable(fs, checks, private)) && outcome != Published && old(WritesThrough(fs, kernel)) ==>
        Repairable(fs, checks, true)
      ensures old(Repairable(fs, checks, private)) && !old(WritesThrough(fs, kernel)) ==>
        StateOf(fs) == ExternalPlusRepositoryStage && forall again :: !Repairable(fs, checks, again)
    {
      var state := StateOf(fs);
      if state != ExternalOnly && state != ExternalPlusRepositoryStage {
        return NotRepairable;
      }
      var loaded := BytesAt(fs, External, Final);
      if !IsRecord(loaded, checks) {
        return UnreadableRecord;
      }
      var source := loaded.value;
      if Repairable(fs, checks, private) {
        RepairMeaning(fs, checks, private, kernel);
      }
      if state == ExternalOnly {
        outcome := PublishFile(Repository, source, checks, kernel);
      } else {
        outcome := PromoteExisting(source, checks, private, kernel);
      }
      if outcome != Published {
        return;
      }
      var ok := VerifyExisting(checks);
      if !ok {
        outcome := NotComplete;
      }
    }
  }
}
