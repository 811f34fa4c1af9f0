/** The four directory entries of the two publication locations, and the operations on them. */
module PublicationFs {
  import opened Basics

  type Bytes = seq<int>

  datatype Location = External | Repository

  datatype Leaf = Final | Stage

  datatype Slot = Slot(location: Location, leaf: Leaf)

  /**
   A file: the bytes written so far, and, as history, the bytes its creator set out to write,
   the process that created it and the location it was created for.
   */
  datatype File = File(bytes: Bytes, goal: Bytes, writer: nat, location: Location)

  /** Directory entries and files by inode. */
  datatype Fs = Fs(dir: map<Slot, nat>, files: map<nat, File>)

  predicate Present(fs: Fs, location: Location, leaf: Leaf) { Slot(location, leaf) in fs.dir }

  /** Whether the entry exists and is the given inode. */
  predicate Holds(fs: Fs, location: Location, leaf: Leaf, inode: nat) {
    Slot(location, leaf) in fs.dir && fs.dir[Slot(location, leaf)] == inode
  }

  /** Exclusive creation of an empty stage. */
  function CreateStage(fs: Fs, location: Location, inode: nat, source: Bytes, writer: nat): Fs {
    Fs(fs.dir[Slot(location, Stage) := inode], fs.files[inode := File([], source, writer, location)])
  }

  function Append(fs: Fs, inode: nat, chunk: Bytes): Fs
    requires inode in fs.files
  {
    fs.(files := fs.files[inode := fs.files[inode].(bytes := fs.files[inode].bytes + chunk)])
  }

  /** The kernel's no-replace rename of the stage leaf to the final leaf: whatever the stage leaf names is moved. */
  predicate CanRename(fs: Fs, location: Location) {
    Present(fs, location, Stage) && !Present(fs, location, Final)
  }

  function Rename(fs: Fs, location: Location): Fs
    requires CanRename(fs, location)
  {
    fs.(dir := (fs.dir - {Slot(location, Stage)})[Slot(location, Final) := fs.dir[Slot(location, Stage)]])
  }

  datatype PairState =
    | Absent
    | ExternalStageUnresolved
    | ExternalOnly
    | ExternalPlusRepositoryStage
    | Complete
    | Invalid

  /** Classification of the four presence bits. */
  function Classify(externalFinal: bool, externalStage: bool, repositoryFinal: bool, repositoryStage: bool): PairState {
    match (externalFinal, externalStage, repositoryFinal, repositoryStage)
    case (false, false, false, false) => Absent
    case (false, true, false, false) => ExternalStageUnresolved
    case (true, false, true, false) => Complete
    case (true, false, false, false) => ExternalOnly
    case (true, false, false, true) => ExternalPlusRepositoryStage
    case _ => Invalid
  }

  function StateOf(fs: Fs): PairState {
    Classify(Present(fs, External, Final), Present(fs, External, Stage),
             Present(fs, Repository, Final), Present(fs, Repository, Stage))
  }

  /** The bytes behind an entry. */
  function BytesAt(fs: Fs, location: Location, leaf: Leaf): Option<Bytes> {
    if Slot(location, leaf) in fs.dir && fs.dir[Slot(location, leaf)] in fs.files then
      Some(fs.files[fs.dir[Slot(location, leaf)]].bytes)
    else None
  }

  /** A complete final: every byte its creator set out to write. */
  ghost predicate WholeFinal(fs: Fs, location: Location) {
    Present(fs, location, Final) ==>
      && fs.dir[Slot(location, Final)] in fs.files
      && fs.files[fs.dir[Slot(location, Final)]].bytes == fs.files[fs.dir[Slot(location, Final)]].goal
  }

  /** The finals and their bytes are the same or new, never replaced. */
  ghost predicate FinalsKept(fs: Fs, fs': Fs) {
    forall location :: Present(fs, location, Final) ==>
      && Present(fs', location, Final)
      && fs'.dir[Slot(location, Final)] == fs.dir[Slot(location, Final)]
      && BytesAt(fs', location, Final) == BytesAt(fs, location, Final)
  }
}
