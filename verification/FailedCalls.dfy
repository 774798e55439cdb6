/** Calls that return -1 because the drive failed: what they leave, and what a reboot then finds. */
module FailedCalls {
  import opened CStrings
  import opened Paths
  import opened Table
  import opened Layout
  import opened FileSystem
  import opened Refinement
  import opened Runs
  import opened Recovery
  import opened CrashHistory
  import opened InterruptedMove

  /**
   * A single call that has failed: it was refused, or its read came to nothing, or its records and
   * blocks are those of the call done and k of its sectors are on the disk.
   */
  ghost predicate Stopped(s: State, op: Op, k: nat, s': State)
    requires Valid(s) && Single(op) && Arguments(op)
  {
    || Refused(s, op, s')
    || (op.Read? && s'.recs == s.recs && s'.disk == s.disk && s'.generation == s.generation && s'.backed == s.backed)
    || CutOff(s, op, k, s')
  }

  ghost predicate Refused(s: State, op: Op, s': State)
    requires Valid(s) && Single(op) && Arguments(op)
  {
    s' == StepS(s, op).1 && StepS(s, op).0 in {Done(false), Bytes(None)}
  }

  ghost predicate CutOff(s: State, op: Op, k: nat, s': State)
    requires Valid(s) && Single(op) && Arguments(op)
  {
    var done := StepS(s, op).1;
    && s.backed && DataSlot(s, op) <= 62 && k <= SectorWrites(Abs(s), op)
    && s'.recs == done.recs && s'.ram == done.ram && s'.backed
    && s'.disk == CrashDisk(s, done, DataSlot(s, op), k)
  }

  /** The same for the part with the given number, the parts before it being done. */
  ghost predicate StoppedIn(s: State, parts: seq<Op>, part: nat, k: nat, s': State)
    requires Valid(s) && AllSingle(parts)
  {
    part < |parts| && Stopped(Before(s, parts, part), parts[part], k, s')
  }

  /** An update of the records whose persist has stopped after k sectors. */
  ghost predicate CommittedTo(s: State, t: Option<Table>, k: nat, s': State)
    requires Valid(s)
  {
    match t
    case None => s' == s
    case Some(u) =>
      && s.backed && Encodable(u) && k <= META_SECTORS
      && s' == State(u, s.ram, Next(s.generation), true, Put(s.disk, META_LBA, Image(u, Next(s.generation)), k))
  }

  predicate UpdatesRecords(op: Op) {
    op.Mkdir? || op.Touch? || op.Rmdir? || op.Remove?
  }

  /** The table function of an operation on records. */
  function TableFor(t: Table, op: Op): Option<Table>
    requires UpdatesRecords(op)
  {
    match op
    case Mkdir(p) => CreateT(t, p, DIRECTORY)
    case Touch(p) => CreateT(t, p, FILE)
    case Rmdir(p) => RmdirT(t, p)
    case Remove(p) => RemoveT(t, p)
  }

  lemma UpdateStopped(s: State, op: Op, k: nat, s': State)
    requires Valid(s) && Arguments(op) && UpdatesRecords(op) && (op.Touch? ==> FindPath(s.recs, op.path) < 0)
    requires CommittedTo(s, TableFor(s.recs, op), k, s')
    ensures Stopped(s, op, k, s')
  {
    if op.Mkdir? || op.Touch? {
      CreationStopped(s, op, k, s');
    } else {
      DeletionStopped(s, op, k, s');
    }
  }

  lemma CreationStopped(s: State, op: Op, k: nat, s': State)
    requires Valid(s) && Arguments(op) && (op.Mkdir? || (op.Touch? && FindPath(s.recs, op.path) < 0))
    requires CommittedTo(s, TableFor(s.recs, op), k, s')
    ensures Stopped(s, op, k, s')
  {
    var kind := if op.Mkdir? then DIRECTORY else FILE;
    FoundInTree(s, op.path);
    CreateAllowed(s, op.path, kind);
    CreateKeepsTree(s.recs, op.path, kind);
  }

  lemma DeletionStopped(s: State, op: Op, k: nat, s': State)
    requires Valid(s) && Arguments(op) && (op.Rmdir? || op.Remove?)
    requires CommittedTo(s, TableFor(s.recs, op), k, s')
    ensures Stopped(s, op, k, s')
  {
    if op.Rmdir? {
      RmdirRefines(s, op.path);
      RmdirKeepsTree(s.recs, op.path);
    } else {
      RemoveRefines(s, op.path);
      RemoveKeepsTree(s.recs, op.path);
    }
  }

  lemma WriteStopped(s: State, path: string, data: seq<Byte>, append: bool, n: int, w: State, k: nat, s': State)
    requires Valid(s) && PathArg(path) && n == FileSlot(s.recs, path) && n != -1 && w == Written(s, n, data, append) && s.backed
    requires s'.recs == w.recs && s'.ram == w.ram && s'.backed
    requires if n == 63 then s' == w else k <= 2 * META_SECTORS && s'.disk == CrashDisk(s, w, n, k)
    ensures Stopped(s, Op.Write(path, data, append), k, s')
  {
    FoundInTree(s, path);
    WriteData(s, path, data, append);
  }

  /** A copy or a move that has stopped in the read, the touch or the write. */
  lemma StoppedReading(s: State, source: string, target: string, tail: seq<Op>, k: nat, s': State)
    requires Valid(s) && PathArg(source) && PathArg(target) && AllSingle(tail) && Stopped(s, Op.Read(source, CONTENT_MAX), k, s')
    ensures StoppedIn(s, CopyParts(s, source, target, tail), 0, k, s')
  {
    CopySteps(s, source, target, tail);
  }

  lemma StoppedTouching(s: State, source: string, target: string, tail: seq<Op>, s1: State, k: nat, s': State)
    requires Valid(s) && PathArg(source) && PathArg(target) && AllSingle(tail)
    requires Valid(s1) && ReadS(s, source, CONTENT_MAX).0.Some? && s1 == ReadS(s, source, CONTENT_MAX).1 && Stopped(s1, Op.Touch(target), k, s')
    ensures StoppedIn(s, CopyParts(s, source, target, tail), 1, k, s')
  {
    CopySteps(s, source, target, tail);
  }

  lemma StoppedWriting(s: State, source: string, target: string, tail: seq<Op>, bytes: seq<Byte>, s1: State, s2: State, k: nat, s': State)
    requires Valid(s) && PathArg(source) && PathArg(target) && AllSingle(tail)
    requires Valid(s1) && Valid(s2) && (Some(bytes), s1) == ReadS(s, source, CONTENT_MAX) && (true, s2) == TouchS(s1, target)
    requires Stopped(s2, Op.Write(target, bytes, false), k, s')
    ensures StoppedIn(s, CopyParts(s, source, target, tail), 2, k, s')
  {
    CopySteps(s, source, target, tail);
  }

  /** What has stopped a copy has stopped the move it is the beginning of. */
  lemma StoppedCopy(s: State, source: string, target: string, part: nat, k: nat, s': State)
    requires Valid(s) && PathArg(source) && PathArg(target)
    requires StoppedIn(s, CopyParts(s, source, target, []), part, k, s')
    ensures StoppedIn(s, Parts(s, Op.Move(source, target)), part, k, s')
  {
    LongerStopped(s, source, target, if CopyS(s, source, target).0 then [Op.Remove(source)] else [], part, k, s');
  }

  lemma LongerStopped(s: State, source: string, target: string, tail: seq<Op>, part: nat, k: nat, s': State)
    requires Valid(s) && PathArg(source) && PathArg(target) && AllSingle(tail)
    requires StoppedIn(s, CopyParts(s, source, target, []), part, k, s')
    ensures StoppedIn(s, CopyParts(s, source, target, tail), part, k, s')
  {
    CopySteps(s, source, target, []);
    CopySteps(s, source, target, tail);
  }

  lemma StoppedRemoving(s: State, source: string, target: string, s1: State, k: nat, s': State)
    requires Valid(s) && PathArg(source) && PathArg(target) && Valid(s1) && (true, s1) == CopyS(s, source, target)
    requires Stopped(s1, Op.Remove(source), k, s')
    ensures StoppedIn(s, Parts(s, Op.Move(source, target)), 3, k, s')
  {
    CopySteps(s, source, target, [Op.Remove(source)]);
  }

  // ---------- what a reboot finds ----------

  /** A refused call, or a read, leaves the disk alone. */
  lemma DiskLeftAlone(s: State, op: Op, s': State)
    requires Good(s) && s.backed && Single(op) && Arguments(op) && Refused(s, op, s')
    ensures s'.disk == s.disk
  {
    match op {
      case Mkdir(p) => MkdirRefines(s, p);
      case Touch(p) => TouchRefines(s, p);
      case Rmdir(p) => RmdirRefines(s, p);
      case Remove(p) => RemoveRefines(s, p);
      case Read(p, capacity) => ReadEffect(s, p, capacity);
      case Write(p, data, append) => FileAtSlot(s, p);
      case _ =>
    }
  }

  /** The disk after a failed call is one that a crash inside it leaves. */
  lemma StoppedIsCrash(s: State, op: Op, k: nat, s': State, memory: seq<Block>) returns (n: nat)
    requires Good(s) && s.backed && Single(op) && Arguments(op) && |memory| == FILE_MAX && Stopped(s, op, k, s')
    ensures n <= SectorWrites(Abs(s), op) && |s'.disk| == DISK_SECTORS && DataSlot(s, op) <= 62
    ensures s'.disk == CrashDisk(s, StepS(s, op).1, DataSlot(s, op), n)
  {
    WritesMeet(s, op);
    if CutOff(s, op, k, s') {
      n := k;
    } else {
      n := 0;
      if Refused(s, op, s') {
        DiskLeftAlone(s, op, s');
      }
    }
  }

  /** After a failed call, the mount finds what it finds after a crash in the same part. */
  lemma StoppedInIsCrash(s: State, parts: seq<Op>, part: nat, k: nat, s': State, memory: seq<Block>) returns (n: nat)
    requires Ready(s, {}) && |memory| == FILE_MAX && AllSingle(parts) && AllSafe(s, parts) && StoppedIn(s, parts, part, k, s')
    ensures CutsPart(s, parts, part, n) && |s'.disk| == DISK_SECTORS && Mountable(s'.disk)
    ensures CrashS(Before(s, parts, part), parts[part], n, memory) == Some(Mounted(s'.disk, memory, true))
  {
    var b := Before(s, parts, part);
    ReadyBefore(s, parts, part, b);
    n := StoppedIsCrash(b, parts[part], k, s', memory);
    var events := CrashRefines(b, parts[part], n, memory);
  }

  /**
   * After a call that failed, whichever of its sectors the drive took, a reboot succeeds, and finds
   * what a crash inside the call leaves: some of its parts done, and the next one done, not done, or
   * an overwrite cut after some sectors.
   */
  lemma FailedCallExplained(s: State, op: Op, part: nat, k: nat, s': State, memory: seq<Block>) returns (n: nat, events: seq<Event>)
    requires Ready(s, {}) && |memory| == FILE_MAX && Arguments(op) && Safe(s, op) && StoppedIn(s, Parts(s, op), part, k, s')
    ensures CutsPart(s, Parts(s, op), part, n) && ExplainsPart(s, Parts(s, op), part, n, memory, events)
    ensures |s'.disk| == DISK_SECTORS && Mountable(s'.disk)
    ensures var r := Mounted(s'.disk, memory, true); Ready(r, {}) && Abs(r) == HistoryTree(Abs(s), events).1
  {
    PartsSafe(s, op);
    n := StoppedInIsCrash(s, Parts(s, op), part, k, s', memory);
    events := PartCrashRefines(s, Parts(s, op), part, n, memory);
  }

  /** After a move that the drive made fail, a reboot finds the file at the source or at the target. */
  lemma FailedMoveKeepsFile(s: State, source: string, target: string, part: nat, k: nat, s': State, memory: seq<Block>)
    requires Moving(s, source, target) && |memory| == FILE_MAX
    requires StoppedIn(s, Parts(s, Op.Move(source, target)), part, k, s')
    ensures |s'.disk| == DISK_SECTORS && Mountable(s'.disk)
    ensures var r := Mounted(s'.disk, memory, true);
            Ready(r, {}) && Kept(Abs(s), Abs(r), Resolve("/", source).value, Resolve("/", target).value)
  {
    WarmAtFirst(s);
    MovingRoom(s, source, target);
    PartsSafe(s, Op.Move(source, target));
    var n := StoppedInIsCrash(s, Parts(s, Op.Move(source, target)), part, k, s', memory);
    MoveCrashKeepsFile(s, source, target, part, n, memory);
  }
}
