/** Updates whose records do not reach the disk in full: one failure is harmless, two in a row need not be. */
module FailedPersists {
  import opened CStrings
  import opened Paths
  import opened Table
  import opened Layout
  import opened FileSystem
  import opened Refinement
  import opened Runs
  import opened Recovery
  import opened FailedCalls

  /** An update of the records of which the first k sectors reach the disk, and not all. */
  datatype Attempt = Attempt(op: Op, k: nat)

  predicate Possible(a: Attempt) {
    UpdatesRecords(a.op) && Arguments(a.op) && a.k < META_SECTORS
  }

  predicate AllPossible(attempts: seq<Attempt>) {
    forall i :: 0 <= i < |attempts| ==> Possible(attempts[i])
  }

  /** The records that an update puts in place, in memory. */
  ghost function NewTable(t: Table, op: Op): (u: Option<Table>)
    requires TreeInv(t) && UpdatesRecords(op) && Arguments(op)
    ensures u.Some? ==> TreeInv(u.value)
  {
    CreateKeepsTree(t, op.path, DIRECTORY);
    CreateKeepsTree(t, op.path, FILE);
    RmdirKeepsTree(t, op.path);
    RemoveKeepsTree(t, op.path);
    if op.Touch? && FindPath(t, op.path) >= 0 then None else TableFor(t, op)
  }

  /** The state after a failed attempt: the records are changed in memory, and partly on the disk. */
  ghost function AttemptS(s: State, a: Attempt): (s': State)
    requires Valid(s) && Possible(a)
    ensures Valid(s') && s'.backed == s.backed
  {
    match NewTable(s.recs, a.op)
    case None => s
    case Some(t) => State(t, s.ram, Next(s.generation), s.backed, Put(s.disk, META_LBA, Image(t, Next(s.generation)), a.k))
  }

  ghost function AttemptsS(s: State, attempts: seq<Attempt>): (s': State)
    requires Valid(s) && AllPossible(attempts)
    ensures Valid(s') && s'.backed == s.backed
    decreases |attempts|
  {
    if attempts == [] then s else AttemptsS(AttemptS(s, attempts[0]), attempts[1..])
  }

  /** The next mount finds records that form a tree. */
  ghost predicate MountsToTree(s: State, ram: seq<Block>)
    requires Valid(s) && |ram| == FILE_MAX
  {
    Mountable(s.disk) && Valid(Mounted(s.disk, ram, true))
  }

  // ---------- one failure ----------

  /** The records in memory differ in one slot from those before. */
  lemma NewTableUpdates(s: State, op: Op)
    requires Valid(s) && UpdatesRecords(op) && Arguments(op) && NewTable(s.recs, op).Some?
    ensures OneUpdate(s.recs, NewTable(s.recs, op).value)
  {
    var t, t' := s.recs, NewTable(s.recs, op).value;
    match op {
      case Mkdir(p) => CreateUpdates(s, p, DIRECTORY);
      case Touch(p) => CreateUpdates(s, p, FILE);
      case Rmdir(p) => assert UpdateAt(t, t', FindPath(t, p));
      case Remove(p) => assert UpdateAt(t, t', FindPath(t, p));
    }
  }

  lemma OneFailure(s: State, a: Attempt, ram: seq<Block>)
    requires Ready(s, {}) && Possible(a) && |ram| == FILE_MAX
    ensures MountsToTree(AttemptS(s, a), ram)
  {
    if NewTable(s.recs, a.op).None? {
      RemountRestores(s, ram);
    } else {
      NewTableUpdates(s, a.op);
      TornMount(s, NewTable(s.recs, a.op).value, s.disk, Next(s.generation), a.k, ram);
    }
  }

  lemma UpToOne(s: State, attempts: seq<Attempt>, ram: seq<Block>)
    requires Ready(s, {}) && AllPossible(attempts) && |attempts| <= 1 && |ram| == FILE_MAX
    ensures MountsToTree(AttemptsS(s, attempts), ram)
  {
    if attempts == [] {
      RemountRestores(s, ram);
    } else {
      OneFailure(s, attempts[0], ram);
      assert AttemptsS(s, attempts) == AttemptS(s, attempts[0]);
    }
  }

  // ---------- two failures ----------

  const D: Path := ["d"]
  const F: Path := ["d", "f"]

  lemma Texts()
    ensures Canonical(D) && PathArg(Render(D)) && Resolve("/", Render(D)) == Some(D) && |Render(D)| <= PATH_MAX
    ensures Canonical(F) && PathArg(Render(F)) && Resolve("/", Render(F)) == Some(F) && |Render(F)| <= PATH_MAX
  {
    assert D[..0] == [] && F[..1] == D;
    assert |Join(D)| == 2 && |Join(F)| == 4;
    RenderIsCString(D);
    RenderIsCString(F);
    ResolveRender("/", D);
    ResolveRender("/", F);
    ArgumentLength(4);
  }

  /** A directory in slot 1, and a file below it in slot 12, whose record is in the second sector. */
  function Low(): Table { Formatted()[1 := NewRecord("d", 0, DIRECTORY, 1)] }

  function Both(): Table { Low()[12 := NewRecord("f", 1, FILE, 12)] }

  lemma LowTree(t: Table)
    requires t == Low()
    ensures TreeInv(t) && PathOf(t, 1) == D && forall i :: 0 <= i < FILE_MAX ==> (Live(t, i) <==> i <= 1)
  {
    Texts();
    LookupRoot(Formatted());
    LookupCorrect(Formatted(), D);
    AddedKeepsTree(Formatted(), D, 1, DIRECTORY);
  }

  lemma BothTree(t: Table)
    requires t == Both()
    ensures TreeInv(t) && PathOf(t, 1) == D && PathOf(t, 12) == F
    ensures forall i :: 0 <= i < FILE_MAX ==> (Live(t, i) <==> i <= 1 || i == 12)
  {
    Texts();
    LowTree(Low());
    LowLookups(Low());
    AddedKeepsTree(Low(), F, 12, FILE);
  }

  lemma LowLookups(t: Table)
    requires TreeInv(t) && PathOf(t, 1) == D && forall i :: 0 <= i < FILE_MAX ==> (Live(t, i) <==> i <= 1)
    ensures Lookup(t, F) == -1 && Lookup(t, F[..1]) == 1
  {
    PathOfCanonical(t, 0);
    LookupCorrect(t, F);
    LookupCorrect(t, D);
    assert F[..1] == D;
  }

  lemma LookupRoot(t: Table)
    requires TreeInv(t)
    ensures Lookup(t, []) == 0
  {
    PathOfCanonical(t, 0);
    LookupCorrect(t, []);
  }

  /** Both records in use, on a disk that is up to date. */
  ghost function Start(disk: seq<Sector>, ram: seq<Block>): State
    requires |disk| == DISK_SECTORS
  {
    BothTree(Both());
    Persisted(State(Both(), ram, 0, true, disk))
  }

  lemma StartReady(disk: seq<Sector>, ram: seq<Block>)
    requires |disk| == DISK_SECTORS && |ram| == FILE_MAX
    ensures Ready(Start(disk, ram), {}) && Start(disk, ram).recs == Both()
  {
    BothTree(Both());
    var w := State(Both(), ram, 0, true, disk);
    PersistedSynced(w);
    PersistedData(w);
    WarmAtFirst(Persisted(w));
  }

  /** Remove the file, then the directory; each time only the first sector is written. */
  function Deletions(): seq<Attempt> { [Attempt(Op.Remove(Render(F)), 1), Attempt(Op.Rmdir(Render(D)), 1)] }

  lemma DeletionTables(t: Table)
    requires t == Both()
    ensures PathArg(Render(D)) && PathArg(Render(F)) && TreeInv(t) && TreeInv(Freed(t, 12))
    ensures NewTable(t, Op.Remove(Render(F))) == Some(Freed(t, 12))
    ensures NewTable(Freed(t, 12), Op.Rmdir(Render(D))) == Some(Freed(Freed(t, 12), 1))
  {
    Texts();
    BothTree(t);
    RemoveFile(t, Render(F));
    FileChildless(t, 12);
    FreedKeepsTree(t, 12);
    RemoveDirectory(Freed(t, 12), Render(D));
  }

  lemma RemoveFile(t: Table, path: string)
    requires TreeInv(t) && PathArg(path) && Resolve("/", path) == Some(F) && IsFile(t, 12) && PathOf(t, 12) == F
    ensures NewTable(t, Op.Remove(path)) == Some(Freed(t, 12))
  {
    LookupCorrect(t, F);
  }

  lemma RemoveDirectory(t: Table, path: string)
    requires TreeInv(t) && PathArg(path) && Resolve("/", path) == Some(D) && IsDir(t, 1) && PathOf(t, 1) == D && Childless(t, 1)
    ensures NewTable(t, Op.Rmdir(path)) == Some(Freed(t, 1))
  {
    LookupCorrect(t, D);
  }

  /** What is then on the disk: the first sector of the last image, and the others as they were at first. */
  lemma TwiceTorn(disk: seq<Sector>, a: seq<Byte>, b: seq<Byte>, c: seq<Byte>)
    requires |disk| == DISK_SECTORS && |a| == META_BYTES && |b| == META_BYTES && |c| == META_BYTES && Get(disk, META_LBA) == a
    ensures Get(Put(Put(disk, META_LBA, b, 1), META_LBA, c, 1), META_LBA) == Torn(c, a, 1)
  {
    GetPut(disk, META_LBA, b, 1);
    GetPut(Put(disk, META_LBA, b, 1), META_LBA, c, 1);
    assert (b[..SECTOR] + a[SECTOR..])[SECTOR..] == a[SECTOR..];
  }

  lemma AttemptTwo(s: State, a: Attempt, b: Attempt)
    requires Valid(s) && Possible(a) && Possible(b)
    ensures AttemptsS(s, [a, b]) == AttemptS(AttemptS(s, a), b)
  {
    assert [a, b][1..] == [b] && [b][1..] == [];
    assert AttemptsS(AttemptS(AttemptS(s, a), b), []) == AttemptS(AttemptS(s, a), b);
  }

  /** The file's record is found in use, and its directory's is not. */
  lemma OrphanFound(t: Table, u: Table, g: nat, g': nat)
    requires Encodable(t) && Encodable(u) && g < WORD && g' < WORD
    requires Live(t, 12) && t[12].parent == 1 && !Live(u, 1)
    ensures !TreeInv(DecodeTable(Torn(Image(u, g'), Image(t, g), 1)))
  {
    var c := DecodeTable(Torn(Image(u, g'), Image(t, g), 1));
    CrashBetweenSectors(t, u, g, g', 1, 1);
    CrashBetweenSectors(t, u, g, g', 1, 12);
    if TreeInv(c) {
      PathOfChild(c, 12);
    }
  }

  /** After these two failures the next mount finds a file whose directory is not in use. */
  lemma TwoFailures(disk: seq<Sector>, ram: seq<Block>)
    requires |disk| == DISK_SECTORS && |ram| == FILE_MAX
    ensures Ready(Start(disk, ram), {}) && AllPossible(Deletions())
    ensures !MountsToTree(AttemptsS(Start(disk, ram), Deletions()), ram)
  {
    StartReady(disk, ram);
    DeletionTables(Both());
    var s, t, u, v := Start(disk, ram), Both(), Freed(Both(), 12), Freed(Freed(Both(), 12), 1);
    AttemptTwo(s, Deletions()[0], Deletions()[1]);
    TwiceTorn(s.disk, Image(t, s.generation), Image(u, Next(s.generation)), Image(v, Next(Next(s.generation))));
    OrphanMounted(AttemptsS(s, Deletions()), t, v, s.generation, Next(Next(s.generation)), ram);
  }

  lemma OrphanMounted(s: State, t: Table, u: Table, g: nat, g': nat, ram: seq<Block>)
    requires Valid(s) && |ram| == FILE_MAX && Encodable(t) && Encodable(u) && g < WORD && g' < WORD
    requires Live(t, 12) && t[12].parent == 1 && !Live(u, 1)
    requires Get(s.disk, META_LBA) == Torn(Image(u, g'), Image(t, g), 1)
    ensures !MountsToTree(s, ram)
  {
    OrphanFound(t, u, g, g');
    TornMagic(t, u, g, g', 1);
    MagicInFirstSector(s.disk);
  }

  /**
   * How many updates may fail in a row, without one that succeeds, so that the next mount still
   * finds a tree whatever they were and wherever they stopped: one, and no more.
   */
  lemma FailuresTolerated(n: nat)
    ensures (forall s, attempts, ram :: Ready(s, {}) && AllPossible(attempts) && |attempts| <= n && |ram| == FILE_MAX ==>
               MountsToTree(AttemptsS(s, attempts), ram))
            <==> n <= 1
  {
    if n <= 1 {
      forall s, attempts, ram | Ready(s, {}) && AllPossible(attempts) && |attempts| <= n && |ram| == FILE_MAX
        ensures MountsToTree(AttemptsS(s, attempts), ram)
      {
        UpToOne(s, attempts, ram);
      }
    } else {
      var sector: Sector := seq(SECTOR, _ => 0);
      var block: Block := seq(CONTENT_MAX, _ => 0);
      var disk, ram := seq(DISK_SECTORS, _ => sector), seq(FILE_MAX, _ => block);
      TwoFailures(disk, ram);
      assert |Deletions()| <= n;
    }
  }

  /** An update that succeeds makes up for all failures before it. */
  lemma SuccessHeals(s: State, attempts: seq<Attempt>, op: Op, ram: seq<Block>)
    requires Valid(s) && s.backed && AllPossible(attempts) && UpdatesRecords(op) && Arguments(op) && |ram| == FILE_MAX
    requires NewTable(AttemptsS(s, attempts).recs, op).Some?
    ensures var s' := StepS(AttemptsS(s, attempts), op).1; Synced(s') && MountsToTree(s', ram)
  {
    var s1 := AttemptsS(s, attempts);
    var w := s1.(recs := NewTable(s1.recs, op).value);
    PersistedSynced(w);
    assert StepS(s1, op).1 == Persisted(w);
    RemountRestores(Persisted(w), ram);
  }
}
