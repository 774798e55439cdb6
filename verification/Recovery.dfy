/** What the next mount finds: after a clean shutdown, and after a crash between any two sector writes. */
module Recovery {
  import opened CStrings
  import opened Paths
  import opened Table
  import opened Layout
  import opened FileSystem
  import opened Refinement
  import opened Runs

  /** The records on the disk are those in memory. */
  ghost predicate Synced(s: State)
    requires Valid(s)
  {
    s.backed ==> Get(s.disk, META_LBA) == Image(s.recs, s.generation)
  }

  lemma PersistedSynced(s: State)
    requires Valid(s)
    ensures Valid(Persisted(s)) && Synced(Persisted(s))
  {
    if s.backed {
      var image := Image(s.recs, Next(s.generation));
      GetPut(s.disk, META_LBA, image, META_SECTORS);
      assert image[..META_BYTES] + Get(s.disk, META_LBA)[META_BYTES..] == image;
    }
  }

  // ---------- every operation leaves the disk up to date ----------

  lemma CommitSynced(s: State, t: Option<Table>)
    requires Valid(s) && Synced(s) && (t.Some? ==> TreeInv(t.value))
    ensures Valid(Commit(s, t).1) && Synced(Commit(s, t).1)
  {
    if t.Some? {
      PersistedSynced(s.(recs := t.value));
    }
  }

  lemma WriteSynced(s: State, path: string, data: seq<Byte>, append: bool)
    requires Valid(s) && Synced(s) && !(s.backed && FileSlot(s.recs, path) == 63)
    ensures Synced(WriteS(s, path, data, append).1)
  {
    var n := FileSlot(s.recs, path);
    if n != -1 && s.backed {
      var w := Written(s, n, data, append);
      PersistedSynced(w.(disk := Put(s.disk, SlotLba(n), w.ram[n], META_SECTORS)));
    }
  }

  lemma TouchSynced(s: State, path: string)
    requires Valid(s) && Synced(s) && PathArg(path)
    ensures Synced(TouchS(s, path).1)
  {
    CreateKeepsTree(s.recs, path, FILE);
    CommitSynced(s, CreateT(s.recs, path, FILE));
  }

  lemma RemoveSynced(s: State, path: string)
    requires Valid(s) && Synced(s)
    ensures Synced(RemoveS(s, path).1)
  {
    RemoveKeepsTree(s.recs, path);
    CommitSynced(s, RemoveT(s.recs, path));
  }

  lemma CopySynced(s: State, source: string, target: string)
    requires Good(s) && Synced(s) && PathArg(source) && PathArg(target)
    requires FileAt(Abs(s), source) != {} ==> HasRoom(s, target)
    ensures Synced(CopyS(s, source, target).1)
  {
    var (bytes, s1) := ReadS(s, source, CONTENT_MAX);
    ReadEffect(s, source, CONTENT_MAX);
    ReadAll(s, source);
    if bytes.Some? {
      PasteSynced(s1, bytes.value, target);
    }
  }

  lemma PasteSynced(s: State, bytes: seq<Byte>, target: string)
    requires Good(s) && Synced(s) && PathArg(target) && HasRoom(s, target)
    ensures var (ok, s1) := TouchS(s, target);
            Synced(s1) && (ok ==> Synced(WriteS(s1, target, bytes, false).1))
  {
    TouchSynced(s, target);
    TouchGood(s, target);
    WriteSynced(TouchS(s, target).1, target, bytes, false);
  }

  lemma MoveSynced(s: State, source: string, target: string)
    requires Good(s) && Synced(s) && PathArg(source) && PathArg(target)
    requires FileAt(Abs(s), source) != {} ==> HasRoom(s, target)
    ensures Synced(MoveS(s, source, target).1)
  {
    CopySynced(s, source, target);
    RemoveSynced(CopyS(s, source, target).1, source);
  }

  lemma UpdateSynced(s: State, op: Op)
    requires Valid(s) && Synced(s) && Arguments(op) && (op.Mkdir? || op.Touch? || op.Rmdir? || op.Remove?)
    ensures Synced(StepS(s, op).1)
  {
    match op {
      case Mkdir(p) => CreateKeepsTree(s.recs, p, DIRECTORY); CommitSynced(s, CreateT(s.recs, p, DIRECTORY));
      case Touch(p) => TouchSynced(s, p);
      case Rmdir(p) => RmdirKeepsTree(s.recs, p); CommitSynced(s, RmdirT(s.recs, p));
      case Remove(p) => RemoveSynced(s, p);
    }
  }

  /** Whatever the operation, the disk carries the records it left. */
  lemma StepSynced(s: State, op: Op)
    requires Good(s) && Synced(s) && Arguments(op) && Placed(s, op)
    ensures Synced(StepS(s, op).1)
  {
    match op {
      case Stat(p) =>
      case List(p) =>
      case Read(p, capacity) => ReadEffect(s, p, capacity);
      case Write(p, data, append) => WriteSynced(s, p, data, append);
      case Copy(p, target) => CopySynced(s, p, target);
      case Move(p, target) => MoveSynced(s, p, target);
      case _ => UpdateSynced(s, op);
    }
  }

  // ---------- mounting ----------

  /** A mount can decode what the disk carries. */
  ghost predicate Mountable(disk: seq<Sector>)
    requires |disk| == DISK_SECTORS
  {
    HasMagic(disk[META_LBA]) ==> Encodable(DecodeTable(Get(disk, META_LBA)))
  }

  lemma MagicInFirstSector(disk: seq<Sector>)
    requires |disk| == DISK_SECTORS
    ensures HasMagic(disk[META_LBA]) <==> HasMagic(Get(disk, META_LBA))
  {
    assert disk[META_LBA][..4] == Get(disk, META_LBA)[..4];
  }

  /**
   * Mount round trip: mounting the disk again restores the records, and with them every path and
   * the bytes of every file that has sectors; the generation moves on by one.
   */
  lemma RemountRestores(s: State, ram: seq<Block>)
    requires Valid(s) && s.backed && Synced(s) && |ram| == FILE_MAX
    ensures Mountable(s.disk)
    ensures var s' := Mounted(s.disk, ram, true);
            && Valid(s') && Synced(s') && s'.recs == s.recs && s'.generation == Next(s.generation)
            && OthersKept(s, s', 63)
            && (!IsFile(s.recs, 63) ==> Abs(s') == Abs(s))
  {
    MagicInFirstSector(s.disk);
    ImageRoundTrip(s.recs, s.generation);
    var w := State(s.recs, ram, s.generation, true, s.disk);
    assert Mounted(s.disk, ram, true) == Persisted(w);
    RemountedNodes(s, w);
  }

  lemma RemountedNodes(s: State, w: State)
    requires Valid(s) && s.backed && Valid(w) && w == s.(ram := w.ram)
    ensures Valid(Persisted(w)) && Synced(Persisted(w)) && OthersKept(s, Persisted(w), 63)
    ensures !IsFile(s.recs, 63) ==> Abs(Persisted(w)) == Abs(s)
  {
    PersistedSynced(w);
    PersistedData(w);
    if !IsFile(s.recs, 63) {
      KindOfNode(s, 63);
      KindOfNode(w, 63);
      if Live(s.recs, 63) {
        LiveFacts(s.recs, 63);
      }
      TreeSame(s, Persisted(w));
    }
  }

  // ---------- generations ----------

  /** How often a successful operation persists the records. */
  function Updates(m: Tree, op: Op): nat {
    match op
    case Mkdir(p) => if MakeTree(m, p, Dir).0 then 1 else 0
    case Touch(p) => if MadeAt(m, p) != {} then 1 else 0
    case Rmdir(p) => if RmdirTree(m, p).0 then 1 else 0
    case Remove(p) => if RemoveTree(m, p).0 then 1 else 0
    case Stat(_) => 0
    case List(_) => 0
    case Read(_, _) => 0
    case Write(p, _, _) => if FileAt(m, p) != {} then 1 else 0
    case Copy(p, target) => CopyUpdates(m, p, target)
    case Move(p, target) => CopyUpdates(m, p, target) + if CopyTree(m, p, target).0 then 1 else 0
  }

  function CopyUpdates(m: Tree, source: string, target: string): nat {
    if FileAt(m, source) == {} then 0 else if MadeAt(m, target) != {} then 2 else if FileAt(m, target) != {} then 1 else 0
  }

  /** n persists take the generation from g to g', wrapping k times. */
  predicate Counts(g: nat, n: nat, k: nat, g': nat) {
    g' < WORD && g' + k * WORD == g + n
  }

  /** So the generation grows until it wraps, and is the sum modulo 2^32. */
  lemma CountsMeaning(g: nat, n: nat, k: nat, g': nat)
    requires Counts(g, n, k, g')
    ensures g' == (g + n) % WORD && (g + n < WORD ==> g' == g + n)
  {
  }

  lemma NextCounts(g: nat) returns (k: nat)
    requires g < WORD
    ensures Counts(g, 1, k, Next(g))
  {
    k := if g == WORD - 1 then 1 else 0;
  }

  lemma TouchGeneration(s: State, path: string) returns (k: nat)
    requires Valid(s) && PathArg(path) && s.backed
    ensures Counts(s.generation, if MadeAt(Abs(s), path) != {} then 1 else 0, k, TouchS(s, path).1.generation)
  {
    FoundInTree(s, path);
    CreateAllowed(s, path, FILE);
    k := 0;
    if MadeAt(Abs(s), path) != {} {
      k := NextCounts(s.generation);
    }
  }

  lemma WriteGeneration(s: State, path: string, data: seq<Byte>, append: bool) returns (k: nat)
    requires Good(s) && s.backed
    ensures Counts(s.generation, if FileAt(Abs(s), path) != {} then 1 else 0, k, WriteS(s, path, data, append).1.generation)
  {
    FileAtSlot(s, path);
    k := 0;
    if FileSlot(s.recs, path) != -1 {
      k := NextCounts(s.generation);
    }
  }

  lemma PasteGeneration(s: State, bytes: seq<Byte>, target: string) returns (k: nat)
    requires Good(s) && s.backed && PathArg(target) && HasRoom(s, target)
    ensures var m, (ok, s1) := Abs(s), TouchS(s, target);
            var s2 := if ok then WriteS(s1, target, bytes, false).1 else s1;
            Counts(s.generation, if MadeAt(m, target) != {} then 2 else if FileAt(m, target) != {} then 1 else 0, k, s2.generation)
  {
    var (ok, s1) := TouchS(s, target);
    k := TouchGeneration(s, target);
    TouchGood(s, target);
    TouchRefines(s, target);
    if ok {
      var l := WriteGeneration(s1, target, bytes, false);
      k := k + l;
    }
  }

  lemma CopyGeneration(s: State, source: string, target: string) returns (k: nat)
    requires Good(s) && s.backed && PathArg(source) && PathArg(target)
    requires FileAt(Abs(s), source) != {} ==> HasRoom(s, target)
    ensures Counts(s.generation, CopyUpdates(Abs(s), source, target), k, CopyS(s, source, target).1.generation)
  {
    var (bytes, s1) := ReadS(s, source, CONTENT_MAX);
    ReadEffect(s, source, CONTENT_MAX);
    ReadAll(s, source);
    k := 0;
    if bytes.Some? {
      k := PasteGeneration(s1, bytes.value, target);
    }
  }

  lemma RemoveGeneration(s: State, path: string) returns (k: nat)
    requires Valid(s) && s.backed
    ensures Counts(s.generation, if FileAt(Abs(s), path) != {} then 1 else 0, k, RemoveS(s, path).1.generation)
  {
    RemoveRefines(s, path);
    k := 0;
    if FileAt(Abs(s), path) != {} {
      k := NextCounts(s.generation);
    }
  }

  /** The removal that ends a move. */
  lemma LastGeneration(m: Tree, s: State, source: string, target: string) returns (k: nat)
    requires Valid(s) && s.backed && CopyTree(m, source, target) == (true, Abs(s))
    ensures Counts(s.generation, 1, k, RemoveS(s, source).1.generation)
  {
    k := RemoveGeneration(s, source);
  }

  lemma CountsAdd(g: nat, a: nat, k: nat, g1: nat, b: nat, l: nat, g2: nat)
    requires Counts(g, a, k, g1) && Counts(g1, b, l, g2)
    ensures Counts(g, a + b, k + l, g2)
  {
  }

  lemma MoveGeneration(s: State, source: string, target: string) returns (k: nat)
    requires Good(s) && s.backed && PathArg(source) && PathArg(target)
    requires FileAt(Abs(s), source) != {} ==> HasRoom(s, target)
    ensures Counts(s.generation, CopyUpdates(Abs(s), source, target) + (if CopyTree(Abs(s), source, target).0 then 1 else 0), k,
                   MoveS(s, source, target).1.generation)
  {
    CopyRefines(s, source, target);
    var (ok, s1) := CopyS(s, source, target);
    k := CopyGeneration(s, source, target);
    if ok {
      var l := LastGeneration(Abs(s), s1, source, target);
      CountsAdd(s.generation, CopyUpdates(Abs(s), source, target), k, s1.generation, 1, l, RemoveS(s1, source).1.generation);
      k := k + l;
    }
  }

  lemma UpdateGeneration(s: State, op: Op) returns (k: nat)
    requires Valid(s) && s.backed && Arguments(op) && (op.Mkdir? || op.Rmdir?)
    ensures Counts(s.generation, Updates(Abs(s), op), k, StepS(s, op).1.generation)
  {
    match op {
      case Mkdir(p) => MkdirRefines(s, p);
      case Rmdir(p) => RmdirRefines(s, p);
    }
    k := NextCounts(s.generation);
    k := if Updates(Abs(s), op) == 1 then k else 0;
  }

  lemma StepGeneration(s: State, op: Op) returns (k: nat)
    requires Good(s) && s.backed && Arguments(op) && Placed(s, op)
    ensures Counts(s.generation, Updates(Abs(s), op), k, StepS(s, op).1.generation)
  {
    match op {
      case Touch(p) => k := TouchGeneration(s, p);
      case Remove(p) => k := RemoveGeneration(s, p);
      case Stat(p) => k := 0;
      case List(p) => k := 0;
      case Read(p, capacity) => ReadEffect(s, p, capacity); k := 0;
      case Write(p, data, append) => k := WriteGeneration(s, p, data, append);
      case Copy(p, target) => k := CopyGeneration(s, p, target);
      case Move(p, target) => k := MoveGeneration(s, p, target);
      case _ => k := UpdateGeneration(s, op);
    }
  }

  // ---------- whole histories: operations and reboots ----------

  /** A call, or a reboot after which memory holds whatever it holds. */
  datatype Event = Call(op: Op) | Reboot(memory: seq<Block>)

  predicate Legal(e: Event) {
    match e
    case Call(op) => Arguments(op)
    case Reboot(memory) => |memory| == FILE_MAX
  }

  predicate AllLegal(events: seq<Event>) {
    forall i :: 0 <= i < |events| ==> Legal(events[i])
  }

  /** The replies and the state after an event; None if the disk cannot be mounted. */
  ghost function EventS(s: State, e: Event): (r: Option<(seq<Reply>, State)>)
    requires Valid(s) && Legal(e)
    ensures r.Some? ==> Valid(r.value.1)
  {
    match e
    case Call(op) => var (reply, s') := StepS(s, op); Some(([reply], s'))
    case Reboot(memory) =>
      if Mountable(s.disk) && Valid(Mounted(s.disk, memory, true)) then Some(([], Mounted(s.disk, memory, true))) else None
  }

  function EventTree(m: Tree, e: Event): (seq<Reply>, Tree) {
    match e
    case Call(op) => var (reply, m') := StepTree(m, op); ([reply], m')
    case Reboot(_) => ([], m)
  }

  predicate EventFine(m: Tree, w: set<Path>, e: Event) {
    e.Call? ==> Fine(m, w, e.op)
  }

  /** A reboot forgets what memory held. */
  function EventWarm(m: Tree, w: set<Path>, e: Event): set<Path> {
    match e
    case Call(op) => Warmed(m, w, op)
    case Reboot(_) => {}
  }

  /** A mount persists once. */
  function EventUpdates(m: Tree, e: Event): nat {
    match e
    case Call(op) => Updates(m, op)
    case Reboot(_) => 1
  }

  /** A state of a disk-backed mount from which histories go on. */
  ghost predicate Ready(s: State, w: set<Path>) {
    Good(s) && s.backed && Synced(s) && Warm(s, w)
  }

  lemma EventRefines(s: State, w: set<Path>, e: Event) returns (k: nat)
    requires Ready(s, w) && Legal(e) && EventFine(Abs(s), w, e)
    ensures EventS(s, e).Some?
    ensures var (replies, s') := EventS(s, e).value;
            && Ready(s', EventWarm(Abs(s), w, e))
            && (replies, Abs(s')) == EventTree(Abs(s), e)
            && Counts(s.generation, EventUpdates(Abs(s), e), k, s'.generation)
  {
    match e {
      case Call(op) => k := CallRefines(s, w, op);
      case Reboot(memory) =>
        RemountRestores(s, memory);
        WarmAtFirst(Mounted(s.disk, memory, true));
        k := NextCounts(s.generation);
    }
  }

  lemma CallRefines(s: State, w: set<Path>, op: Op) returns (k: nat)
    requires Ready(s, w) && Arguments(op) && Fine(Abs(s), w, op)
    ensures var (reply, s') := StepS(s, op);
            && Ready(s', Warmed(Abs(s), w, op))
            && (reply, Abs(s')) == StepTree(Abs(s), op)
            && Counts(s.generation, Updates(Abs(s), op), k, s'.generation)
  {
    FineIsFaithful(s, op, w);
    StepRefines(s, op);
    StepWarm(s, op, w);
    StepSynced(s, op);
    k := StepGeneration(s, op);
  }

  ghost function History(s: State, events: seq<Event>): (r: Option<(seq<Reply>, State)>)
    requires Valid(s) && AllLegal(events)
    ensures r.Some? ==> Valid(r.value.1)
    decreases |events|
  {
    if events == [] then Some(([], s))
    else
      match EventS(s, events[0])
      case None => None
      case Some((first, s1)) =>
        match History(s1, events[1..])
        case None => None
        case Some((rest, s2)) => Some((first + rest, s2))
  }

  function HistoryTree(m: Tree, events: seq<Event>): (seq<Reply>, Tree)
    decreases |events|
  {
    if events == [] then ([], m)
    else
      var (first, m1) := EventTree(m, events[0]);
      var (rest, m2) := HistoryTree(m1, events[1..]);
      (first + rest, m2)
  }

  predicate HistoryFine(m: Tree, w: set<Path>, events: seq<Event>)
    decreases |events|
  {
    events == [] ||
    (EventFine(m, w, events[0]) && HistoryFine(EventTree(m, events[0]).1, EventWarm(m, w, events[0]), events[1..]))
  }

  function HistoryWarm(m: Tree, w: set<Path>, events: seq<Event>): set<Path>
    decreases |events|
  {
    if events == [] then w else HistoryWarm(EventTree(m, events[0]).1, EventWarm(m, w, events[0]), events[1..])
  }

  function HistoryUpdates(m: Tree, events: seq<Event>): nat
    decreases |events|
  {
    if events == [] then 0 else EventUpdates(m, events[0]) + HistoryUpdates(EventTree(m, events[0]).1, events[1..])
  }

  /**
   * Any number of sessions with reboots between them: every mount succeeds, the replies and the
   * final tree are those of the map from paths to directories and files, which reboots leave alone,
   * and the disk stays up to date.  Each session starts with no file known to be in memory.  The
   * generation counts every update and every mount.
   */
  lemma {:induction false} HistoryRefines(s: State, w: set<Path>, events: seq<Event>) returns (k: nat)
    requires Ready(s, w) && AllLegal(events) && HistoryFine(Abs(s), w, events)
    ensures History(s, events).Some?
    ensures var (replies, s') := History(s, events).value;
            && Ready(s', HistoryWarm(Abs(s), w, events))
            && (replies, Abs(s')) == HistoryTree(Abs(s), events)
            && Counts(s.generation, HistoryUpdates(Abs(s), events), k, s'.generation)
    decreases |events|
  {
    k := 0;
    if events != [] {
      k := EventRefines(s, w, events[0]);
      var l := HistoryRefines(EventS(s, events[0]).value.1, EventWarm(Abs(s), w, events[0]), events[1..]);
      k := k + l;
    }
  }

  // ---------- crashes ----------

  /**
   * The disk when n sector writes have been done on the way from s to s': the eight sectors of the
   * written slot, if any, then the eight sectors of records.
   */
  ghost function CrashDisk(s: State, s': State, slot: int, n: nat): (disk: seq<Sector>)
    requires Valid(s) && Valid(s') && -1 <= slot <= 62 && n <= 2 * META_SECTORS
    ensures |disk| == DISK_SECTORS
  {
    if slot == -1 then Put(s.disk, META_LBA, Image(s'.recs, Next(s.generation)), if n <= META_SECTORS then n else META_SECTORS)
    else if n <= META_SECTORS then Put(s.disk, SlotLba(slot), s'.ram[slot], n)
    else Put(Put(s.disk, SlotLba(slot), s'.ram[slot], META_SECTORS), META_LBA, Image(s'.recs, Next(s.generation)), n - META_SECTORS)
  }

  /** The slot whose data sectors an operation writes first, or -1. */
  function DataSlot(s: State, op: Op): (slot: int)
    ensures -1 <= slot < FILE_MAX
  {
    if op.Write? then FileSlot(s.recs, op.path) else -1
  }

  /** The records before and after differ in one way that a torn write cannot mix up. */
  lemma SingleUpdates(s: State, op: Op)
    requires Valid(s) && Arguments(op) && (op.Mkdir? || op.Touch? || op.Rmdir? || op.Remove? || op.Write?)
    ensures OneUpdate(s.recs, StepS(s, op).1.recs)
  {
    var t, t' := s.recs, StepS(s, op).1.recs;
    match op {
      case Mkdir(p) => CreateUpdates(s, p, DIRECTORY);
      case Touch(p) => CreateUpdates(s, p, FILE); if t == t' { assert UpdateAt(t, t', 0); }
      case Rmdir(p) => var n := FindPath(t, p); assert UpdateAt(t, t', if n <= 0 then 0 else n);
      case Remove(p) => var n := FindPath(t, p); assert UpdateAt(t, t', if n <= 0 then 0 else n);
      case Write(p, data, append) => var n := FileSlot(t, p); assert UpdateAt(t, t', if n == -1 then 0 else n);
    }
  }

  lemma CreateUpdates(s: State, path: string, kind: Byte)
    requires Valid(s) && PathArg(path) && (kind == DIRECTORY || kind == FILE)
    ensures OneUpdate(s.recs, s.recs)
    ensures CreateT(s.recs, path, kind).Some? ==> OneUpdate(s.recs, CreateT(s.recs, path, kind).value)
  {
    var t := s.recs;
    assert UpdateAt(t, t, 0);
    if CreateT(t, path, kind).Some? {
      assert UpdateAt(t, CreateT(t, path, kind).value, FirstFree(t, 1));
    }
  }

  /**
   * The records found after k of the eight metadata sectors, and the tree they give when the
   * slots hold the bytes behind `data`.
   */
  lemma TornMount(s: State, t': Table, disk: seq<Sector>, g': nat, k: nat, ram: seq<Block>)
    requires Valid(s) && s.backed && Synced(s) && |ram| == FILE_MAX && |disk| == DISK_SECTORS
    requires TreeInv(t') && OneUpdate(s.recs, t') && g' < WORD && k <= META_SECTORS
    requires Get(disk, META_LBA) == Get(s.disk, META_LBA)
    ensures var crashed := Put(disk, META_LBA, Image(t', g'), k);
            && Mountable(crashed)
            && var r := Mounted(crashed, ram, true);
               && Valid(r) && Synced(r) && r.backed
               && (SameLive(r.recs, s.recs) || SameLive(r.recs, t'))
               && (forall i :: 0 <= i <= 62 ==> Data(r, i) == Get(disk, SlotLba(i)))
  {
    var old_, new_ := Image(s.recs, s.generation), Image(t', g');
    var crashed := Put(disk, META_LBA, new_, k);
    GetPut(disk, META_LBA, new_, k);
    assert Get(crashed, META_LBA) == Torn(new_, old_, k);
    UpdateIsCrashAtomic(s.recs, t', s.generation, g', k);
    var c := DecodeTable(Torn(new_, old_, k));
    if SameLive(c, s.recs) {
      SameLiveSameTree(c, s.recs);
    } else {
      SameLiveSameTree(c, t');
    }
    TornMagic(s.recs, t', s.generation, g', k);
    MagicInFirstSector(crashed);
    var w := State(c, ram, ImageGeneration(Torn(new_, old_, k)), true, crashed);
    PersistedData(w);
    PersistedSynced(w);
    forall i | 0 <= i <= 62
      ensures Data(w, i) == Get(disk, SlotLba(i))
    {
      GetPutOther(disk, META_LBA, new_, k, SlotLba(i));
    }
  }

  lemma TornMagic(t: Table, t': Table, g: nat, g': nat, k: nat)
    requires Encodable(t) && Encodable(t') && g < WORD && g' < WORD && k <= META_SECTORS
    ensures HasMagic(Torn(Image(t', g'), Image(t, g), k))
  {
    ImageRoundTrip(t, g);
    ImageRoundTrip(t', g');
    var b := Torn(Image(t', g'), Image(t, g), k);
    assert b[..4] == if k == 0 then Image(t, g)[..4] else Image(t', g')[..4];
  }

  /** A mounted state shows the tree of any state with the same live records and the same bytes. */
  lemma SameLiveSameAbs(r: State, s: State)
    requires Valid(r) && Valid(s) && SameLive(r.recs, s.recs)
    requires forall i :: 0 <= i < FILE_MAX && IsFile(s.recs, i) ==> NodeAt(r, i) == NodeAt(s, i)
    ensures Abs(r) == Abs(s)
  {
    SameLiveSameTree(r.recs, s.recs);
    forall i | 0 <= i < FILE_MAX && Live(s.recs, i)
      ensures NodeAt(r, i) == NodeAt(s, i)
    {
      KindOfNode(r, i);
      KindOfNode(s, i);
      LiveFacts(s.recs, i);
    }
    TreeSame(s, r);
  }

  /** No bytes of a file are kept in slot 63. */
  ghost predicate LastSlotEmpty(s: State)
    requires Valid(s)
  {
    IsFile(s.recs, 63) ==> s.recs[63].size == 0
  }

  lemma FileNode(r: State, s: State, i: nat)
    requires Valid(r) && Valid(s) && i < FILE_MAX && IsFile(s.recs, i) && r.recs[i] == s.recs[i]
    requires if i <= 62 then Data(r, i) == Data(s, i) else LastSlotEmpty(s)
    ensures NodeAt(r, i) == NodeAt(s, i)
  {
    assert i == 63 ==> Data(r, i)[..0] == Data(s, i)[..0];
  }

  /** A mount that finds the live records of a state and its bytes shows its tree. */
  lemma SameTree(r: State, s: State)
    requires Valid(r) && Valid(s) && LastSlotEmpty(s) && SameLive(r.recs, s.recs)
    requires forall i :: 0 <= i <= 62 ==> Data(r, i) == Data(s, i)
    ensures Abs(r) == Abs(s)
  {
    forall i | 0 <= i < FILE_MAX && IsFile(s.recs, i)
      ensures NodeAt(r, i) == NodeAt(s, i)
    {
      FileNode(r, s, i);
    }
    SameLiveSameAbs(r, s);
  }

  lemma RecordsCrash(s: State, s': State, n: nat, ram: seq<Block>)
    requires Valid(s) && Valid(s') && LastSlotEmpty(s) && LastSlotEmpty(s') && s.backed && s'.backed && Synced(s)
    requires |ram| == FILE_MAX && n <= 2 * META_SECTORS && OneUpdate(s.recs, s'.recs)
    requires forall i :: 0 <= i <= 62 ==> Data(s', i) == Get(s.disk, SlotLba(i))
    ensures Mountable(CrashDisk(s, s', -1, n))
    ensures var r := Mounted(CrashDisk(s, s', -1, n), ram, true);
            Valid(r) && (Abs(r) == Abs(s) || Abs(r) == Abs(s')) && (Good(s) && Good(s') ==> Ready(r, {}))
  {
    TornMount(s, s'.recs, s.disk, Next(s.generation), if n <= META_SECTORS then n else META_SECTORS, ram);
    var r := Mounted(CrashDisk(s, s', -1, n), ram, true);
    if SameLive(r.recs, s.recs) {
      SameTree(r, s);
    } else {
      SameTree(r, s');
    }
  }

  /**
   * mkdir, touch, rmdir and remove are crash-atomic: stop the operation after any number of its
   * sector writes, and the next mount shows the tree before it or the tree after it, ready to go on.
   */
  lemma MetadataCrashAtomic(s: State, op: Op, n: nat, ram: seq<Block>)
    requires Good(s) && s.backed && Synced(s) && Arguments(op) && |ram| == FILE_MAX && n <= 2 * META_SECTORS
    requires op.Mkdir? || op.Touch? || op.Rmdir? || op.Remove?
    ensures Mountable(CrashDisk(s, StepS(s, op).1, -1, n))
    ensures var r := Mounted(CrashDisk(s, StepS(s, op).1, -1, n), ram, true);
            Valid(r) && (Abs(r) == Abs(s) || Abs(r) == StepTree(Abs(s), op).1) && (Placed(s, op) ==> Ready(r, {}))
  {
    UpdateRefines(s, op);
    SingleUpdates(s, op);
    StepMovesNoBytes(s, op);
    RecordsCrash(s, StepS(s, op).1, n, ram);
  }

  lemma UpdateRefines(s: State, op: Op)
    requires Good(s) && s.backed && Arguments(op) && (op.Mkdir? || op.Touch? || op.Rmdir? || op.Remove?)
    ensures Abs(StepS(s, op).1) == StepTree(Abs(s), op).1 && LastSlotEmpty(StepS(s, op).1)
    ensures Placed(s, op) ==> Good(StepS(s, op).1)
  {
    match op {
      case Mkdir(p) => MkdirRefines(s, p); MkdirGood(s, p);
      case Touch(p) => TouchRefines(s, p); TouchGood(s, p);
      case Rmdir(p) => RmdirRefines(s, p);
      case Remove(p) => RemoveRefines(s, p);
    }
  }

  lemma StepMovesNoBytes(s: State, op: Op)
    requires Valid(s) && s.backed && Arguments(op) && (op.Mkdir? || op.Touch? || op.Rmdir? || op.Remove?)
    ensures forall i :: 0 <= i <= 62 ==> Data(StepS(s, op).1, i) == Get(s.disk, SlotLba(i))
  {
    var s' := StepS(s, op).1;
    if s' != s {
      CreateKeepsTree(s.recs, op.path, DIRECTORY);
      CreateKeepsTree(s.recs, op.path, FILE);
      RmdirKeepsTree(s.recs, op.path);
      RemoveKeepsTree(s.recs, op.path);
      PersistedData(s.(recs := s'.recs));
    }
  }

  /** Writing the first k sectors of a slot touches that slot's block alone. */
  lemma SlotWritten(disk: seq<Sector>, slot: nat, block: Block, k: nat)
    requires |disk| == DISK_SECTORS && slot <= 62 && k <= META_SECTORS
    ensures var d := Put(disk, SlotLba(slot), block, k);
            && Get(d, META_LBA) == Get(disk, META_LBA)
            && Get(d, SlotLba(slot)) == Torn(block, Get(disk, SlotLba(slot)), k)
            && forall i :: 0 <= i <= 62 && i != slot ==> Get(d, SlotLba(i)) == Get(disk, SlotLba(i))
  {
    GetPut(disk, SlotLba(slot), block, k);
    GetPutOther(disk, SlotLba(slot), block, k, META_LBA);
    forall i | 0 <= i <= 62 && i != slot
      ensures Get(Put(disk, SlotLba(slot), block, k), SlotLba(i)) == Get(disk, SlotLba(i))
    {
      GetPutOther(disk, SlotLba(slot), block, k, SlotLba(i));
    }
  }

  // ---------- crashes during a write ----------

  lemma DataCrash(s: State, s': State, slot: nat, n: nat, ram: seq<Block>)
    requires Valid(s) && Valid(s') && s.backed && Synced(s) && |ram| == FILE_MAX && n <= META_SECTORS && slot <= 62
    ensures Mountable(CrashDisk(s, s', slot, n))
    ensures var r := Mounted(CrashDisk(s, s', slot, n), ram, true);
            && Valid(r) && Synced(r) && r.backed && SameLive(r.recs, s.recs)
            && Data(r, slot) == MixedBlock(s, s', slot, n)
            && (forall i :: 0 <= i <= 62 && i != slot ==> Data(r, i) == Get(s.disk, SlotLba(i)))
  {
    var disk := Put(s.disk, SlotLba(slot), s'.ram[slot], n);
    SlotWritten(s.disk, slot, s'.ram[slot], n);
    assert UpdateAt(s.recs, s.recs, 0);
    TornMount(s, s.recs, disk, s.generation, 0, ram);
    assert Put(disk, META_LBA, Image(s.recs, s.generation), 0) == CrashDisk(s, s', slot, n);
  }

  lemma FlushCrash(s: State, s': State, slot: nat, k: nat, ram: seq<Block>, crashed: seq<Sector>)
    requires Valid(s) && Valid(s') && s.backed && Synced(s) && |ram| == FILE_MAX && k <= META_SECTORS
    requires slot <= 62 && OneUpdate(s.recs, s'.recs)
    requires crashed == Put(Put(s.disk, SlotLba(slot), s'.ram[slot], META_SECTORS), META_LBA, Image(s'.recs, Next(s.generation)), k)
    ensures Mountable(crashed)
    ensures var r := Mounted(crashed, ram, true);
            && Valid(r) && Synced(r) && r.backed && (SameLive(r.recs, s.recs) || SameLive(r.recs, s'.recs))
            && Data(r, slot) == Torn(s'.ram[slot], Get(s.disk, SlotLba(slot)), META_SECTORS)
            && (forall i :: 0 <= i <= 62 && i != slot ==> Data(r, i) == Get(s.disk, SlotLba(i)))
  {
    var disk := Put(s.disk, SlotLba(slot), s'.ram[slot], META_SECTORS);
    SlotWritten(s.disk, slot, s'.ram[slot], META_SECTORS);
    TornMount(s, s'.recs, disk, Next(s.generation), k, ram);
  }

  /** What a crash on the way from s to s' can leave behind: one of two record tables, and a mixed block. */
  lemma WriteCrash(s: State, s': State, slot: nat, n: nat, ram: seq<Block>)
    requires Valid(s) && Valid(s') && s.backed && Synced(s) && |ram| == FILE_MAX && n <= 2 * META_SECTORS
    requires slot <= 62 && OneUpdate(s.recs, s'.recs)
    ensures Mountable(CrashDisk(s, s', slot, n))
    ensures var r := Mounted(CrashDisk(s, s', slot, n), ram, true);
            && Valid(r) && Synced(r) && r.backed
            && (SameLive(r.recs, s.recs) || (n > META_SECTORS && SameLive(r.recs, s'.recs)))
            && Data(r, slot) == MixedBlock(s, s', slot, n)
            && (forall i :: 0 <= i <= 62 && i != slot ==> Data(r, i) == Get(s.disk, SlotLba(i)))
  {
    if n <= META_SECTORS {
      DataCrash(s, s', slot, n, ram);
    } else {
      FlushCrash(s, s', slot, n - META_SECTORS, ram, CrashDisk(s, s', slot, n));
    }
  }

  /** The slot's sectors on the crashed disk. */
  function MixedBlock(s: State, s': State, slot: nat, n: nat): Block
    requires |s.disk| == DISK_SECTORS && slot <= 62 && slot < |s'.ram| && n <= 2 * META_SECTORS
  {
    Torn(s'.ram[slot], Get(s.disk, SlotLba(slot)), if n <= META_SECTORS then n else META_SECTORS)
  }

  /** What a write does to the records. */
  lemma WriteIsOneUpdate(s: State, path: string, data: seq<Byte>, append: bool, slot: int, s': State)
    requires Good(s) && s.backed && slot == FileSlot(s.recs, path) && slot != -1 && s' == WriteS(s, path, data, append).1
    ensures slot <= 62 && PathOf(s.recs, slot) == Resolve("/", path).value
    ensures s'.recs == Resized(s.recs, slot, s'.recs[slot].size) && s'.recs[slot].size <= CONTENT_MAX
    ensures OneUpdate(s.recs, s'.recs)
  {
    FoundInTree(s, path);
    WriteData(s, path, data, append);
    WrittenSize(s, slot, data, append);
    assert UpdateAt(s.recs, s'.recs, slot);
  }

  lemma WrittenSize(s: State, n: int, data: seq<Byte>, append: bool)
    requires Valid(s) && IsFile(s.recs, n)
    ensures var w := Written(s, n, data, append); w.recs[n].size <= CONTENT_MAX && w.recs == Resized(s.recs, n, w.recs[n].size)
  {
    LiveFacts(s.recs, n);
  }

  /** A crash during any write leaves every other path, and the file itself, in the tree. */
  lemma WriteCrashIsolated(s: State, op: Op, n: nat, ram: seq<Block>)
    requires Good(s) && s.backed && Synced(s) && Arguments(op) && op.Write? && |ram| == FILE_MAX && n <= 2 * META_SECTORS
    requires DataSlot(s, op) != -1
    ensures DataSlot(s, op) <= 62 && Mountable(CrashDisk(s, StepS(s, op).1, DataSlot(s, op), n))
    ensures var slot := DataSlot(s, op);
            var r := Mounted(CrashDisk(s, StepS(s, op).1, slot, n), ram, true);
            && Ready(r, {}) && Live(r.recs, slot) && NodeAt(r, slot).File?
            && Abs(r) == Abs(s)[Resolve("/", op.path).value := NodeAt(r, slot)]
            && PartlyWritten(s, StepS(s, op).1, slot, n, NodeAt(r, slot))
  {
    var slot, s' := DataSlot(s, op), StepS(s, op).1;
    WriteIsOneUpdate(s, op.path, op.data, op.append, slot, s');
    WriteCrash(s, s', slot, n, ram);
    IsolatedTree(s, s', Mounted(CrashDisk(s, s', slot, n), ram, true), slot);
    IsolatedBytes(s, s', Mounted(CrashDisk(s, s', slot, n), ram, true), slot, n);
  }

  /** The file after n sector writes: at its old length with the first sectors new and the others old, or written completely. */
  predicate PartlyWritten(s: State, s': State, slot: nat, n: nat, node: Node)
    requires |s.disk| == DISK_SECTORS && slot <= 62 && |s.recs| == FILE_MAX == |s'.recs| && |s'.ram| == FILE_MAX && n <= 2 * META_SECTORS
  {
    || (s.recs[slot].size <= CONTENT_MAX && node == File(MixedBlock(s, s', slot, n)[..s.recs[slot].size]))
    || (n > META_SECTORS && s'.recs[slot].size <= CONTENT_MAX && node == File(s'.ram[slot][..s'.recs[slot].size]))
  }

  lemma IsolatedBytes(s: State, s': State, r: State, slot: nat, n: nat)
    requires Valid(s) && Valid(s') && Valid(r) && slot <= 62 && IsFile(s.recs, slot) && n <= 2 * META_SECTORS
    requires s'.recs == Resized(s.recs, slot, s'.recs[slot].size)
    requires SameLive(r.recs, s.recs) || (n > META_SECTORS && SameLive(r.recs, s'.recs))
    requires Data(r, slot) == MixedBlock(s, s', slot, n)
    ensures PartlyWritten(s, s', slot, n, NodeAt(r, slot))
  {
    LiveFacts(s.recs, slot);
    LiveFacts(s'.recs, slot);
    assert n > META_SECTORS ==> MixedBlock(s, s', slot, n) == s'.ram[slot];
  }

  lemma IsolatedTree(s: State, s': State, r: State, slot: nat)
    requires Good(s) && s.backed && Valid(s') && Valid(r) && slot <= 62 && IsFile(s.recs, slot)
    requires s'.recs == Resized(s.recs, slot, s'.recs[slot].size) && s'.recs[slot].size <= CONTENT_MAX
    requires SameLive(r.recs, s.recs) || SameLive(r.recs, s'.recs)
    requires forall i :: 0 <= i <= 62 && i != slot ==> Data(r, i) == Get(s.disk, SlotLba(i))
    ensures Good(r) && Live(r.recs, slot) && NodeAt(r, slot).File?
    ensures Abs(r) == Abs(s)[PathOf(s.recs, slot) := NodeAt(r, slot)]
  {
    ResizedKeepsTree(s.recs, slot, s'.recs[slot].size);
    var base := if SameLive(r.recs, s.recs) then s.recs else s'.recs;
    SameLiveSameTree(r.recs, base);
    KindOfNode(r, slot);
    forall i | 0 <= i < FILE_MAX && i != slot && Live(s.recs, i)
      ensures NodeAt(r, i) == NodeAt(s, i)
    {
      LiveFacts(s.recs, i);
      assert r.recs[i] == s.recs[i] && (i == 63 ==> s.recs[i].kind == DIRECTORY);
    }
    TreePut(s, r, slot, PathOf(s.recs, slot));
  }

  /** An append lays the bytes a file has over themselves. */
  lemma AppendKeepsPrefix(s: State, path: string, data: seq<Byte>, n: int)
    requires Valid(s) && n == FileSlot(s.recs, path) && n != -1 && Coherent(s, n)
    ensures s.recs[n].size <= CONTENT_MAX
    ensures WriteS(s, path, data, true).1.ram[n][..s.recs[n].size] == Data(s, n)[..s.recs[n].size]
  {
    LiveFacts(s.recs, n);
    WriteData(s, path, data, true);
    OverlayKeeps(s.ram[n], s.recs[n].size, data);
  }

  lemma OverlayKeeps(block: Block, pos: nat, data: seq<Byte>)
    requires pos <= CONTENT_MAX
    ensures Overlay(block, pos, data)[..pos] == block[..pos]
  {
  }

  lemma TornPrefix(new_: seq<Byte>, old_: seq<Byte>, k: nat, size: nat)
    requires |new_| == |old_| == META_BYTES && k <= META_SECTORS && size <= META_BYTES
    requires new_[..size] == old_[..size]
    ensures Torn(new_, old_, k)[..size] == old_[..size]
  {
    forall x | 0 <= x < size
      ensures Torn(new_, old_, k)[x] == old_[x]
    {
      assert new_[..size][x] == old_[..size][x];
    }
  }

  /** Either record table, with a mixed block that keeps the old bytes in front, gives one of the two trees. */
  lemma AppendTree(s: State, s': State, r: State, slot: nat, n: nat)
    requires Good(s) && Valid(s') && s.backed && s'.backed && Valid(r) && slot <= 62 && IsFile(s.recs, slot)
    requires s'.recs == Resized(s.recs, slot, s'.recs[slot].size)
    requires n <= 2 * META_SECTORS && s.recs[slot].size <= CONTENT_MAX
    requires s'.ram[slot][..s.recs[slot].size] == Data(s, slot)[..s.recs[slot].size]
    requires Data(s', slot) == s'.ram[slot] && Data(r, slot) == MixedBlock(s, s', slot, n)
    requires SameLive(r.recs, s.recs) || (n > META_SECTORS && SameLive(r.recs, s'.recs))
    requires forall i :: 0 <= i <= 62 && i != slot ==> Data(r, i) == Data(s, i) && Data(s', i) == Data(s, i)
    ensures Abs(r) == Abs(s) || Abs(r) == Abs(s')
  {
    if SameLive(r.recs, s.recs) {
      TornPrefix(s'.ram[slot], Get(s.disk, SlotLba(slot)), if n <= META_SECTORS then n else META_SECTORS, s.recs[slot].size);
      SameLiveSameAbs(r, s);
    } else {
      assert MixedBlock(s, s', slot, n) == s'.ram[slot];
      SameTree(r, s');
    }
  }

  /**
   * Appends to a file in memory are crash-atomic too, data sectors included: the tree found is the
   * one before or the one after, because the old bytes are rewritten as they were.
   */
  lemma AppendCrashAtomic(s: State, op: Op, n: nat, ram: seq<Block>)
    requires Good(s) && s.backed && Synced(s) && Arguments(op) && |ram| == FILE_MAX && n <= 2 * META_SECTORS
    requires op.Write? && op.append && DataSlot(s, op) != -1 && Coherent(s, DataSlot(s, op))
    ensures DataSlot(s, op) <= 62 && Mountable(CrashDisk(s, StepS(s, op).1, DataSlot(s, op), n))
    ensures var r := Mounted(CrashDisk(s, StepS(s, op).1, DataSlot(s, op), n), ram, true);
            Ready(r, {}) && (Abs(r) == Abs(s) || Abs(r) == StepTree(Abs(s), op).1)
  {
    var slot, s' := DataSlot(s, op), StepS(s, op).1;
    WriteIsOneUpdate(s, op.path, op.data, true, slot, s');
    WriteCrash(s, s', slot, n, ram);
    WriteRefines(s, op.path, op.data, true);
    AppendFound(s, op.path, op.data, slot, s', Mounted(CrashDisk(s, s', slot, n), ram, true), n);
  }

  lemma AppendFound(s: State, path: string, data: seq<Byte>, slot: nat, s': State, r: State, n: nat)
    requires Good(s) && s.backed && slot == FileSlot(s.recs, path) && slot <= 62 && Coherent(s, slot)
    requires s' == WriteS(s, path, data, true).1 && s'.recs == Resized(s.recs, slot, s'.recs[slot].size)
    requires Valid(r) && n <= 2 * META_SECTORS && Data(r, slot) == MixedBlock(s, s', slot, n)
    requires SameLive(r.recs, s.recs) || (n > META_SECTORS && SameLive(r.recs, s'.recs))
    requires forall i :: 0 <= i <= 62 && i != slot ==> Data(r, i) == Get(s.disk, SlotLba(i))
    ensures Good(r) && (Abs(r) == Abs(s) || Abs(r) == Abs(s'))
  {
    WriteData(s, path, data, true);
    AppendKeepsPrefix(s, path, data, slot);
    AppendTree(s, s', r, slot, n);
  }

  // ---------- the first mount, and files not yet in memory ----------

  /** A formatted state is the empty tree. */
  lemma FormattedEmpty(disk: seq<Sector>, ram: seq<Block>, backed: bool)
    requires |disk| == DISK_SECTORS && |ram| == FILE_MAX
    ensures var s := Persisted(State(Formatted(), ram, 0, backed, disk));
            && Good(s) && Synced(s) && Warm(s, {}) && s.backed == backed
            && Abs(s) == map[[] := Dir]
  {
    var w := State(Formatted(), ram, 0, backed, disk);
    var s := Persisted(w);
    PersistedSynced(w);
    PersistedData(w);
    WarmAtFirst(s);
    forall q
      ensures q in Abs(s) <==> q == []
      ensures q in Abs(s) ==> Abs(s)[q] == Dir
    {
      AbsAt(s, q);
      AbsAtSlot(s, 0);
      PathOfCanonical(s.recs, 0);
    }
  }

  /** Mounting without a disk, or a disk without the magic number, starts a run from the empty tree. */
  lemma FirstMountGood(disk: seq<Sector>, ram: seq<Block>, present: bool)
    requires |disk| == DISK_SECTORS && |ram| == FILE_MAX
    requires present ==> !HasMagic(disk[META_LBA])
    ensures var s := Mounted(disk, ram, present);
            && Good(s) && Synced(s) && Warm(s, {}) && s.backed == present
            && Abs(s) == map[[] := Dir]
  {
    FormattedEmpty(disk, ram, present);
  }

  /** After a mount that could not read the records and then wrote them, every later mount finds the empty tree. */
  lemma ReadErrorForgets(disk: seq<Sector>, ram: seq<Block>, later: seq<Block>)
    requires |disk| == DISK_SECTORS && |ram| == FILE_MAX && |later| == FILE_MAX
    ensures var s := Reformatted(disk, ram);
            && Ready(s, {}) && Abs(s) == map[[] := Dir]
            && |s.disk| == DISK_SECTORS && Mountable(s.disk)
            && Ready(Mounted(s.disk, later, true), {}) && Abs(Mounted(s.disk, later, true)) == map[[] := Dir]
  {
    FormattedEmpty(disk, ram, true);
    var s := Reformatted(disk, ram);
    RemountRestores(s, later);
    WarmAtFirst(Mounted(s.disk, later, true));
  }

  /** Reading a file first makes the append right, whatever memory held before. */
  lemma ReadThenAppend(s: State, path: string, capacity: nat, data: seq<Byte>)
    requires Valid(s) && !(s.backed && FileSlot(s.recs, path) == 63)
    ensures var s1 := ReadS(s, path, capacity).1;
            var (ok, s2) := WriteS(s1, path, data, true);
            (ok, Abs(s2)) == WriteTree(Abs(s), path, data, true)
  {
    ReadEffect(s, path, capacity);
    WriteRefines(ReadS(s, path, capacity).1, path, data, true);
  }

  /**
   * Appending right after a mount, without reading first, destroys the file's bytes: after a
   * reboot, with memory cleared, the append is right exactly for files that hold only zeros.
   */
  lemma ColdAppend(s: State, path: string, data: seq<Byte>, ram: seq<Block>)
    requires Good(s) && s.backed && Synced(s) && |ram| == FILE_MAX
    requires forall i, x :: 0 <= i < FILE_MAX && 0 <= x < CONTENT_MAX ==> ram[i][x] == 0
    requires Resolve("/", path).Some? && IsRegular(Abs(s), Resolve("/", path).value)
    ensures Mountable(s.disk) && Valid(Mounted(s.disk, ram, true))
    ensures var mounted, bytes := Mounted(s.disk, ram, true), Abs(s)[Resolve("/", path).value].bytes;
            Abs(WriteS(mounted, path, data, true).1) == WriteTree(Abs(s), path, data, true).1 <==>
            forall x :: 0 <= x < |bytes| ==> bytes[x] == 0
  {
    RemountRestores(s, ram);
    MagicInFirstSector(s.disk);
    var mounted := Mounted(s.disk, ram, true);
    assert mounted.ram == ram;
    FoundInTree(mounted, path);
    AppendOverZeros(mounted, path, data);
  }

  lemma AppendOverZeros(s: State, path: string, data: seq<Byte>)
    requires Valid(s) && FileSlot(s.recs, path) != -1
    requires forall x :: 0 <= x < CONTENT_MAX ==> s.ram[FileSlot(s.recs, path)][x] == 0
    ensures Resolve("/", path).Some? && IsRegular(Abs(s), Resolve("/", path).value)
    ensures var bytes := Abs(s)[Resolve("/", path).value].bytes;
            Abs(WriteS(s, path, data, true).1) == WriteTree(Abs(s), path, data, true).1 <==>
            forall x :: 0 <= x < |bytes| ==> bytes[x] == 0
  {
    AppendExact(s, path, data);
    FoundInTree(s, path);
    var n := FileSlot(s.recs, path);
    LiveFacts(s.recs, n);
    var size := s.recs[n].size;
    var bytes, held := Data(s, n)[..size], s.ram[n][..size];
    if held == bytes {
      assert forall x :: 0 <= x < size ==> bytes[x] == held[x];
    }
  }

  // ---------- what the disk operations can reach ----------

  lemma WriteFootprint(s: State, path: string, data: seq<Byte>, append: bool, lba: nat)
    requires Valid(s) && lba < DISK_SECTORS && !(META_LBA <= lba < DATA_LBA)
    requires var n := FileSlot(s.recs, path); n == -1 || !(SlotLba(n) <= lba < SlotLba(n) + META_SECTORS)
    ensures WriteS(s, path, data, append).1.disk[lba] == s.disk[lba]
  {
  }

  /** Of the disk, an operation changes the record area and the extents of file slots; never the FAT volume. */
  lemma FatVolumeUntouched(s: State, op: Op, lba: nat)
    requires Valid(s) && Arguments(op) && lba < META_LBA
    ensures StepS(s, op).1.disk[lba] == s.disk[lba]
  {
    if op.Copy? || op.Move? {
      CopyFootprint(s, op.path, op.target, lba);
    }
  }

  lemma CopyFootprint(s: State, source: string, target: string, lba: nat)
    requires Valid(s) && PathArg(source) && PathArg(target) && lba < META_LBA
    ensures CopyS(s, source, target).1.disk[lba] == s.disk[lba]
    ensures MoveS(s, source, target).1.disk[lba] == s.disk[lba]
  {
    var (bytes, s1) := ReadS(s, source, CONTENT_MAX);
    if bytes.Some? {
      var (ok, s2) := TouchS(s1, target);
      if ok {
        WriteFootprint(s2, target, bytes.value, false, lba);
      }
    }
  }
}
