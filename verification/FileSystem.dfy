/**
 * The file system as a whole: what each operation does to the records, the content slots and
 * the disk, and the tree of paths that a state stands for.
 */
module FileSystem {
  import opened CStrings
  import opened Paths
  import opened Table
  import opened Layout

  const DISK_SECTORS := 65536

  type Block = b: seq<Byte> | |b| == CONTENT_MAX witness seq(CONTENT_MAX, _ => 0)

  datatype State = State(recs: Table, ram: seq<Block>, generation: nat, backed: bool, disk: seq<Sector>)

  ghost predicate Valid(s: State) {
    TreeInv(s.recs) && |s.ram| == FILE_MAX && s.generation < WORD && |s.disk| == DISK_SECTORS
  }

  // ---------- the tree a state stands for ----------

  datatype Node = Dir | File(bytes: seq<Byte>)

  type Tree = map<Path, Node>

  /** The slot's bytes live on the disk; slot 63 has no sectors inside the image. */
  predicate OnDisk(s: State, i: int) {
    s.backed && 0 <= i <= 62
  }

  /** The bytes behind a slot: those a read would bring in. */
  function Data(s: State, i: int): Block
    requires 0 <= i < FILE_MAX && |s.ram| == FILE_MAX && |s.disk| == DISK_SECTORS
  {
    if OnDisk(s, i) then Get(s.disk, SlotLba(i)) else s.ram[i]
  }

  function NodeAt(s: State, i: int): Node
    requires 0 <= i < FILE_MAX && |s.ram| == FILE_MAX && |s.disk| == DISK_SECTORS
  {
    if s.recs[i].kind == DIRECTORY || s.recs[i].size > CONTENT_MAX then Dir else File(Data(s, i)[..s.recs[i].size])
  }

  /** The nodes of the first n slots. */
  function AbsUpTo(s: State, n: nat): Tree
    requires n <= FILE_MAX == |s.ram| && |s.disk| == DISK_SECTORS
    decreases n, |s.ram|
  {
    if n == 0 then map[]
    else if Live(s.recs, n - 1) then AbsUpTo(s, n - 1)[PathOf(s.recs, n - 1) := NodeAt(s, n - 1)]
    else AbsUpTo(s, n - 1)
  }

  /** The tree: a node for every slot in use, at its path. */
  ghost function Abs(s: State): Tree
    requires Valid(s)
  {
    AbsUpTo(s, FILE_MAX)
  }

  lemma {:induction false} AbsUpToAt(s: State, n: nat, q: Path)
    requires Valid(s) && n <= FILE_MAX
    ensures var i := Lookup(s.recs, q);
            && (q in AbsUpTo(s, n) <==> 0 <= i < n)
            && (0 <= i < n ==> AbsUpTo(s, n)[q] == NodeAt(s, i))
  {
    LookupCorrect(s.recs, q);
    if n > 0 {
      AbsUpToAt(s, n - 1, q);
    }
  }

  /** Paths in the tree and slots in use correspond one to one. */
  lemma AbsAt(s: State, q: Path)
    requires Valid(s)
    ensures var i := Lookup(s.recs, q);
            && -1 <= i < FILE_MAX
            && (q in Abs(s) <==> i != -1)
            && (i != -1 ==> Live(s.recs, i) && PathOf(s.recs, i) == q && Abs(s)[q] == NodeAt(s, i))
  {
    AbsUpToAt(s, FILE_MAX, q);
    LookupCorrect(s.recs, q);
  }

  lemma AbsAtSlot(s: State, i: nat)
    requires Valid(s) && i < FILE_MAX && Live(s.recs, i)
    ensures PathOf(s.recs, i) in Abs(s) && Abs(s)[PathOf(s.recs, i)] == NodeAt(s, i)
    ensures Lookup(s.recs, PathOf(s.recs, i)) == i
  {
    AbsAt(s, PathOf(s.recs, i));
    LookupCorrect(s.recs, PathOf(s.recs, i));
  }

  /** The bytes held in memory for a file are those a read would bring in. */
  ghost predicate Coherent(s: State, i: int)
    requires Valid(s) && 0 <= i < FILE_MAX
  {
    IsFile(s.recs, i) && s.recs[i].size <= CONTENT_MAX ==> s.ram[i][..s.recs[i].size] == Data(s, i)[..s.recs[i].size]
  }

  // ---------- what the operations do ----------

  function Next(generation: nat): (g: nat)
    ensures g < WORD
  {
    (generation + 1) % WORD
  }

  /** persist() on a disk without errors. */
  ghost function Persisted(s: State): State
    requires Encodable(s.recs) && |s.disk| == DISK_SECTORS
  {
    if !s.backed then s
    else
      var g := Next(s.generation);
      s.(generation := g, disk := Put(s.disk, META_LBA, Image(s.recs, g), META_SECTORS))
  }

  /** The state after a record update that is then persisted; a refused update changes nothing. */
  ghost function Commit(s: State, t: Option<Table>): (bool, State)
    requires |s.disk| == DISK_SECTORS && (t.Some? ==> Encodable(t.value))
  {
    match t
    case None => (false, s)
    case Some(t') => (true, Persisted(s.(recs := t')))
  }

  /** A text the calls can take: its canonical form fits the path buffer. */
  predicate PathArg(path: string) {
    IsCString(path) && FitsBuffer(path)
  }

  /** Every C string of at most 127 characters will do, and no larger bound is safe. */
  lemma ArgumentLength(n: nat)
    ensures (forall path: string :: IsCString(path) && |path| <= n ==> PathArg(path)) <==> n <= PATH_MAX
  {
    SafeLength(n);
    LongNamesText(4);
    RenderIsCString(LongNames(4));
    assert n <= PATH_MAX || (|Render(LongNames(4))| <= n && !PathArg(Render(LongNames(4))));
  }

  ghost function MkdirS(s: State, path: string): (r: (bool, State))
    requires Valid(s) && PathArg(path)
    ensures Valid(r.1) && r.1.backed == s.backed
  {
    CreateKeepsTree(s.recs, path, DIRECTORY);
    Commit(s, CreateT(s.recs, path, DIRECTORY))
  }

  ghost function TouchS(s: State, path: string): (r: (bool, State))
    requires Valid(s) && PathArg(path)
    ensures Valid(r.1) && r.1.backed == s.backed
  {
    CreateKeepsTree(s.recs, path, FILE);
    if FindPath(s.recs, path) >= 0 then (true, s) else Commit(s, CreateT(s.recs, path, FILE))
  }

  ghost function RmdirS(s: State, path: string): (r: (bool, State))
    requires Valid(s)
    ensures Valid(r.1) && r.1.backed == s.backed
  {
    RmdirKeepsTree(s.recs, path);
    Commit(s, RmdirT(s.recs, path))
  }

  ghost function RemoveS(s: State, path: string): (r: (bool, State))
    requires Valid(s)
    ensures Valid(r.1) && r.1.backed == s.backed
  {
    RemoveKeepsTree(s.recs, path);
    Commit(s, RemoveT(s.recs, path))
  }

  /** The slot of the file a path names, or -1. */
  function FileSlot(t: Table, path: string): (n: int)
    ensures n == -1 || IsFile(t, n)
  {
    var n := FindPath(t, path);
    if 0 <= n < FILE_MAX && IsFile(t, n) then n else -1
  }

  function Min(a: nat, b: nat): nat { if a < b then a else b }

  /** vfs_read(): the bytes, or None; on a disk-backed mount the slot is first loaded. */
  ghost function ReadS(s: State, path: string, capacity: nat): (r: (Option<seq<Byte>>, State))
    requires Valid(s)
    ensures Valid(r.1) && r.1.backed == s.backed
  {
    var n := FileSlot(s.recs, path);
    if n < 0 || (s.backed && n > 62) then (None, s)
    else
      LiveFacts(s.recs, n);
      var s' := if s.backed then s.(ram := s.ram[n := Get(s.disk, SlotLba(n))]) else s;
      (Some(s'.ram[n][..Min(s.recs[n].size, capacity)]), s')
  }

  /** Bytes laid over a block from pos on, cut off at its end. */
  function Overlay(block: Block, pos: nat, data: seq<Byte>): (b: Block)
    requires pos <= CONTENT_MAX
  {
    var n := Min(|data|, CONTENT_MAX - pos);
    block[..pos] + data[..n] + block[pos + n..]
  }

  /** The record and content slot after vfs_write(), before anything goes to the disk. */
  ghost function Written(s: State, n: int, data: seq<Byte>, append: bool): (w: State)
    requires Valid(s) && IsFile(s.recs, n)
    ensures Valid(w) && w.backed == s.backed
  {
    LiveFacts(s.recs, n);
    var pos := if append then s.recs[n].size else 0;
    var end := pos + Min(|data|, CONTENT_MAX - pos);
    ResizedKeepsTree(s.recs, n, end);
    s.(ram := s.ram[n := Overlay(s.ram[n], pos, data)], recs := Resized(s.recs, n, end))
  }

  /** What follows in vfs_write(): on a disk-backed mount the slot's sectors go out, and then the records. */
  ghost function Stored(w: State, n: int): (r: (bool, State))
    requires Valid(w) && 0 <= n < FILE_MAX
    ensures Valid(r.1) && r.1.backed == w.backed
  {
    if !w.backed then (true, w)
    else if n > 62 then (false, w)
    else (true, Persisted(w.(disk := Put(w.disk, SlotLba(n), w.ram[n], META_SECTORS))))
  }

  /** vfs_write(). */
  ghost function WriteS(s: State, path: string, data: seq<Byte>, append: bool): (r: (bool, State))
    requires Valid(s)
    ensures Valid(r.1) && r.1.backed == s.backed
  {
    var n := FileSlot(s.recs, path);
    if n < 0 then (false, s) else Stored(Written(s, n, data, append), n)
  }

  /** vfs_copy(): read, touch, write. */
  ghost function CopyS(s: State, source: string, target: string): (r: (bool, State))
    requires Valid(s) && PathArg(source) && PathArg(target)
    ensures Valid(r.1) && r.1.backed == s.backed
  {
    var (bytes, s1) := ReadS(s, source, CONTENT_MAX);
    if bytes.None? then (false, s1)
    else
      var (ok, s2) := TouchS(s1, target);
      if !ok then (false, s2) else WriteS(s2, target, bytes.value, false)
  }

  /** vfs_move(): copy, then remove the source. */
  ghost function MoveS(s: State, source: string, target: string): (r: (bool, State))
    requires Valid(s) && PathArg(source) && PathArg(target)
    ensures Valid(r.1) && r.1.backed == s.backed
  {
    var (ok, s1) := CopyS(s, source, target);
    if !ok then (false, s1) else RemoveS(s1, source)
  }

  /** What vfs_init() leaves when a sector cannot be read: the same as on a disk without records. */
  ghost function Reformatted(disk: seq<Sector>, ram: seq<Block>): State
    requires |disk| == DISK_SECTORS
  {
    Persisted(State(Formatted(), ram, 0, true, disk))
  }

  /** vfs_init(): load the table if the disk carries one, otherwise format; then persist. */
  ghost function Mounted(disk: seq<Sector>, ram: seq<Block>, present: bool): State
    requires |disk| == DISK_SECTORS
    requires present && HasMagic(disk[META_LBA]) ==> Encodable(DecodeTable(Get(disk, META_LBA)))
  {
    var image := Get(disk, META_LBA);
    if present && HasMagic(disk[META_LBA]) then
      Persisted(State(DecodeTable(image), ram, ImageGeneration(image), present, disk))
    else
      Persisted(State(Formatted(), ram, 0, present, disk))
  }
}
