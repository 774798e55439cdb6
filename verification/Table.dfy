/**
 * The record table of the file system: what a table means as a tree of paths, and the
 * invariant that gives every table the kernel can reach exactly one meaning.
 */
module Table {
  import opened CStrings
  import opened Paths

  const FILE_MAX := 64
  const CONTENT_MAX := 4096
  const DIRECTORY: Byte := 1
  const FILE: Byte := 2
  const META_LBA := 65024
  const DATA_LBA := META_LBA + 8

  datatype Record = Record(name: string, parent: int, kind: Byte, used: Byte, size: nat, lba: nat)

  const ZERO := Record([], 0, 0, 0, 0, 0)

  type Table = t: seq<Record> | |t| == FILE_MAX witness seq(FILE_MAX, _ => ZERO)

  function SlotLba(i: nat): nat { DATA_LBA + 8 * i }

  predicate Live(t: Table, i: int) {
    0 <= i < FILE_MAX && t[i].used != 0
  }

  predicate IsDir(t: Table, i: int) {
    Live(t, i) && t[i].kind == DIRECTORY
  }

  predicate IsFile(t: Table, i: int) {
    Live(t, i) && t[i].kind == FILE
  }

  /** The parent chain of i ends at slot 0 after at most `hops` links, all through live directories. */
  predicate Reaches(t: Table, i: int, hops: nat)
    decreases hops, |t|
  {
    Live(t, i) && (i != 0 ==> hops > 0 && IsDir(t, t[i].parent) && Reaches(t, t[i].parent, hops - 1))
  }

  /** The names along the parent chain, outermost first. */
  function Names(t: Table, i: int, hops: nat): Path
    decreases hops, |t|
  {
    if i == 0 || hops == 0 || !(0 <= i < FILE_MAX) then [] else Names(t, t[i].parent, hops - 1) + [t[i].name]
  }

  function PathOf(t: Table, i: int): Path { Names(t, i, DEPTH_MAX) }

  /** What every table holds, whether or not a record is in use: each field fits its C type. */
  predicate WellFormed(r: Record) {
    && IsCString(r.name) && |r.name| <= NAME_MAX
    && -0x8000 <= r.parent < 0x8000
    && r.size < 0x1_0000_0000 && r.lba < 0x1_0000_0000
  }

  predicate GoodRecord(t: Table, i: int)
    requires 0 <= i < FILE_MAX
  {
    && ValidName(t[i].name)
    && Reaches(t, i, DEPTH_MAX)
    && |Render(PathOf(t, i))| <= PATH_MAX
    && (t[i].kind == DIRECTORY || t[i].kind == FILE)
    && t[i].size <= CONTENT_MAX
    && (if t[i].kind == FILE then t[i].lba == SlotLba(i) else t[i].size == 0)
  }

  /** Two children of one directory have different names. */
  predicate NoClash(t: Table, i: int, j: int)
    requires 0 <= i < FILE_MAX && 0 <= j < FILE_MAX
  {
    t[i].parent == t[j].parent ==> t[i].name != t[j].name
  }

  /** The tree invariant.  The triggers keep the parent links from being followed without end. */
  ghost predicate TreeInv(t: Table) {
    && Encodable(t)
    && IsDir(t, 0) && t[0].parent == -1 && t[0].size == 0
    && (forall i {:trigger GoodRecord(t, i)} :: 0 < i < FILE_MAX && Live(t, i) ==> GoodRecord(t, i))
    && (forall i, j {:trigger NoClash(t, i, j)} :: 0 < i < j < FILE_MAX && Live(t, i) && Live(t, j) ==> NoClash(t, i, j))
  }

  /** Every record, in use or not, fits its C fields. */
  ghost predicate Encodable(t: Table) {
    forall i {:trigger WellFormed(t[i])} :: 0 <= i < FILE_MAX ==> WellFormed(t[i])
  }

  function Formatted(): (t: Table)
    ensures TreeInv(t)
  {
    seq(FILE_MAX, i => if i == 0 then Record("/", -1, DIRECTORY, 1, 0, 0) else ZERO)
  }

  // ---------- parent chains ----------

  /** More hops than the chain needs change nothing. */
  lemma {:induction false} HopsEnough(t: Table, i: int, a: nat, b: nat)
    requires Reaches(t, i, a) && a <= b
    ensures Reaches(t, i, b) && Names(t, i, a) == Names(t, i, b)
    decreases a
  {
    if i != 0 {
      HopsEnough(t, t[i].parent, a - 1, b - 1);
    }
  }

  lemma LiveFacts(t: Table, i: int)
    requires TreeInv(t) && Live(t, i)
    ensures Reaches(t, i, DEPTH_MAX) && WellFormed(t[i])
    ensures i != 0 ==> GoodRecord(t, i)
    ensures t[i].size <= CONTENT_MAX
  {
    assert i != 0 ==> GoodRecord(t, i);
  }

  lemma PathOfChild(t: Table, i: int)
    requires TreeInv(t) && Live(t, i) && i != 0
    ensures IsDir(t, t[i].parent)
    ensures PathOf(t, i) == PathOf(t, t[i].parent) + [t[i].name]
  {
    assert GoodRecord(t, i);
    HopsEnough(t, t[i].parent, DEPTH_MAX - 1, DEPTH_MAX);
  }

  lemma {:induction false} NamesCanonical(t: Table, i: int, hops: nat)
    requires TreeInv(t) && Reaches(t, i, hops) && hops <= DEPTH_MAX
    ensures |Names(t, i, hops)| <= hops && Canonical(Names(t, i, hops))
    ensures forall k :: 0 <= k < |Names(t, i, hops)| ==> IsCString(Names(t, i, hops)[k])
    ensures Names(t, i, hops) == [] <==> i == 0
    decreases hops
  {
    if i != 0 {
      assert GoodRecord(t, i) && WellFormed(t[i]);
      NamesCanonical(t, t[i].parent, hops - 1);
    }
  }

  lemma PathOfCanonical(t: Table, i: int)
    requires TreeInv(t) && Live(t, i)
    ensures Canonical(PathOf(t, i)) && IsCString(Render(PathOf(t, i))) && |Render(PathOf(t, i))| <= PATH_MAX
    ensures PathOf(t, i) == [] <==> i == 0
  {
    if i != 0 {
      assert GoodRecord(t, i);
    }
    NamesCanonical(t, i, DEPTH_MAX);
    RenderIsCString(PathOf(t, i));
  }

  /** No two live records have the same path. */
  lemma {:induction false} PathOfInjective(t: Table, i: int, j: int)
    requires TreeInv(t) && Live(t, i) && Live(t, j)
    requires PathOf(t, i) == PathOf(t, j)
    ensures i == j
    decreases |PathOf(t, i)|
  {
    PathOfCanonical(t, i);
    PathOfCanonical(t, j);
    if i != 0 {
      PathOfChild(t, i);
      PathOfChild(t, j);
      var n := |PathOf(t, i)| - 1;
      assert PathOf(t, i)[n] == t[i].name && PathOf(t, j)[n] == t[j].name;
      assert PathOf(t, i)[..n] == PathOf(t, t[i].parent) && PathOf(t, j)[..n] == PathOf(t, t[j].parent);
      PathOfInjective(t, t[i].parent, t[j].parent);
      assert i != j ==> NoClash(t, if i < j then i else j, if i < j then j else i);
    }
  }

  /** Nothing hangs below slot n. */
  predicate Childless(t: Table, n: int) {
    forall i :: 0 < i < FILE_MAX && Live(t, i) ==> t[i].parent != n
  }

  /** The same record as far as the tree is concerned. */
  predicate SameEntry(r: Record, s: Record) {
    r.name == s.name && r.parent == s.parent && r.kind == s.kind && r.used == s.used
  }

  /** A change confined to dead records and one childless slot n leaves every other chain alone. */
  lemma {:induction false} ChainFrame(t: Table, t': Table, n: int, i: int, hops: nat)
    requires forall j :: 0 <= j < FILE_MAX && Live(t, j) && j != n ==> SameEntry(t[j], t'[j])
    requires Childless(t, n) && i != n && Reaches(t, i, hops)
    ensures Reaches(t', i, hops) && Names(t', i, hops) == Names(t, i, hops)
    decreases hops
  {
    if i != 0 {
      ChainFrame(t, t', n, t[i].parent, hops - 1);
    }
  }

  // ---------- looking a path up ----------

  /** The scan of the table: the first live slot from i on whose path is q, or -1. */
  function Scan(t: Table, q: Path, i: nat): (r: int)
    requires i <= FILE_MAX
    ensures r < FILE_MAX
    ensures r == -1 || (i <= r && Live(t, r) && PathOf(t, r) == q)
    ensures r == -1 ==> forall k :: i <= k < FILE_MAX && Live(t, k) ==> PathOf(t, k) != q
    decreases FILE_MAX - i, |t|
  {
    if i == FILE_MAX then -1 else if Live(t, i) && PathOf(t, i) == q then i else Scan(t, q, i + 1)
  }

  function Lookup(t: Table, q: Path): int {
    if q == [] then 0 else Scan(t, q, 1)
  }

  /** The slot a text names: normalize from the root, then look up. */
  function FindPath(t: Table, path: string): int {
    match Resolve("/", path)
    case None => -1
    case Some(q) => Lookup(t, q)
  }

  /** Lookup inverts path reconstruction, in both directions. */
  lemma LookupCorrect(t: Table, q: Path)
    requires TreeInv(t)
    ensures -1 <= Lookup(t, q) < FILE_MAX
    ensures forall i :: 0 <= i < FILE_MAX ==> (Lookup(t, q) == i <==> Live(t, i) && PathOf(t, i) == q)
    ensures Lookup(t, q) == -1 <==> forall i :: 0 <= i < FILE_MAX && Live(t, i) ==> PathOf(t, i) != q
  {
    PathOfCanonical(t, 0);
    var r := Lookup(t, q);
    forall i | 0 <= i < FILE_MAX
      ensures r == i <==> Live(t, i) && PathOf(t, i) == q
    {
      if Live(t, i) && PathOf(t, i) == q {
        PathOfCanonical(t, i);
        if r != -1 {
          PathOfInjective(t, r, i);
        }
      }
    }
  }

  lemma FindLive(t: Table, path: string)
    requires TreeInv(t)
    ensures -1 <= FindPath(t, path) < FILE_MAX
    ensures FindPath(t, path) != -1 ==> Live(t, FindPath(t, path))
  {
    if Resolve("/", path).Some? {
      LookupCorrect(t, Resolve("/", path).value);
    }
  }

  /**
   * find(path) is slot i exactly when slot i is in use and the canonical text of the path
   * is the text rebuilt for slot i.
   */
  lemma FindInvertsPath(t: Table, path: string, i: int)
    requires TreeInv(t) && 0 <= i < FILE_MAX
    ensures FindPath(t, path) == i <==>
            Live(t, i) && Resolve("/", path).Some? && Render(Resolve("/", path).value) == Render(PathOf(t, i))
  {
    match Resolve("/", path) {
      case None =>
      case Some(q) =>
        ResolveCanonical("/", path);
        LookupCorrect(t, q);
        if Live(t, i) {
          PathOfCanonical(t, i);
          RenderInjective(q, PathOf(t, i));
        }
    }
  }

  /** Every live record is found by its own rebuilt text. */
  lemma FindOwnPath(t: Table, i: int)
    requires TreeInv(t) && Live(t, i)
    ensures FindPath(t, Render(PathOf(t, i))) == i
    ensures FitsBuffer(Render(PathOf(t, i))) && IsCString(Render(PathOf(t, i)))
  {
    PathOfCanonical(t, i);
    ResolveRender("/", PathOf(t, i));
    LookupCorrect(t, PathOf(t, i));
    ShortPathFits(Render(PathOf(t, i)));
  }

  // ---------- the text the kernel rebuilds ----------

  /** Appends a slash, unless the text is the root's, and as much of the name as the buffer takes. */
  function Extend(text: string, name: string): string {
    var base := if |text| > 1 then text + ['/'] else text;
    if |base| + |name| <= PATH_MAX then base + name
    else if |base| <= PATH_MAX then base + name[..PATH_MAX - |base|]
    else base
  }

  lemma ExtendRender(p: Path, name: string)
    requires Canonical(p) && ValidName(name) && |Render(p + [name])| <= PATH_MAX
    ensures Extend(Render(p), name) == Render(p + [name])
  {
    assert (p + [name])[..|p|] == p;
    if p != [] {
      assert ValidName(p[|p| - 1]);
    }
  }

  /** The texts of a record's ancestors are short too. */
  lemma ParentTextShort(t: Table, i: int)
    requires TreeInv(t) && Live(t, i) && i != 0
    ensures Extend(Render(PathOf(t, t[i].parent)), t[i].name) == Render(PathOf(t, i))
  {
    assert GoodRecord(t, i);
    PathOfChild(t, i);
    PathOfCanonical(t, t[i].parent);
    ExtendRender(PathOf(t, t[i].parent), t[i].name);
  }

  // ---------- changing the table ----------

  /** The first free slot after the root's, or -1. */
  function FirstFree(t: Table, i: nat): (r: int)
    requires i <= FILE_MAX
    ensures -1 <= r < FILE_MAX
    ensures r != -1 ==> i <= r && !Live(t, r) && forall k :: i <= k < r ==> Live(t, k)
    ensures r == -1 ==> forall k :: i <= k < FILE_MAX ==> Live(t, k)
    decreases FILE_MAX - i, |t|
  {
    if i == FILE_MAX then -1 else if !Live(t, i) then i else FirstFree(t, i + 1)
  }

  function NewRecord(name: string, parent: int, kind: Byte, slot: nat): Record {
    Record(name, parent, kind, 1, 0, SlotLba(slot))
  }

  /** create(): None when it is refused. */
  function CreateT(t: Table, path: string, kind: Byte): Option<Table> {
    match Resolve("/", path)
    case None => None
    case Some(q) =>
      if Lookup(t, q) >= 0 || q == [] then None
      else
        var parent := Lookup(t, q[..|q| - 1]);
        var slot := FirstFree(t, 1);
        if parent < 0 || t[parent].kind != DIRECTORY || slot < 0 then None
        else Some(t[slot := NewRecord(q[|q| - 1], parent, kind, slot)])
  }

  /** The slot of the directory that would hold a path, or -1. */
  function ParentSlot(t: Table, path: string): int {
    match Resolve("/", path)
    case None => -1
    case Some(q) => if q == [] then -1 else Lookup(t, q[..|q| - 1])
  }

  function LastName(path: string): string {
    match Resolve("/", path)
    case None => []
    case Some(q) => if q == [] then [] else q[|q| - 1]
  }

  function TouchT(t: Table, path: string): Option<Table> {
    if FindPath(t, path) >= 0 then Some(t) else CreateT(t, path, FILE)
  }

  function Freed(t: Table, n: nat): Table
    requires n < FILE_MAX
  {
    t[n := t[n].(used := 0)]
  }

  function RmdirT(t: Table, path: string): Option<Table> {
    var n := FindPath(t, path);
    if n <= 0 || t[n].kind != DIRECTORY || !Childless(t, n) then None else Some(Freed(t, n))
  }

  function RemoveT(t: Table, path: string): Option<Table> {
    var n := FindPath(t, path);
    if n <= 0 || t[n].kind != FILE then None else Some(Freed(t, n))
  }

  /** The table after a write that leaves `size` bytes in slot n. */
  function Resized(t: Table, n: nat, size: nat): Table
    requires n < FILE_MAX
  {
    t[n := t[n].(size := size)]
  }

  /** A live record cannot hang below a free slot. */
  lemma FreeSlotChildless(t: Table, slot: int)
    requires TreeInv(t) && !Live(t, slot)
    ensures Childless(t, slot)
  {
    forall i | 0 < i < FILE_MAX && Live(t, i)
      ensures t[i].parent != slot
    {
      PathOfChild(t, i);
    }
  }

  lemma FileChildless(t: Table, n: int)
    requires TreeInv(t) && IsFile(t, n)
    ensures Childless(t, n)
  {
    forall i | 0 < i < FILE_MAX && Live(t, i)
      ensures t[i].parent != n
    {
      PathOfChild(t, i);
    }
  }

  lemma EncodableUpdate(t: Table, n: nat, r: Record)
    requires Encodable(t) && n < FILE_MAX && WellFormed(r)
    ensures Encodable(t[n := r])
  {
    var t' := t[n := r];
    forall i | 0 <= i < FILE_MAX
      ensures WellFormed(t'[i])
    {
      assert WellFormed(t[i]);
    }
  }

  /** Freeing a childless slot keeps the invariant and every other path. */
  lemma FreedKeepsTree(t: Table, n: nat)
    requires TreeInv(t) && 0 < n < FILE_MAX && Live(t, n) && Childless(t, n)
    ensures TreeInv(Freed(t, n))
    ensures !Live(Freed(t, n), n)
    ensures forall i :: 0 <= i < FILE_MAX && i != n && Live(t, i) ==> PathOf(Freed(t, n), i) == PathOf(t, i)
  {
    var t' := Freed(t, n);
    LiveFacts(t, n);
    EncodableUpdate(t, n, t'[n]);
    forall i | 0 <= i < FILE_MAX && i != n && Live(t, i)
      ensures Reaches(t', i, DEPTH_MAX) && PathOf(t', i) == PathOf(t, i)
      ensures i != 0 ==> GoodRecord(t', i)
    {
      LiveFacts(t, i);
      ChainFrame(t, t', n, i, DEPTH_MAX);
    }
    forall i, j | 0 < i < j < FILE_MAX && Live(t', i) && Live(t', j)
      ensures NoClash(t', i, j)
    {
      assert Live(t, i) && Live(t, j) ==> NoClash(t, i, j);
    }
  }

  /** Resizing a file keeps the invariant and every path. */
  lemma ResizedKeepsTree(t: Table, n: nat, size: nat)
    requires TreeInv(t) && n < FILE_MAX && IsFile(t, n) && size <= CONTENT_MAX
    ensures TreeInv(Resized(t, n, size))
    ensures forall i :: 0 <= i < FILE_MAX && Live(t, i) ==> PathOf(Resized(t, n, size), i) == PathOf(t, i)
  {
    var t' := Resized(t, n, size);
    LiveFacts(t, n);
    EncodableUpdate(t, n, t'[n]);
    NoNegativeParent(t);
    forall i | 0 <= i < FILE_MAX && Live(t, i)
      ensures Reaches(t', i, DEPTH_MAX) && PathOf(t', i) == PathOf(t, i)
      ensures i != 0 ==> GoodRecord(t', i)
    {
      LiveFacts(t, i);
      ChainFrame(t, t', -2, i, DEPTH_MAX);
    }
    forall i, j | 0 < i < j < FILE_MAX && Live(t', i) && Live(t', j)
      ensures NoClash(t', i, j)
    {
      assert Live(t, i) && Live(t, j) ==> NoClash(t, i, j);
    }
  }

  lemma NoNegativeParent(t: Table)
    requires TreeInv(t)
    ensures Childless(t, -2)
  {
    forall i | 0 < i < FILE_MAX && Live(t, i)
      ensures t[i].parent != -2
    {
      PathOfChild(t, i);
    }
  }

  /** Filling a free slot below a live directory keeps the invariant and every path, and adds one. */
  lemma AddedKeepsTree(t: Table, q: Path, slot: nat, kind: Byte)
    requires TreeInv(t) && 0 < slot < FILE_MAX && !Live(t, slot)
    requires Canonical(q) && q != [] && IsCString(q[|q| - 1]) && |Render(q)| <= PATH_MAX
    requires Lookup(t, q) == -1 && IsDir(t, Lookup(t, q[..|q| - 1]))
    requires kind == DIRECTORY || kind == FILE
    ensures var t' := t[slot := NewRecord(q[|q| - 1], Lookup(t, q[..|q| - 1]), kind, slot)];
            && TreeInv(t') && PathOf(t', slot) == q && Live(t', slot)
            && forall i :: 0 <= i < FILE_MAX && Live(t, i) ==> PathOf(t', i) == PathOf(t, i)
  {
    var front, last := q[..|q| - 1], q[|q| - 1];
    var parent := Lookup(t, front);
    var t' := t[slot := NewRecord(last, parent, kind, slot)];
    EncodableUpdate(t, slot, t'[slot]) by { assert ValidName(last); }
    FreeSlotChildless(t, slot);
    LookupCorrect(t, front);
    forall i | 0 <= i < FILE_MAX && Live(t, i)
      ensures Reaches(t', i, DEPTH_MAX) && PathOf(t', i) == PathOf(t, i)
      ensures i != 0 ==> GoodRecord(t', i)
    {
      LiveFacts(t, i);
      ChainFrame(t, t', slot, i, DEPTH_MAX);
    }
    AddedChain(t, t', q, slot, parent);
    assert ValidName(last) && GoodRecord(t', slot);
    NewNameDistinct(t, q, parent);
    forall i, j | 0 < i < j < FILE_MAX && Live(t', i) && Live(t', j)
      ensures NoClash(t', i, j)
    {
      assert Live(t, i) && Live(t, j) ==> NoClash(t, i, j);
    }
  }

  /** The new record hangs at the end of the path it was created for. */
  lemma AddedChain(t: Table, t': Table, q: Path, slot: nat, parent: nat)
    requires TreeInv(t) && 0 < slot < FILE_MAX && !Live(t, slot) && Childless(t, slot)
    requires q != [] && |q| <= DEPTH_MAX && parent < FILE_MAX && IsDir(t, parent)
    requires PathOf(t, parent) == q[..|q| - 1]
    requires t'[slot].used != 0 && t'[slot].parent == parent && t'[slot].name == q[|q| - 1]
    requires t' == t[slot := t'[slot]]
    ensures Reaches(t', slot, DEPTH_MAX) && PathOf(t', slot) == q
  {
    var n := |q| - 1;
    ShortChain(t, parent, n);
    ChainFrame(t, t', slot, parent, n);
    HopsEnough(t, parent, n, DEPTH_MAX);
    HopsEnough(t', parent, n, DEPTH_MAX - 1);
    assert q == q[..n] + [q[n]];
  }

  /** No sibling has the name of a path that does not exist yet. */
  lemma NewNameDistinct(t: Table, q: Path, parent: nat)
    requires TreeInv(t) && q != [] && Lookup(t, q) == -1
    requires parent < FILE_MAX && Live(t, parent) && PathOf(t, parent) == q[..|q| - 1]
    ensures forall j :: 0 < j < FILE_MAX && Live(t, j) && t[j].parent == parent ==> t[j].name != q[|q| - 1]
  {
    LookupCorrect(t, q);
    forall j | 0 < j < FILE_MAX && Live(t, j) && t[j].parent == parent
      ensures t[j].name != q[|q| - 1]
    {
      PathOfChild(t, j);
      assert q == q[..|q| - 1] + [q[|q| - 1]];
    }
  }

  /** A chain has one hop per name. */
  lemma {:induction false} ShortChain(t: Table, i: int, n: nat)
    requires TreeInv(t) && Live(t, i) && |PathOf(t, i)| == n
    ensures Reaches(t, i, n)
    decreases n
  {
    PathOfCanonical(t, i);
    if i != 0 {
      PathOfChild(t, i);
      ShortChain(t, t[i].parent, n - 1);
    }
  }

  /** create() keeps the tree invariant, whatever slot it reuses. */
  lemma CreateKeepsTree(t: Table, path: string, kind: Byte)
    requires TreeInv(t) && IsCString(path) && FitsBuffer(path)
    requires kind == DIRECTORY || kind == FILE
    ensures CreateT(t, path, kind).Some? ==> TreeInv(CreateT(t, path, kind).value)
  {
    if CreateT(t, path, kind).Some? {
      var q := Resolve("/", path).value;
      ResolvedPath(path);
      LookupCorrect(t, q);
      LookupCorrect(t, q[..|q| - 1]);
      AddedKeepsTree(t, q, FirstFree(t, 1), kind);
    }
  }

  /** What a path argument is once it has been accepted. */
  lemma ResolvedPath(path: string)
    requires IsCString(path) && FitsBuffer(path) && Resolve("/", path).Some?
    ensures var q := Resolve("/", path).value;
            && Canonical(q) && |Render(q)| <= PATH_MAX && IsCString(Render(q))
            && forall i :: 0 <= i < |q| ==> IsCString(q[i])
  {
    ResolveCanonical("/", path);
    ResolveIsCString("/", path);
    RenderIsCString(Resolve("/", path).value);
    if !Absolute(path) {
      ResolveLength("/", path);
    }
  }

  lemma RmdirKeepsTree(t: Table, path: string)
    requires TreeInv(t)
    ensures RmdirT(t, path).Some? ==> TreeInv(RmdirT(t, path).value)
  {
    if RmdirT(t, path).Some? {
      FreedKeepsTree(t, FindPath(t, path));
    }
  }

  lemma RemoveKeepsTree(t: Table, path: string)
    requires TreeInv(t)
    ensures RemoveT(t, path).Some? ==> TreeInv(RemoveT(t, path).value)
  {
    if RemoveT(t, path).Some? {
      FileChildless(t, FindPath(t, path));
      FreedKeepsTree(t, FindPath(t, path));
    }
  }
}
