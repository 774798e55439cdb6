/**
 * The file system refines a map from paths to directories and files: every operation succeeds
 * when the map says so, has the map's effect, and leaves every other path alone.
 */
module Refinement {
  import opened CStrings
  import opened Paths
  import opened Table
  import opened Layout
  import opened FileSystem

  // ---------- the operations on a tree ----------

  function Parent(q: Path): Path
    requires q != []
  {
    q[..|q| - 1]
  }

  predicate IsDirectory(m: Tree, q: Path) {
    q in m && m[q].Dir?
  }

  predicate IsRegular(m: Tree, q: Path) {
    q in m && m[q].File?
  }

  /** A node can be added: its parent is a directory, it does not exist, and there is room. */
  predicate CanMake(m: Tree, q: Path) {
    q != [] && q !in m && IsDirectory(m, Parent(q)) && |m| < FILE_MAX
  }

  predicate IsEmptyDirectory(m: Tree, q: Path) {
    IsDirectory(m, q) && forall p :: p in m && p != [] ==> Parent(p) != q
  }

  function Truncate(bytes: seq<Byte>): seq<Byte> {
    if |bytes| <= CONTENT_MAX then bytes else bytes[..CONTENT_MAX]
  }

  function MakeTree(m: Tree, path: string, node: Node): (bool, Tree) {
    match Resolve("/", path)
    case None => (false, m)
    case Some(q) => if CanMake(m, q) then (true, m[q := node]) else (false, m)
  }

  function TouchTree(m: Tree, path: string): (bool, Tree) {
    match Resolve("/", path)
    case None => (false, m)
    case Some(q) => if q in m then (true, m) else MakeTree(m, path, File([]))
  }

  function RmdirTree(m: Tree, path: string): (bool, Tree) {
    match Resolve("/", path)
    case None => (false, m)
    case Some(q) => if q != [] && IsEmptyDirectory(m, q) then (true, m - {q}) else (false, m)
  }

  function RemoveTree(m: Tree, path: string): (bool, Tree) {
    match Resolve("/", path)
    case None => (false, m)
    case Some(q) => if IsRegular(m, q) then (true, m - {q}) else (false, m)
  }

  function ReadTree(m: Tree, path: string, capacity: nat): Option<seq<Byte>> {
    match Resolve("/", path)
    case None => None
    case Some(q) => if IsRegular(m, q) then Some(m[q].bytes[..Min(|m[q].bytes|, capacity)]) else None
  }

  function WriteTree(m: Tree, path: string, data: seq<Byte>, append: bool): (bool, Tree) {
    match Resolve("/", path)
    case None => (false, m)
    case Some(q) =>
      if IsRegular(m, q) then (true, m[q := File(Truncate((if append then m[q].bytes else []) + data))]) else (false, m)
  }

  /** The target ends up with the source's bytes; it is created if need be. */
  function CopyTree(m: Tree, source: string, target: string): (bool, Tree) {
    match (Resolve("/", source), Resolve("/", target))
    case (Some(from), Some(to)) =>
      if IsRegular(m, from) && (IsRegular(m, to) || CanMake(m, to)) then (true, m[to := m[from]]) else (false, m)
    case _ => (false, m)
  }

  /** The source is gone afterwards, even when it is its own target. */
  function MoveTree(m: Tree, source: string, target: string): (bool, Tree) {
    var (ok, m') := CopyTree(m, source, target);
    if ok then (true, m' - {Resolve("/", source).value}) else (false, m')
  }

  // ---------- counting ----------

  /** The slots in use among the first n. */
  function LiveSlots(t: Table, n: nat): (r: set<int>)
    requires n <= FILE_MAX
    ensures forall i :: i in r <==> 0 <= i < n && Live(t, i)
    decreases n, |t|
  {
    if n == 0 then {} else if Live(t, n - 1) then LiveSlots(t, n - 1) + {n - 1} else LiveSlots(t, n - 1)
  }

  /** Each slot in use contributes a node of its own. */
  lemma {:induction false} AbsUpToSize(s: State, n: nat)
    requires Valid(s) && n <= FILE_MAX
    ensures |AbsUpTo(s, n)| == |LiveSlots(s.recs, n)| <= n
  {
    if n > 0 {
      AbsUpToSize(s, n - 1);
      if Live(s.recs, n - 1) {
        var q := PathOf(s.recs, n - 1);
        AbsUpToAt(s, n - 1, q);
        AbsAtSlot(s, n - 1);
        assert q !in AbsUpTo(s, n - 1);
      }
    }
  }

  /** The tree has as many nodes as there are slots in use, so a slot is free exactly when it has fewer than 64. */
  lemma TreeSize(s: State)
    requires Valid(s)
    ensures |Abs(s)| == |LiveSlots(s.recs, FILE_MAX)| <= FILE_MAX
    ensures FirstFree(s.recs, 1) >= 0 <==> |Abs(s)| < FILE_MAX
  {
    AbsUpToSize(s, FILE_MAX);
    LiveCount(s.recs, FILE_MAX);
  }

  lemma {:induction false} LiveCount(t: Table, n: nat)
    requires n <= FILE_MAX
    ensures |LiveSlots(t, n)| <= n
    ensures |LiveSlots(t, n)| == n <==> forall i :: 0 <= i < n ==> Live(t, i)
  {
    if n > 0 {
      LiveCount(t, n - 1);
    }
  }

  // ---------- how a change of one slot shows in the tree ----------

  /** Slots other than n keep their path and their node. */
  ghost predicate OthersKept(s: State, s': State, n: int)
    requires Valid(s) && Valid(s')
  {
    forall i {:trigger Live(s.recs, i)} {:trigger Live(s'.recs, i)} :: 0 <= i < FILE_MAX && i != n ==>
      && (Live(s.recs, i) <==> Live(s'.recs, i))
      && (Live(s.recs, i) ==> PathOf(s'.recs, i) == PathOf(s.recs, i) && NodeAt(s', i) == NodeAt(s, i))
  }

  /** Paths of slots other than n mean the same before and after. */
  lemma OtherPath(s: State, s': State, n: int, p: Path)
    requires Valid(s) && Valid(s') && OthersKept(s, s', n)
    requires n == -1 || (0 <= n < FILE_MAX && (Live(s.recs, n) ==> PathOf(s.recs, n) != p) && (Live(s'.recs, n) ==> PathOf(s'.recs, n) != p))
    ensures p in Abs(s') <==> p in Abs(s)
    ensures p in Abs(s') ==> Abs(s')[p] == Abs(s)[p]
  {
    AbsAt(s, p);
    AbsAt(s', p);
    LookupCorrect(s.recs, p);
    LookupCorrect(s'.recs, p);
    var i, j := Lookup(s.recs, p), Lookup(s'.recs, p);
    if i != -1 {
      assert Live(s'.recs, i);
    }
    if j != -1 {
      assert Live(s.recs, j);
    }
  }

  lemma TreePut(s: State, s': State, n: int, q: Path)
    requires Valid(s) && Valid(s') && OthersKept(s, s', n)
    requires 0 <= n < FILE_MAX && Live(s'.recs, n) && PathOf(s'.recs, n) == q
    requires Live(s.recs, n) ==> PathOf(s.recs, n) == q
    ensures Abs(s') == Abs(s)[q := NodeAt(s', n)]
  {
    AbsAtSlot(s', n);
    var m, m' := Abs(s)[q := NodeAt(s', n)], Abs(s');
    forall p
      ensures (p in m' <==> p in m) && (p in m' ==> m'[p] == m[p])
    {
      if p != q {
        OtherPath(s, s', n, p);
      }
    }
    assert m' == m;
  }

  lemma TreeDelete(s: State, s': State, n: int)
    requires Valid(s) && Valid(s') && OthersKept(s, s', n)
    requires 0 <= n < FILE_MAX && Live(s.recs, n) && !Live(s'.recs, n)
    ensures Abs(s') == Abs(s) - {PathOf(s.recs, n)}
  {
    var q := PathOf(s.recs, n);
    var m, m' := Abs(s) - {q}, Abs(s');
    forall p
      ensures (p in m' <==> p in m) && (p in m' ==> m'[p] == m[p])
    {
      if p != q {
        OtherPath(s, s', n, p);
      } else {
        AbsAt(s', q);
        LookupCorrect(s'.recs, q);
        var j := Lookup(s'.recs, q);
        if j != -1 {
          assert Live(s.recs, j);
          PathOfInjective(s.recs, j, n);
        }
      }
    }
    assert m' == m;
  }

  lemma TreeSame(s: State, s': State)
    requires Valid(s) && Valid(s') && OthersKept(s, s', -1)
    ensures Abs(s') == Abs(s)
  {
    forall p
      ensures p in Abs(s') <==> p in Abs(s)
      ensures p in Abs(s') ==> Abs(s')[p] == Abs(s)[p]
    {
      OtherPath(s, s', -1, p);
    }
  }

  /** Persisting the records reaches no slot's bytes. */
  lemma PersistedData(s: State)
    requires Valid(s)
    ensures Valid(Persisted(s)) && Persisted(s).recs == s.recs && Persisted(s).ram == s.ram
    ensures forall i :: 0 <= i < FILE_MAX ==> Data(Persisted(s), i) == Data(s, i)
  {
    if s.backed {
      var g := Next(s.generation);
      forall i | 0 <= i <= 62
        ensures Get(Put(s.disk, META_LBA, Image(s.recs, g), META_SECTORS), SlotLba(i)) == Get(s.disk, SlotLba(i))
      {
        GetPutOther(s.disk, META_LBA, Image(s.recs, g), META_SECTORS, SlotLba(i));
      }
    }
  }

  // ---------- creating ----------

  lemma KindOfNode(s: State, i: int)
    requires Valid(s)
    ensures Live(s.recs, i) ==>
              && (s.recs[i].kind == DIRECTORY <==> NodeAt(s, i).Dir?)
              && (s.recs[i].kind == FILE <==> NodeAt(s, i).File?)
  {
    if Live(s.recs, i) {
      LiveFacts(s.recs, i);
    }
  }

  /** A node is created exactly when the tree has room for it and its parent is a directory. */
  lemma CreateAllowed(s: State, path: string, kind: Byte)
    requires Valid(s) && PathArg(path)
    ensures CreateT(s.recs, path, kind).Some? <==>
            Resolve("/", path).Some? && CanMake(Abs(s), Resolve("/", path).value)
  {
    match Resolve("/", path) {
      case None =>
      case Some(q) =>
        TreeSize(s);
        AbsAt(s, q);
        if q != [] {
          AbsAt(s, Parent(q));
          KindOfNode(s, Lookup(s.recs, Parent(q)));
        }
    }
  }

  /** mkdir and the creating half of touch add exactly one node, an empty one. */
  lemma CreateRefines(s: State, path: string, kind: Byte)
    requires Valid(s) && PathArg(path) && (kind == DIRECTORY || kind == FILE)
    requires CreateT(s.recs, path, kind).Some?
    ensures var q := Resolve("/", path).value;
            var s' := s.(recs := CreateT(s.recs, path, kind).value);
            && Valid(s') && Valid(Persisted(s'))
            && Abs(Persisted(s')) == Abs(s)[q := if kind == DIRECTORY then Dir else File([])]
  {
    var q := Resolve("/", path).value;
    var slot := FirstFree(s.recs, 1);
    var s' := s.(recs := CreateT(s.recs, path, kind).value);
    ResolvedPath(path);
    LookupCorrect(s.recs, q);
    LookupCorrect(s.recs, Parent(q));
    AddedKeepsTree(s.recs, q, slot, kind);
    AddedNode(s, s', slot, q);
  }

  lemma AddedNode(s: State, s': State, slot: nat, q: Path)
    requires Valid(s) && Valid(s') && slot < FILE_MAX && !Live(s.recs, slot) && Live(s'.recs, slot)
    requires s' == s.(recs := s'.recs) && s'.recs == s.recs[slot := s'.recs[slot]] && PathOf(s'.recs, slot) == q
    requires s'.recs[slot].size == 0
    requires forall i :: 0 <= i < FILE_MAX && Live(s.recs, i) ==> PathOf(s'.recs, i) == PathOf(s.recs, i)
    ensures Valid(Persisted(s'))
    ensures Abs(Persisted(s')) == Abs(s)[q := if s'.recs[slot].kind == DIRECTORY then Dir else File([])]
  {
    PersistedData(s');
    TreePut(s, Persisted(s'), slot, q);
    assert Data(s', slot)[..0] == [];
  }

  lemma MkdirRefines(s: State, path: string)
    requires Valid(s) && PathArg(path)
    ensures var (ok, s') := MkdirS(s, path); Valid(s') && (ok, Abs(s')) == MakeTree(Abs(s), path, Dir)
  {
    CreateAllowed(s, path, DIRECTORY);
    if MkdirS(s, path).0 {
      CreateRefines(s, path, DIRECTORY);
    }
  }

  lemma TouchRefines(s: State, path: string)
    requires Valid(s) && PathArg(path)
    ensures var (ok, s') := TouchS(s, path); Valid(s') && (ok, Abs(s')) == TouchTree(Abs(s), path)
  {
    CreateAllowed(s, path, FILE);
    FoundInTree(s, path);
    if FindPath(s.recs, path) < 0 && TouchS(s, path).0 {
      CreateRefines(s, path, FILE);
    }
  }

  /** A text names a slot exactly when the tree has its path; slot and node agree. */
  lemma FoundInTree(s: State, path: string)
    requires Valid(s)
    ensures var n := FindPath(s.recs, path);
            && (n == -1 || Live(s.recs, n))
            && (n != -1 <==> Resolve("/", path).Some? && Resolve("/", path).value in Abs(s))
            && (n != -1 ==>
                  var q := Resolve("/", path).value;
                  && PathOf(s.recs, n) == q && Abs(s)[q] == NodeAt(s, n)
                  && (n == 0 <==> q == [])
                  && (IsDir(s.recs, n) <==> Abs(s)[q].Dir?) && (IsFile(s.recs, n) <==> Abs(s)[q].File?))
            && (n >= 0 && IsFile(s.recs, n) <==> FileSlot(s.recs, path) != -1)
            && (FileSlot(s.recs, path) != -1 ==> FileSlot(s.recs, path) == n)
  {
    match Resolve("/", path) {
      case None =>
      case Some(q) =>
        AbsAt(s, q);
        KindOfNode(s, Lookup(s.recs, q));
        if FindPath(s.recs, path) != -1 {
          PathOfCanonical(s.recs, FindPath(s.recs, path));
        }
    }
  }

  // ---------- deleting ----------

  /** Freeing the slot of a childless node removes exactly its path. */
  lemma FreeRefines(s: State, n: nat)
    requires Valid(s) && 0 < n < FILE_MAX && Live(s.recs, n) && Childless(s.recs, n)
    ensures var s' := s.(recs := Freed(s.recs, n));
            Valid(s') && Valid(Persisted(s')) && Abs(Persisted(s')) == Abs(s) - {PathOf(s.recs, n)}
  {
    var s' := s.(recs := Freed(s.recs, n));
    FreedKeepsTree(s.recs, n);
    PersistedData(s');
    TreeDelete(s, Persisted(s'), n);
  }

  /** A slot has no children exactly when no path of the tree has it as parent. */
  lemma ChildlessInTree(s: State, n: nat)
    requires Valid(s) && n < FILE_MAX && Live(s.recs, n)
    ensures Childless(s.recs, n) <==> forall p :: p in Abs(s) && p != [] ==> Parent(p) != PathOf(s.recs, n)
  {
    forall p | p in Abs(s) && p != [] && Childless(s.recs, n)
      ensures Parent(p) != PathOf(s.recs, n)
    {
      AbsAt(s, p);
      var i := Lookup(s.recs, p);
      PathOfCanonical(s.recs, i);
      ChildOf(s, i, n);
    }
    forall i | 0 < i < FILE_MAX && Live(s.recs, i) && s.recs[i].parent == n
      ensures PathOf(s.recs, i) in Abs(s) && PathOf(s.recs, i) != [] && Parent(PathOf(s.recs, i)) == PathOf(s.recs, n)
    {
      AbsAtSlot(s, i);
      ChildOf(s, i, n);
    }
  }

  lemma ChildOf(s: State, i: nat, n: nat)
    requires Valid(s) && 0 < i < FILE_MAX && Live(s.recs, i) && n < FILE_MAX && Live(s.recs, n)
    ensures PathOf(s.recs, i) != []
    ensures s.recs[i].parent == n <==> Parent(PathOf(s.recs, i)) == PathOf(s.recs, n)
  {
    PathOfChild(s.recs, i);
    assert Parent(PathOf(s.recs, i)) == PathOf(s.recs, s.recs[i].parent);
    if PathOf(s.recs, s.recs[i].parent) == PathOf(s.recs, n) {
      PathOfInjective(s.recs, s.recs[i].parent, n);
    }
  }

  lemma RmdirRefines(s: State, path: string)
    requires Valid(s)
    ensures var (ok, s') := RmdirS(s, path); Valid(s') && (ok, Abs(s')) == RmdirTree(Abs(s), path)
  {
    FoundInTree(s, path);
    var n := FindPath(s.recs, path);
    if n != -1 {
      ChildlessInTree(s, n);
      if RmdirS(s, path).0 {
        FreeRefines(s, n);
      }
    }
  }

  lemma RemoveRefines(s: State, path: string)
    requires Valid(s)
    ensures var (ok, s') := RemoveS(s, path); Valid(s') && (ok, Abs(s')) == RemoveTree(Abs(s), path)
  {
    FoundInTree(s, path);
    if RemoveS(s, path).0 {
      var n := FindPath(s.recs, path);
      FileChildless(s.recs, n);
      FreeRefines(s, n);
    }
  }

  // ---------- reading ----------

  /** The tree is unchanged, and the file is in memory afterwards. */
  lemma ReadEffect(s: State, path: string, capacity: nat)
    requires Valid(s)
    ensures var s' := ReadS(s, path, capacity).1;
            && Valid(s') && Abs(s') == Abs(s) && s'.recs == s.recs && s'.disk == s.disk && s'.backed == s.backed
            && s'.generation == s.generation
            && (forall i :: 0 <= i < FILE_MAX ==> Data(s', i) == Data(s, i))
            && (ReadS(s, path, capacity).0.Some? ==>
                  var n := FileSlot(s.recs, path); n >= 0 && s'.ram[n] == Data(s', n))
            && forall i :: 0 <= i < FILE_MAX ==> s'.ram[i] == s.ram[i] || s'.ram[i] == Data(s', i)
  {
    var s' := ReadS(s, path, capacity).1;
    TreeSame(s, s');
  }

  /** Reading gives the tree's bytes, for every file whose slot has sectors or needs none. */
  lemma ReadRefines(s: State, path: string, capacity: nat)
    requires Valid(s)
    ensures ReadS(s, path, capacity).0 ==
            if s.backed && FileSlot(s.recs, path) == 63 then None else ReadTree(Abs(s), path, capacity)
  {
    FoundInTree(s, path);
    var n := FileSlot(s.recs, path);
    if n != -1 {
      var k := Min(s.recs[n].size, capacity);
      assert Data(s, n)[..s.recs[n].size][..k] == Data(s, n)[..k];
    }
  }

  // ---------- writing ----------

  /** The bytes in front of the new end: what was there before pos, then the data, cut at 4096. */
  lemma OverlayPrefix(block: Block, pos: nat, data: seq<Byte>)
    requires pos <= CONTENT_MAX
    ensures Overlay(block, pos, data)[..pos + Min(|data|, CONTENT_MAX - pos)] == Truncate(block[..pos] + data)
  {
  }

  /** The content slot of the written file is what a read will bring in; no other slot's bytes move. */
  lemma WriteData(s: State, path: string, data: seq<Byte>, append: bool)
    requires Valid(s) && FileSlot(s.recs, path) != -1
    ensures var n := FileSlot(s.recs, path);
            var s' := WriteS(s, path, data, append).1;
            && Valid(s') && s'.ram == Written(s, n, data, append).ram && s'.recs == Written(s, n, data, append).recs
            && Data(s', n) == s'.ram[n]
            && (forall i :: 0 <= i < FILE_MAX && i != n ==> Data(s', i) == Data(s, i) && s'.ram[i] == s.ram[i])
  {
    var n := FileSlot(s.recs, path);
    var w := Written(s, n, data, append);
    if s.backed && n <= 62 {
      var d := Put(s.disk, SlotLba(n), w.ram[n], META_SECTORS);
      ResizedKeepsTree(s.recs, n, w.recs[n].size);
      PersistedData(w.(disk := d));
      GetPut(s.disk, SlotLba(n), w.ram[n], META_SECTORS);
      assert w.ram[n][..META_BYTES] + Get(s.disk, SlotLba(n))[META_BYTES..] == w.ram[n];
      forall i | 0 <= i <= 62 && i != n
        ensures Get(d, SlotLba(i)) == Get(s.disk, SlotLba(i))
      {
        GetPutOther(s.disk, SlotLba(n), w.ram[n], META_SECTORS, SlotLba(i));
      }
    }
  }

  /**
   * What a write leaves, exactly: the bytes that memory held before the append position, then the
   * data, cut at 4096; no other path changes.  It reports failure for slot 63 of a disk alone.
   */
  lemma WriteExact(s: State, path: string, data: seq<Byte>, append: bool)
    requires Valid(s)
    ensures var (ok, s') := WriteS(s, path, data, append);
            var n := FileSlot(s.recs, path);
            && (n == -1 ==> !ok && s' == s)
            && (n != -1 ==>
                  && (ok <==> !(s.backed && n == 63))
                  && Abs(s') == Abs(s)[Resolve("/", path).value :=
                       File(Truncate((if append then s.ram[n][..s.recs[n].size] else []) + data))])
  {
    FoundInTree(s, path);
    var n := FileSlot(s.recs, path);
    if n != -1 {
      WriteAtSlot(s, path, data, append, n);
    }
  }

  lemma WriteAtSlot(s: State, path: string, data: seq<Byte>, append: bool, n: int)
    requires Valid(s) && n == FileSlot(s.recs, path) && n != -1
    ensures Abs(WriteS(s, path, data, append).1) ==
            Abs(s)[PathOf(s.recs, n) := File(Truncate((if append then s.ram[n][..s.recs[n].size] else []) + data))]
  {
    var s' := WriteS(s, path, data, append).1;
    WriteData(s, path, data, append);
    WrittenNode(s, s', n, data, append);
    LiveFacts(s.recs, n);
    ResizedKeepsTree(s.recs, n, s'.recs[n].size);
    TreePut(s, s', n, PathOf(s.recs, n));
  }

  lemma WrittenNode(s: State, s': State, n: int, data: seq<Byte>, append: bool)
    requires Valid(s) && IsFile(s.recs, n) && Valid(s')
    requires s'.recs == Written(s, n, data, append).recs && s'.ram == Written(s, n, data, append).ram
    requires Data(s', n) == s'.ram[n]
    ensures NodeAt(s', n) == File(Truncate((if append then s.ram[n][..s.recs[n].size] else []) + data))
  {
    LiveFacts(s.recs, n);
    var pos := if append then s.recs[n].size else 0;
    OverlayPrefix(s.ram[n], pos, data);
    assert s.ram[n][..0] == [];
  }

  /**
   * An append adds to the bytes a reader would have seen exactly when memory holds those bytes.
   */
  lemma AppendExact(s: State, path: string, data: seq<Byte>)
    requires Valid(s) && FileSlot(s.recs, path) != -1
    ensures Abs(WriteS(s, path, data, true).1) == WriteTree(Abs(s), path, data, true).1 <==>
            Coherent(s, FileSlot(s.recs, path))
  {
    var n := FileSlot(s.recs, path);
    var q := Resolve("/", path).value;
    WriteExact(s, path, data, true);
    FoundInTree(s, path);
    var size := s.recs[n].size;
    var inMemory, onDisk := s.ram[n][..size], Data(s, n)[..size];
    var m := Abs(s);
    assert m[q] == File(onDisk);
    if inMemory != onDisk {
      assert Truncate(inMemory + data)[..size] == inMemory && Truncate(onDisk + data)[..size] == onDisk;
      assert Abs(WriteS(s, path, data, true).1)[q] == File(Truncate(inMemory + data));
      assert WriteTree(m, path, data, true).1[q] == File(Truncate(onDisk + data));
    }
  }

  lemma WriteRefines(s: State, path: string, data: seq<Byte>, append: bool)
    requires Valid(s) && !(s.backed && FileSlot(s.recs, path) == 63)
    requires append && FileSlot(s.recs, path) != -1 ==> Coherent(s, FileSlot(s.recs, path))
    ensures var (ok, s') := WriteS(s, path, data, append);
            Valid(s') && (ok, Abs(s')) == WriteTree(Abs(s), path, data, append)
  {
    WriteExact(s, path, data, append);
    FoundInTree(s, path);
    if append && FileSlot(s.recs, path) != -1 {
      AppendExact(s, path, data);
    }
  }
}
