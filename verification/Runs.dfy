/** Whole runs of operations, and the composite operations copy and move. */
module Runs {
  import opened CStrings
  import opened Paths
  import opened Table
  import opened FileSystem
  import opened Refinement
  import opened Listing

  // ---------- good states, and the files in memory ----------

  /** On a disk, slot 63 has no sectors: no file may be in it. */
  ghost predicate Good(s: State) {
    Valid(s) && (s.backed ==> !IsFile(s.recs, 63))
  }

  /** Memory holds the files at these paths as a reader would see them. */
  ghost predicate Warm(s: State, w: set<Path>)
    requires Valid(s)
  {
    forall i {:trigger Coherent(s, i)} :: 0 <= i < FILE_MAX && IsFile(s.recs, i) && PathOf(s.recs, i) in w ==> Coherent(s, i)
  }

  /** A mount knows of no file in memory; without a disk all of them are. */
  lemma WarmAtFirst(s: State)
    requires Valid(s)
    ensures Warm(s, {})
    ensures !s.backed ==> forall w :: Warm(s, w)
  {
  }

  /** The path of a text that names a file. */
  function FileAt(m: Tree, path: string): set<Path> {
    match Resolve("/", path)
    case None => {}
    case Some(q) => if IsRegular(m, q) then {q} else {}
  }

  /** The path of a text under which a node can be made. */
  function MadeAt(m: Tree, path: string): set<Path> {
    match Resolve("/", path)
    case None => {}
    case Some(q) => if CanMake(m, q) then {q} else {}
  }

  // ---------- creating ----------

  /** What create() adds: an empty record in the first free slot, and no other path changes. */
  lemma Created(t: Table, path: string, kind: Byte, slot: int)
    requires TreeInv(t) && PathArg(path) && (kind == DIRECTORY || kind == FILE)
    requires CreateT(t, path, kind).Some? && slot == FirstFree(t, 1)
    ensures var t', q := CreateT(t, path, kind).value, Resolve("/", path).value;
            && TreeInv(t') && 0 < slot < FILE_MAX && !Live(t, slot) && Live(t', slot)
            && t' == t[slot := t'[slot]] && t'[slot].size == 0 && t'[slot].kind == kind && PathOf(t', slot) == q
            && forall i :: 0 <= i < FILE_MAX && Live(t, i) ==> PathOf(t', i) == PathOf(t, i)
  {
    var q := Resolve("/", path).value;
    ResolvedPath(path);
    LookupCorrect(t, q);
    LookupCorrect(t, q[..|q| - 1]);
    AddedKeepsTree(t, q, slot, kind);
  }

  /** Slot 63 is the first free one only when all others are in use. */
  lemma LastSlotFree(s: State)
    requires Valid(s) && FirstFree(s.recs, 1) == 63
    ensures |Abs(s)| == FILE_MAX - 1
  {
    var t := s.recs;
    TreeSize(s);
    assert forall i :: 0 <= i < 63 ==> Live(t, i);
    LiveCount(t, 63);
    assert LiveSlots(t, FILE_MAX) == LiveSlots(t, 63);
  }

  /** A new file keeps the state good exactly when it does not take slot 63 of a disk. */
  lemma TouchGood(s: State, path: string)
    requires Good(s) && PathArg(path)
    ensures Good(TouchS(s, path).1) <==> !(s.backed && MadeAt(Abs(s), path) != {} && FirstFree(s.recs, 1) == 63)
  {
    FoundInTree(s, path);
    CreateAllowed(s, path, FILE);
    if FindPath(s.recs, path) < 0 && CreateT(s.recs, path, FILE).Some? {
      Created(s.recs, path, FILE, FirstFree(s.recs, 1));
    }
  }

  lemma MkdirGood(s: State, path: string)
    requires Good(s) && PathArg(path)
    ensures Good(MkdirS(s, path).1)
  {
    if CreateT(s.recs, path, DIRECTORY).Some? {
      Created(s.recs, path, DIRECTORY, FirstFree(s.recs, 1));
    }
  }

  /** Creating moves no bytes, and what it creates is empty. */
  lemma CreateWarm(s: State, path: string, kind: Byte, w: set<Path>)
    requires Valid(s) && Warm(s, w) && PathArg(path) && (kind == DIRECTORY || kind == FILE)
    requires CreateT(s.recs, path, kind).Some?
    ensures var t := CreateT(s.recs, path, kind).value;
            && TreeInv(t) && Valid(Persisted(s.(recs := t)))
            && Warm(Persisted(s.(recs := t)), w + {Resolve("/", path).value})
  {
    var t, slot := CreateT(s.recs, path, kind).value, FirstFree(s.recs, 1);
    Created(s.recs, path, kind, slot);
    var w' := s.(recs := t);
    PersistedData(w');
    forall i | 0 <= i < FILE_MAX && IsFile(t, i) && PathOf(t, i) in w + {Resolve("/", path).value}
      ensures Coherent(Persisted(w'), i)
    {
      if i != slot {
        if PathOf(t, i) == PathOf(t, slot) {
          PathOfInjective(t, i, slot);
        }
        assert Coherent(s, i);
      }
    }
  }

  // ---------- deleting ----------

  lemma FreedWarm(s: State, n: nat, w: set<Path>)
    requires Valid(s) && Warm(s, w) && 0 < n < FILE_MAX && Live(s.recs, n) && Childless(s.recs, n)
    ensures var s' := s.(recs := Freed(s.recs, n)); Valid(s') && Valid(Persisted(s')) && Warm(Persisted(s'), w)
  {
    var s' := s.(recs := Freed(s.recs, n));
    FreedKeepsTree(s.recs, n);
    PersistedData(s');
    forall i | 0 <= i < FILE_MAX && IsFile(s'.recs, i) && PathOf(s'.recs, i) in w
      ensures Coherent(Persisted(s'), i)
    {
      assert Coherent(s, i);
    }
  }

  lemma RmdirGood(s: State, path: string, w: set<Path>)
    requires Good(s) && Warm(s, w)
    ensures Good(RmdirS(s, path).1) && Warm(RmdirS(s, path).1, w)
  {
    FoundInTree(s, path);
    if RmdirS(s, path).0 {
      FreedWarm(s, FindPath(s.recs, path), w);
    }
  }

  lemma RemoveGood(s: State, path: string, w: set<Path>)
    requires Good(s) && Warm(s, w)
    ensures Good(RemoveS(s, path).1) && Warm(RemoveS(s, path).1, w)
  {
    FoundInTree(s, path);
    if RemoveS(s, path).0 {
      FileChildless(s.recs, FindPath(s.recs, path));
      FreedWarm(s, FindPath(s.recs, path), w);
    }
  }

  // ---------- reading and writing ----------

  lemma FileAtSlot(s: State, path: string)
    requires Valid(s)
    ensures var n := FileSlot(s.recs, path); FileAt(Abs(s), path) == if n == -1 then {} else {PathOf(s.recs, n)}
  {
    FoundInTree(s, path);
  }

  /** A file that has been read is in memory. */
  lemma ReadWarm(s: State, path: string, capacity: nat, w: set<Path>)
    requires Good(s) && Warm(s, w)
    ensures var s' := ReadS(s, path, capacity).1; Good(s') && Warm(s', w + FileAt(Abs(s), path))
  {
    var s' := ReadS(s, path, capacity).1;
    ReadEffect(s, path, capacity);
    FileAtSlot(s, path);
    forall i | 0 <= i < FILE_MAX && IsFile(s'.recs, i) && PathOf(s'.recs, i) in w + FileAt(Abs(s), path)
      ensures Coherent(s', i)
    {
      if PathOf(s.recs, i) in w {
        assert Coherent(s, i);
      } else {
        PathOfInjective(s.recs, i, FileSlot(s.recs, path));
      }
    }
  }

  /** A file that has been written is in memory. */
  lemma WriteWarm(s: State, path: string, data: seq<Byte>, append: bool, w: set<Path>)
    requires Good(s) && Warm(s, w)
    ensures var s' := WriteS(s, path, data, append).1; Good(s') && Warm(s', w + FileAt(Abs(s), path))
  {
    FileAtSlot(s, path);
    var n := FileSlot(s.recs, path);
    if n != -1 {
      WriteData(s, path, data, append);
      LiveFacts(s.recs, n);
      WrittenWarm(s, WriteS(s, path, data, append).1, n, w);
    }
  }

  lemma WrittenWarm(s: State, s': State, n: nat, w: set<Path>)
    requires Good(s) && Valid(s') && Warm(s, w) && n < FILE_MAX && IsFile(s.recs, n) && s'.backed == s.backed
    requires s'.recs == Resized(s.recs, n, s'.recs[n].size) && s'.recs[n].size <= CONTENT_MAX
    requires Data(s', n) == s'.ram[n]
    requires forall i :: 0 <= i < FILE_MAX && i != n ==> Data(s', i) == Data(s, i) && s'.ram[i] == s.ram[i]
    ensures Good(s') && Warm(s', w + {PathOf(s.recs, n)})
  {
    ResizedKeepsTree(s.recs, n, s'.recs[n].size);
    forall i | 0 <= i < FILE_MAX && IsFile(s'.recs, i) && PathOf(s'.recs, i) in w + {PathOf(s.recs, n)}
      ensures Coherent(s', i)
    {
      if i != n {
        if PathOf(s.recs, i) == PathOf(s.recs, n) {
          PathOfInjective(s.recs, i, n);
        }
        assert Coherent(s, i);
      }
    }
  }

  // ---------- copy and move ----------

  lemma FilesAreSmall(s: State, q: Path)
    requires Valid(s) && IsRegular(Abs(s), q)
    ensures |Abs(s)[q].bytes| <= CONTENT_MAX
  {
    AbsAt(s, q);
  }

  /** A copy or move that makes a new file does not put it into slot 63 of a disk. */
  ghost predicate HasRoom(s: State, target: string)
    requires Valid(s)
  {
    s.backed && MadeAt(Abs(s), target) != {} ==> FirstFree(s.recs, 1) != 63
  }

  /** The slot that a copy's target has, or will have once it is made. */
  function Landing(t: Table, target: string): int {
    if FindPath(t, target) >= 0 then FileSlot(t, target) else FirstFree(t, 1)
  }

  /** Neither end of a copy that the tree allows is in slot 63 of a disk. */
  ghost predicate CopyHasSectors(s: State, source: string, target: string)
    requires Valid(s)
  {
    s.backed && CopyTree(Abs(s), source, target).0 ==> FileSlot(s.recs, source) != 63 && Landing(s.recs, target) != 63
  }

  /** A copy gives the target the source's bytes and changes nothing else, unless one of them has no sectors: then it fails. */
  lemma CopyExact(s: State, source: string, target: string)
    requires Valid(s) && PathArg(source) && PathArg(target)
    ensures var (ok, s') := CopyS(s, source, target);
            if CopyHasSectors(s, source, target) then (ok, Abs(s')) == CopyTree(Abs(s), source, target)
            else !ok && CopyTree(Abs(s), source, target).0
  {
    var (bytes, s1) := ReadS(s, source, CONTENT_MAX);
    ReadAll(s, source);
    if bytes.Some? {
      CopyAfterRead(s, s1, source, target);
    }
  }

  /** Reading with room for 4096 bytes gives the whole file, unless it has no sectors. */
  lemma ReadAll(s: State, source: string)
    requires Valid(s)
    ensures var (bytes, s1) := ReadS(s, source, CONTENT_MAX);
            && Abs(s1) == Abs(s) && s1.recs == s.recs && s1.backed == s.backed
            && (bytes.None? <==> FileAt(Abs(s), source) == {} || (s.backed && FileSlot(s.recs, source) == 63))
            && (bytes.Some? ==> Resolve("/", source).Some? && IsRegular(Abs(s), Resolve("/", source).value)
                                && bytes.value == Abs(s)[Resolve("/", source).value].bytes && |bytes.value| <= CONTENT_MAX)
  {
    ReadEffect(s, source, CONTENT_MAX);
    ReadRefines(s, source, CONTENT_MAX);
    FoundInTree(s, source);
    if ReadS(s, source, CONTENT_MAX).0.Some? {
      FilesAreSmall(s, Resolve("/", source).value);
    }
  }

  lemma CopyAfterRead(s: State, s1: State, source: string, target: string)
    requires Valid(s) && PathArg(source) && PathArg(target) && Valid(s1) && Resolve("/", source).Some?
    requires Abs(s1) == Abs(s) && s1.recs == s.recs && s1.backed == s.backed && !(s.backed && FileSlot(s.recs, source) == 63)
    requires IsRegular(Abs(s), Resolve("/", source).value) && |Abs(s)[Resolve("/", source).value].bytes| <= CONTENT_MAX
    requires ReadS(s, source, CONTENT_MAX) == (Some(Abs(s)[Resolve("/", source).value].bytes), s1)
    ensures var (ok, s') := CopyS(s, source, target);
            if CopyHasSectors(s, source, target) then (ok, Abs(s')) == CopyTree(Abs(s), source, target)
            else !ok && CopyTree(Abs(s), source, target).0
  {
    PasteExact(s1, Resolve("/", source).value, target);
  }

  /** The second half of a copy: touch the target and fill it with the bytes of a file. */
  lemma PasteExact(s: State, from: Path, target: string)
    requires Valid(s) && PathArg(target) && IsRegular(Abs(s), from) && |Abs(s)[from].bytes| <= CONTENT_MAX
    ensures var m, to, (ok, s1) := Abs(s), Resolve("/", target), TouchS(s, target);
            var (ok2, s2) := if ok then WriteS(s1, target, m[from].bytes, false) else (false, s1);
            var ok' := to.Some? && (IsRegular(m, to.value) || CanMake(m, to.value));
            if s.backed && ok' && Landing(s.recs, target) == 63 then !ok2
            else ok2 == ok' && Abs(s2) == if ok' then m[to.value := m[from]] else m
  {
    var m := Abs(s);
    var (ok, s1) := TouchS(s, target);
    TouchRefines(s, target);
    if ok {
      LandsThere(s, target);
      FillExact(s1, target, m[from].bytes);
    }
  }

  /** Overwriting with at most 4096 bytes. */
  lemma FillExact(s: State, target: string, bytes: seq<Byte>)
    requires Valid(s) && |bytes| <= CONTENT_MAX
    ensures var (ok, s') := WriteS(s, target, bytes, false);
            if FileAt(Abs(s), target) == {} then !ok && Abs(s') == Abs(s)
            else if s.backed && FileSlot(s.recs, target) == 63 then !ok
            else ok && Abs(s') == Abs(s)[Resolve("/", target).value := File(bytes)]
  {
    FoundInTree(s, target);
    WriteExact(s, target, bytes, false);
    assert [] + bytes == bytes;
  }

  /** After touching, the target is in the slot foreseen. */
  lemma LandsThere(s: State, target: string)
    requires Valid(s) && PathArg(target) && TouchS(s, target).0
    ensures FileSlot(TouchS(s, target).1.recs, target) == Landing(s.recs, target)
  {
    FoundInTree(s, target);
    if FindPath(s.recs, target) < 0 {
      Created(s.recs, target, FILE, FirstFree(s.recs, 1));
      FindOwn(TouchS(s, target).1, target, FirstFree(s.recs, 1));
    }
  }

  lemma FindOwn(s: State, path: string, n: nat)
    requires Valid(s) && n < FILE_MAX && IsFile(s.recs, n) && Resolve("/", path) == Some(PathOf(s.recs, n))
    ensures FileSlot(s.recs, path) == n
  {
    LookupCorrect(s.recs, PathOf(s.recs, n));
  }

  /** With room outside slot 63 the target has sectors. */
  lemma RoomHasSectors(s: State, source: string, target: string)
    requires Good(s) && (FileAt(Abs(s), source) != {} ==> HasRoom(s, target))
    ensures CopyHasSectors(s, source, target)
  {
    FoundInTree(s, target);
  }

  /** So in a good state only a new file can be the reason of a failure. */
  lemma CopyRefines(s: State, source: string, target: string)
    requires Good(s) && PathArg(source) && PathArg(target)
    requires FileAt(Abs(s), source) != {} ==> HasRoom(s, target)
    ensures var (ok, s') := CopyS(s, source, target);
            Good(s') && (ok, Abs(s')) == CopyTree(Abs(s), source, target)
  {
    WarmAtFirst(s);
    CopyWarm(s, source, target, {});
    RoomHasSectors(s, source, target);
    CopyExact(s, source, target);
  }

  /** The files known to be in memory after a copy. */
  function CopyWarmed(m: Tree, w: set<Path>, source: string, target: string): set<Path> {
    if FileAt(m, source) == {} then w else w + FileAt(m, source) + FileAt(m, target) + MadeAt(m, target)
  }

  /** After a copy both files are in memory. */
  lemma CopyWarm(s: State, source: string, target: string, w: set<Path>)
    requires Good(s) && Warm(s, w) && PathArg(source) && PathArg(target)
    requires FileAt(Abs(s), source) != {} ==> HasRoom(s, target)
    ensures var s' := CopyS(s, source, target).1; Good(s') && Warm(s', CopyWarmed(Abs(s), w, source, target))
  {
    var (bytes, s1) := ReadS(s, source, CONTENT_MAX);
    ReadEffect(s, source, CONTENT_MAX);
    ReadAll(s, source);
    ReadWarm(s, source, CONTENT_MAX, w);
    if bytes.Some? {
      PasteWarm(s1, bytes.value, target, w + FileAt(Abs(s), source));
    } else {
      assert w + {} == w;
    }
  }

  lemma PasteWarm(s: State, bytes: seq<Byte>, target: string, w: set<Path>)
    requires Good(s) && Warm(s, w) && PathArg(target) && HasRoom(s, target)
    ensures var (ok, s1) := TouchS(s, target);
            var s2 := if ok then WriteS(s1, target, bytes, false).1 else s1;
            Good(s2) && Warm(s2, w + FileAt(Abs(s), target) + MadeAt(Abs(s), target))
  {
    var m := Abs(s);
    var (ok, s1) := TouchS(s, target);
    TouchWarm(s, target, w);
    TouchGood(s, target);
    TouchRefines(s, target);
    if ok {
      WriteWarm(s1, target, bytes, false, w + MadeAt(m, target));
      assert w + MadeAt(m, target) + FileAt(Abs(s1), target) == w + FileAt(m, target) + MadeAt(m, target);
    } else {
      assert w + FileAt(m, target) + MadeAt(m, target) == w;
    }
  }

  lemma TouchWarm(s: State, path: string, w: set<Path>)
    requires Valid(s) && Warm(s, w) && PathArg(path)
    ensures Warm(TouchS(s, path).1, w + MadeAt(Abs(s), path))
  {
    FoundInTree(s, path);
    CreateAllowed(s, path, FILE);
    if FindPath(s.recs, path) < 0 && CreateT(s.recs, path, FILE).Some? {
      CreateWarm(s, path, FILE, w);
    } else {
      assert w + {} == w;
    }
  }

  /** A move fails when its copy does; otherwise it is the copy without the source. */
  lemma MoveExact(s: State, source: string, target: string)
    requires Valid(s) && PathArg(source) && PathArg(target)
    ensures var (ok, s') := MoveS(s, source, target);
            if CopyHasSectors(s, source, target) then (ok, Abs(s')) == MoveTree(Abs(s), source, target)
            else !ok && MoveTree(Abs(s), source, target).0
  {
    CopyExact(s, source, target);
    var (ok, s1) := CopyS(s, source, target);
    if ok {
      RemoveRefines(s1, source);
    }
  }

  /** A move is the copy without the source; onto itself it removes the file. */
  lemma MoveRefines(s: State, source: string, target: string)
    requires Good(s) && PathArg(source) && PathArg(target)
    requires FileAt(Abs(s), source) != {} ==> HasRoom(s, target)
    ensures var (ok, s') := MoveS(s, source, target);
            Good(s') && (ok, Abs(s')) == MoveTree(Abs(s), source, target)
  {
    WarmAtFirst(s);
    MoveWarm(s, source, target, {});
    RoomHasSectors(s, source, target);
    MoveExact(s, source, target);
  }

  /**
   * When a move succeeds, the target holds the source's bytes and the source is gone; but if both
   * name the same path the file is lost, and that is the only such case.
   */
  lemma MoveMeaning(m: Tree, source: string, target: string)
    requires MoveTree(m, source, target).0
    ensures var from, to := Resolve("/", source).value, Resolve("/", target).value;
            var m' := MoveTree(m, source, target).1;
            && from !in m'
            && (forall p :: p != from && p != to ==> (p in m' <==> p in m) && (p in m ==> m'[p] == m[p]))
            && (to in m' && m'[to] == m[from] <==> from != to)
  {
  }

  /** The same on the kernel's state. */
  lemma MoveOnState(s: State, source: string, target: string)
    requires Good(s) && PathArg(source) && PathArg(target)
    requires FileAt(Abs(s), source) != {} ==> HasRoom(s, target)
    ensures var (ok, s') := MoveS(s, source, target);
            Good(s') &&
            if ok then
              var from, to := Resolve("/", source).value, Resolve("/", target).value;
              && from in Abs(s) && from !in Abs(s')
              && (forall p :: p != from && p != to ==> (p in Abs(s') <==> p in Abs(s)) && (p in Abs(s) ==> Abs(s')[p] == Abs(s)[p]))
              && (to in Abs(s') && Abs(s')[to] == Abs(s)[from] <==> from != to)
            else Abs(s') == Abs(s)
  {
    MoveRefines(s, source, target);
    if MoveS(s, source, target).0 {
      MoveMeaning(Abs(s), source, target);
    }
  }

  // ---------- single operations ----------

  datatype Op =
    | Mkdir(path: string)
    | Touch(path: string)
    | Rmdir(path: string)
    | Remove(path: string)
    | Stat(path: string)
    | Read(path: string, capacity: nat)
    | Write(path: string, data: seq<Byte>, append: bool)
    | Copy(path: string, target: string)
    | Move(path: string, target: string)
    | List(path: string)

  datatype Reply =
    | Done(ok: bool)
    | Bytes(bytes: Option<seq<Byte>>)
    | Info(node: Option<(bool, nat)>)
    | Names(entries: Option<multiset<Entry>>)

  predicate Arguments(op: Op) {
    PathArg(op.path) && ((op.Copy? || op.Move?) ==> PathArg(op.target))
  }

  /** What stat tells of a node: whether it is a directory, and its size. */
  function Facts(node: Node): (bool, nat) {
    if node.Dir? then (true, 0) else (false, |node.bytes|)
  }

  function StatTree(m: Tree, path: string): Option<(bool, nat)> {
    match Resolve("/", path)
    case None => None
    case Some(q) => if q in m then Some(Facts(m[q])) else None
  }

  function StatS(s: State, path: string): Option<(bool, nat)> {
    var n := FindPath(s.recs, path);
    if n < 0 then None else Some((s.recs[n].kind == DIRECTORY, s.recs[n].size))
  }

  ghost function StepS(s: State, op: Op): (r: (Reply, State))
    requires Valid(s) && Arguments(op)
    ensures Valid(r.1) && r.1.backed == s.backed
  {
    match op
    case Mkdir(p) => var (ok, s') := MkdirS(s, p); (Done(ok), s')
    case Touch(p) => var (ok, s') := TouchS(s, p); (Done(ok), s')
    case Rmdir(p) => var (ok, s') := RmdirS(s, p); (Done(ok), s')
    case Remove(p) => var (ok, s') := RemoveS(s, p); (Done(ok), s')
    case Stat(p) => (Info(StatS(s, p)), s)
    case Read(p, capacity) => var (bytes, s') := ReadS(s, p, capacity); (Bytes(bytes), s')
    case Write(p, data, append) => var (ok, s') := WriteS(s, p, data, append); (Done(ok), s')
    case Copy(p, target) => var (ok, s') := CopyS(s, p, target); (Done(ok), s')
    case Move(p, target) => var (ok, s') := MoveS(s, p, target); (Done(ok), s')
    case List(p) => (Names(ListS(s, p)), s)
  }

  function StepTree(m: Tree, op: Op): (Reply, Tree) {
    match op
    case Mkdir(p) => var (ok, m') := MakeTree(m, p, Dir); (Done(ok), m')
    case Touch(p) => var (ok, m') := TouchTree(m, p); (Done(ok), m')
    case Rmdir(p) => var (ok, m') := RmdirTree(m, p); (Done(ok), m')
    case Remove(p) => var (ok, m') := RemoveTree(m, p); (Done(ok), m')
    case Stat(p) => (Info(StatTree(m, p)), m)
    case Read(p, capacity) => (Bytes(ReadTree(m, p, capacity)), m)
    case Write(p, data, append) => var (ok, m') := WriteTree(m, p, data, append); (Done(ok), m')
    case Copy(p, target) => var (ok, m') := CopyTree(m, p, target); (Done(ok), m')
    case Move(p, target) => var (ok, m') := MoveTree(m, p, target); (Done(ok), m')
    case List(p) => (Names(ListTree(m, p)), m)
  }

  lemma StatRefines(s: State, path: string)
    requires Valid(s)
    ensures StatS(s, path) == StatTree(Abs(s), path)
  {
    FoundInTree(s, path);
    var n := FindPath(s.recs, path);
    if n != -1 {
      LiveFacts(s.recs, n);
    }
  }

  // ---------- when a step does what the tree says ----------

  /** The operation makes a new file. */
  predicate CreatesFile(m: Tree, op: Op) {
    match op
    case Touch(p) => MadeAt(m, p) != {}
    case Copy(p, target) => FileAt(m, p) != {} && MadeAt(m, target) != {}
    case Move(p, target) => FileAt(m, p) != {} && MadeAt(m, target) != {}
    case _ => false
  }

  /** On a disk no new file goes into slot 63. */
  ghost predicate Placed(s: State, op: Op)
    requires Valid(s)
  {
    s.backed && CreatesFile(Abs(s), op) ==> FirstFree(s.recs, 1) != 63
  }

  /** Besides, it appends to no file outside memory. */
  ghost predicate Safe(s: State, op: Op)
    requires Valid(s)
  {
    Placed(s, op) &&
    (s.backed && op.Write? && op.append && FileSlot(s.recs, op.path) != -1 ==> Coherent(s, FileSlot(s.recs, op.path)))
  }

  /**
   * What a step asks for: on a disk, the files it reads or writes have sectors, that is, are not in
   * slot 63, and a file it appends to is in memory.
   */
  ghost predicate Faithful(s: State, op: Op)
    requires Valid(s)
  {
    s.backed ==>
      match op
      case Read(p, _) => FileSlot(s.recs, p) != 63
      case Write(p, _, append) => var n := FileSlot(s.recs, p); n != 63 && (append && n != -1 ==> Coherent(s, n))
      case Copy(p, target) => CopyHasSectors(s, p, target)
      case Move(p, target) => CopyHasSectors(s, p, target)
      case _ => true
  }

  /**
   * In every valid state, an operation gives the tree's reply and the tree's effect if and only if
   * the files it reads or writes have sectors and it appends to no file outside memory.
   */
  lemma StepExact(s: State, op: Op)
    requires Valid(s) && Arguments(op)
    ensures Faithful(s, op) <==> (StepS(s, op).0, Abs(StepS(s, op).1)) == StepTree(Abs(s), op)
  {
    if op.Copy? || op.Move? {
      PairStepExact(s, op);
    } else if op.Read? || op.Write? {
      FileStepExact(s, op);
    } else {
      PathStepExact(s, op);
    }
  }

  /** Operations on records alone are always exact. */
  lemma PathStepExact(s: State, op: Op)
    requires Valid(s) && Arguments(op) && !(op.Copy? || op.Move? || op.Read? || op.Write?)
    ensures (StepS(s, op).0, Abs(StepS(s, op).1)) == StepTree(Abs(s), op)
  {
    match op {
      case Mkdir(p) => MkdirRefines(s, p);
      case Touch(p) => TouchRefines(s, p);
      case Rmdir(p) => RmdirRefines(s, p);
      case Remove(p) => RemoveRefines(s, p);
      case Stat(p) => StatRefines(s, p);
      case List(p) => ListRefines(s, p);
    }
  }

  lemma FileStepExact(s: State, op: Op)
    requires Valid(s) && Arguments(op) && (op.Read? || op.Write?)
    ensures Faithful(s, op) <==> (StepS(s, op).0, Abs(StepS(s, op).1)) == StepTree(Abs(s), op)
  {
    if op.Read? {
      ReadStepExact(s, op.path, op.capacity);
    } else {
      WriteStepExact(s, op.path, op.data, op.append);
    }
  }

  lemma PairStepExact(s: State, op: Op)
    requires Valid(s) && Arguments(op) && (op.Copy? || op.Move?)
    ensures Faithful(s, op) <==> (StepS(s, op).0, Abs(StepS(s, op).1)) == StepTree(Abs(s), op)
  {
    if op.Copy? {
      CopyExact(s, op.path, op.target);
    } else {
      MoveExact(s, op.path, op.target);
    }
  }

  lemma ReadStepExact(s: State, path: string, capacity: nat)
    requires Valid(s)
    ensures var (bytes, s') := ReadS(s, path, capacity);
            Abs(s') == Abs(s) && (!(s.backed && FileSlot(s.recs, path) == 63) <==> bytes == ReadTree(Abs(s), path, capacity))
  {
    ReadEffect(s, path, capacity);
    ReadRefines(s, path, capacity);
    FoundInTree(s, path);
  }

  lemma WriteStepExact(s: State, path: string, data: seq<Byte>, append: bool)
    requires Valid(s)
    ensures var n := FileSlot(s.recs, path);
            (s.backed ==> n != 63 && (append && n != -1 ==> Coherent(s, n))) <==>
            (WriteS(s, path, data, append).0, Abs(WriteS(s, path, data, append).1)) == WriteTree(Abs(s), path, data, append)
  {
    var n := FileSlot(s.recs, path);
    FoundInTree(s, path);
    WriteExact(s, path, data, append);
    if n != -1 && append {
      AppendExact(s, path, data);
    }
    if !(s.backed && n == 63) && (append && n != -1 ==> Coherent(s, n)) {
      WriteRefines(s, path, data, append);
    }
  }

  /** In a good state, an operation that is placed keeps it good, and an append is all that can go wrong. */
  lemma StepRefines(s: State, op: Op)
    requires Good(s) && Arguments(op) && Safe(s, op)
    ensures var (reply, s') := StepS(s, op);
            Good(s') && Faithful(s, op) && (reply, Abs(s')) == StepTree(Abs(s), op)
  {
    WarmAtFirst(s);
    StepGood(s, op);
    if op.Copy? || op.Move? {
      RoomHasSectors(s, op.path, op.target);
    }
    StepExact(s, op);
  }

  /** An operation keeps slot 63 of a disk free of files exactly when it makes no file there. */
  lemma StepGood(s: State, op: Op)
    requires Good(s) && Arguments(op)
    ensures Good(StepS(s, op).1) <==> Placed(s, op)
  {
    WarmAtFirst(s);
    if op.Mkdir? || op.Touch? || op.Rmdir? || op.Remove? {
      UpdateGood(s, op);
    } else if op.Read? {
      ReadWarm(s, op.path, op.capacity, {});
    } else if op.Write? {
      WriteWarm(s, op.path, op.data, op.append, {});
    } else if op.Copy? || op.Move? {
      PairGood(s, op);
    }
  }

  lemma PairGood(s: State, op: Op)
    requires Good(s) && Arguments(op) && (op.Copy? || op.Move?)
    ensures Good(StepS(s, op).1) <==> Placed(s, op)
  {
    WarmAtFirst(s);
    if !Placed(s, op) {
      CopyIntoLastSlot(s, op.path, op.target);
    } else if op.Copy? {
      CopyWarm(s, op.path, op.target, {});
    } else {
      MoveWarm(s, op.path, op.target, {});
    }
  }

  /** A copy whose new file lands in slot 63 of a disk leaves it there. */
  lemma CopyIntoLastSlot(s: State, source: string, target: string)
    requires Good(s) && PathArg(source) && PathArg(target) && s.backed
    requires FileAt(Abs(s), source) != {} && !HasRoom(s, target)
    ensures !CopyS(s, source, target).0 && !Good(CopyS(s, source, target).1)
  {
    var s1 := ReadS(s, source, CONTENT_MAX).1;
    ReadAll(s, source);
    TouchGood(s1, target);
    LandsThere(s1, target);
    FoundInTree(s1, target);
    TouchRefines(s1, target);
  }

  lemma UpdateGood(s: State, op: Op)
    requires Good(s) && Arguments(op) && (op.Mkdir? || op.Touch? || op.Rmdir? || op.Remove?)
    ensures Good(StepS(s, op).1) <==> Placed(s, op)
  {
    WarmAtFirst(s);
    match op {
      case Mkdir(p) => MkdirGood(s, p);
      case Touch(p) => TouchGood(s, p);
      case Rmdir(p) => RmdirGood(s, p, {});
      case Remove(p) => RemoveGood(s, p, {});
    }
  }

  // ---------- the same condition, told from the operations ----------

  /** The files known to be in memory after an operation: those read, written, made or copied. */
  function Warmed(m: Tree, w: set<Path>, op: Op): set<Path> {
    match op
    case Touch(p) => w + MadeAt(m, p)
    case Read(p, _) => w + FileAt(m, p)
    case Write(p, _, _) => w + FileAt(m, p)
    case Copy(p, target) => CopyWarmed(m, w, p, target)
    case Move(p, target) => CopyWarmed(m, w, p, target)
    case _ => w
  }

  /** Nothing known is forgotten, and each use of a file adds it. */
  lemma WarmedHolds(m: Tree, w: set<Path>, op: Op)
    ensures w <= Warmed(m, w, op)
    ensures op.Read? || op.Write? ==> FileAt(m, op.path) <= Warmed(m, w, op)
    ensures op.Touch? ==> MadeAt(m, op.path) <= Warmed(m, w, op)
    ensures (op.Copy? || op.Move?) && FileAt(m, op.path) != {} ==>
              FileAt(m, op.path) + FileAt(m, op.target) + MadeAt(m, op.target) <= Warmed(m, w, op)
  {
  }

  /** On a disk: new files keep the tree below 64 nodes, and appends go to files known to be in memory. */
  predicate Fine(m: Tree, w: set<Path>, op: Op) {
    && (CreatesFile(m, op) ==> |m| < FILE_MAX - 1)
    && (op.Write? && op.append ==> FileAt(m, op.path) <= w)
  }

  lemma UpdateWarm(s: State, op: Op, w: set<Path>)
    requires Good(s) && Arguments(op) && Warm(s, w) && (op.Mkdir? || op.Touch? || op.Rmdir? || op.Remove?)
    ensures Warm(StepS(s, op).1, Warmed(Abs(s), w, op))
  {
    match op {
      case Mkdir(p) =>
        if CreateT(s.recs, p, DIRECTORY).Some? {
          CreateWarm(s, p, DIRECTORY, w);
        }
      case Touch(p) => TouchWarm(s, p, w);
      case Rmdir(p) => RmdirGood(s, p, w);
      case Remove(p) => RemoveGood(s, p, w);
    }
  }

  lemma MoveWarm(s: State, source: string, target: string, w: set<Path>)
    requires Good(s) && Warm(s, w) && PathArg(source) && PathArg(target)
    requires FileAt(Abs(s), source) != {} ==> HasRoom(s, target)
    ensures Good(MoveS(s, source, target).1) && Warm(MoveS(s, source, target).1, CopyWarmed(Abs(s), w, source, target))
  {
    CopyWarm(s, source, target, w);
    RemoveGood(CopyS(s, source, target).1, source, CopyWarmed(Abs(s), w, source, target));
  }

  lemma PairWarm(s: State, op: Op, w: set<Path>)
    requires Good(s) && Arguments(op) && Placed(s, op) && Warm(s, w) && (op.Copy? || op.Move?)
    ensures Warm(StepS(s, op).1, Warmed(Abs(s), w, op))
  {
    assert Warmed(Abs(s), w, op) == CopyWarmed(Abs(s), w, op.path, op.target);
    if op.Copy? {
      CopyWarm(s, op.path, op.target, w);
    } else {
      MoveWarm(s, op.path, op.target, w);
    }
  }

  /** A file read, written, made or copied since the mount is in memory at every later point. */
  lemma StepWarm(s: State, op: Op, w: set<Path>)
    requires Good(s) && Arguments(op) && Placed(s, op) && Warm(s, w)
    ensures Warm(StepS(s, op).1, Warmed(Abs(s), w, op))
  {
    if op.Mkdir? || op.Touch? || op.Rmdir? || op.Remove? {
      UpdateWarm(s, op, w);
    } else if op.Copy? || op.Move? {
      PairWarm(s, op, w);
    } else if op.Read? {
      ReadWarm(s, op.path, op.capacity, w);
    } else if op.Write? {
      WriteWarm(s, op.path, op.data, op.append, w);
    }
  }

  lemma FineIsFaithful(s: State, op: Op, w: set<Path>)
    requires Good(s) && Arguments(op) && Warm(s, w) && (s.backed ==> Fine(Abs(s), w, op))
    ensures Safe(s, op) && Faithful(s, op)
  {
    if s.backed && FirstFree(s.recs, 1) == 63 {
      LastSlotFree(s);
    }
    if s.backed && op.Write? && op.append && FileSlot(s.recs, op.path) != -1 {
      FileAtSlot(s, op.path);
      assert PathOf(s.recs, FileSlot(s.recs, op.path)) in w;
    }
    StepRefines(s, op);
  }

  // ---------- runs ----------

  ghost function RunS(s: State, ops: seq<Op>): (r: (seq<Reply>, State))
    requires Valid(s) && forall i :: 0 <= i < |ops| ==> Arguments(ops[i])
    ensures Valid(r.1) && r.1.backed == s.backed
    decreases |ops|
  {
    if ops == [] then ([], s)
    else
      var (reply, s1) := StepS(s, ops[0]);
      var (replies, s2) := RunS(s1, ops[1..]);
      ([reply] + replies, s2)
  }

  function RunTree(m: Tree, ops: seq<Op>): (seq<Reply>, Tree)
    decreases |ops|
  {
    if ops == [] then ([], m)
    else
      var (reply, m1) := StepTree(m, ops[0]);
      var (replies, m2) := RunTree(m1, ops[1..]);
      ([reply] + replies, m2)
  }

  ghost predicate AllFaithful(s: State, ops: seq<Op>)
    requires Valid(s) && forall i :: 0 <= i < |ops| ==> Arguments(ops[i])
    decreases |ops|
  {
    ops == [] || (Faithful(s, ops[0]) && AllFaithful(StepS(s, ops[0]).1, ops[1..]))
  }

  /** A run has the tree's replies and ends in the tree's tree. */
  ghost predicate Agrees(s: State, ops: seq<Op>)
    requires Valid(s) && forall i :: 0 <= i < |ops| ==> Arguments(ops[i])
  {
    (RunS(s, ops).0, Abs(RunS(s, ops).1)) == RunTree(Abs(s), ops)
  }

  lemma AgreesFirst(s: State, ops: seq<Op>)
    requires Valid(s) && ops != [] && forall i :: 0 <= i < |ops| ==> Arguments(ops[i])
    requires (StepS(s, ops[0]).0, Abs(StepS(s, ops[0]).1)) == StepTree(Abs(s), ops[0])
    ensures Agrees(s, ops) <==> Agrees(StepS(s, ops[0]).1, ops[1..])
  {
    var s1 := StepS(s, ops[0]).1;
    var reply, a, b := StepS(s, ops[0]).0, RunS(s1, ops[1..]).0, RunTree(Abs(s1), ops[1..]).0;
    assert ([reply] + a)[1..] == a && ([reply] + b)[1..] == b;
  }

  lemma RunOne(s: State, op: Op)
    requires Valid(s) && Arguments(op)
    ensures RunS(s, [op]) == ([StepS(s, op).0], StepS(s, op).1)
    ensures RunTree(Abs(s), [op]) == ([StepTree(Abs(s), op).0], StepTree(Abs(s), op).1)
  {
    assert [op][1..] == [];
    assert [StepS(s, op).0] + [] == [StepS(s, op).0] && [StepTree(Abs(s), op).0] + [] == [StepTree(Abs(s), op).0];
  }

  lemma AgreesOne(s: State, op: Op)
    requires Valid(s) && Arguments(op)
    ensures Agrees(s, [op]) <==> (StepS(s, op).0, Abs(StepS(s, op).1)) == StepTree(Abs(s), op)
  {
    RunOne(s, op);
    assert [StepS(s, op).0][0] == StepS(s, op).0 && [StepTree(Abs(s), op).0][0] == StepTree(Abs(s), op).0;
  }

  lemma {:induction false} FaithfulAgrees(s: State, ops: seq<Op>, k: nat)
    requires Valid(s) && (forall i :: 0 <= i < |ops| ==> Arguments(ops[i])) && AllFaithful(s, ops) && k <= |ops|
    ensures Agrees(s, ops[..k])
    decreases k
  {
    if k > 0 {
      StepExact(s, ops[0]);
      FaithfulAgrees(StepS(s, ops[0]).1, ops[1..], k - 1);
      assert ops[..k][1..] == ops[1..][..k - 1];
      AgreesFirst(s, ops[..k]);
    }
  }

  lemma {:induction false} AgreesFaithful(s: State, ops: seq<Op>)
    requires Valid(s) && (forall i :: 0 <= i < |ops| ==> Arguments(ops[i]))
    requires forall k :: 0 <= k <= |ops| ==> Agrees(s, ops[..k])
    ensures AllFaithful(s, ops)
    decreases |ops|
  {
    if ops != [] {
      var s1 := StepS(s, ops[0]).1;
      assert ops[..1] == [ops[0]];
      AgreesOne(s, ops[0]);
      StepExact(s, ops[0]);
      forall k | 0 <= k <= |ops| - 1
        ensures Agrees(s1, ops[1..][..k])
      {
        assert ops[..k + 1][1..] == ops[1..][..k];
        AgreesFirst(s, ops[..k + 1]);
      }
      AgreesFaithful(s1, ops[1..]);
    }
  }

  /**
   * Exactly when a run is a run of the tree: from any valid state, all its beginnings have the
   * tree's replies and trees if and only if each step reads and writes files with sectors only and
   * appends to files in memory only.
   */
  lemma RunExact(s: State, ops: seq<Op>)
    requires Valid(s) && forall i :: 0 <= i < |ops| ==> Arguments(ops[i])
    ensures AllFaithful(s, ops) <==> forall k :: 0 <= k <= |ops| ==> Agrees(s, ops[..k])
  {
    if AllFaithful(s, ops) {
      forall k | 0 <= k <= |ops|
        ensures Agrees(s, ops[..k])
      {
        FaithfulAgrees(s, ops, k);
      }
    } else if forall k :: 0 <= k <= |ops| ==> Agrees(s, ops[..k]) {
      AgreesFaithful(s, ops);
    }
  }

  predicate AllFine(m: Tree, w: set<Path>, ops: seq<Op>)
    decreases |ops|
  {
    ops == [] || (Fine(m, w, ops[0]) && AllFine(StepTree(m, ops[0]).1, Warmed(m, w, ops[0]), ops[1..]))
  }

  /** The files known to be in memory after a run. */
  function RunWarm(m: Tree, w: set<Path>, ops: seq<Op>): set<Path>
    decreases |ops|
  {
    if ops == [] then w else RunWarm(StepTree(m, ops[0]).1, Warmed(m, w, ops[0]), ops[1..])
  }

  /**
   * Every run of the file system is a run of the tree: reply for reply, and ending in the same
   * tree.  A volatile mount needs nothing.  On a disk, whatever memory holds at first, appends must
   * go to files in memory and new files must not fill the last slot.
   */
  lemma {:induction false} RunRefines(s: State, w: set<Path>, ops: seq<Op>)
    requires Good(s) && Warm(s, w) && forall i :: 0 <= i < |ops| ==> Arguments(ops[i])
    requires s.backed ==> AllFine(Abs(s), w, ops)
    ensures var (replies, s') := RunS(s, ops);
            && Good(s') && Warm(s', RunWarm(Abs(s), w, ops))
            && (replies, Abs(s')) == RunTree(Abs(s), ops)
    decreases |ops|
  {
    if ops != [] {
      FineIsFaithful(s, ops[0], w);
      StepRefines(s, ops[0]);
      StepWarm(s, ops[0], w);
      RunRefines(StepS(s, ops[0]).1, Warmed(Abs(s), w, ops[0]), ops[1..]);
    }
  }

  // ---------- what a file holds after many writes ----------

  function Concat(chunks: seq<seq<Byte>>): seq<Byte> {
    if chunks == [] then [] else chunks[0] + Concat(chunks[1..])
  }

  function Appends(path: string, chunks: seq<seq<Byte>>): (ops: seq<Op>)
    ensures |ops| == |chunks| && forall i :: 0 <= i < |ops| ==> ops[i] == Write(path, chunks[i], true)
  {
    seq(|chunks|, i requires 0 <= i < |chunks| => Write(path, chunks[i], true))
  }

  lemma TruncateTwice(a: seq<Byte>, b: seq<Byte>, c: seq<Byte>)
    ensures Truncate(Truncate(a + b) + c) == Truncate(a + (b + c))
  {
  }

  lemma AppendOne(m: Tree, path: string, q: Path, bytes: seq<Byte>, m': Tree, later: Node)
    requires Resolve("/", path) == Some(q) && IsRegular(m, q) && m' == StepTree(m, Write(path, bytes, true)).1
    ensures IsRegular(m', q) && m'[q].bytes == Truncate(m[q].bytes + bytes) && |m'[q].bytes| <= CONTENT_MAX
    ensures m'[q := later] == m[q := later]
  {
  }

  /** Any number of appends leave the first 4096 bytes of everything appended, and touch no other path. */
  lemma {:induction false} AppendsConcatenate(m: Tree, path: string, q: Path, chunks: seq<seq<Byte>>)
    requires Resolve("/", path) == Some(q) && IsRegular(m, q) && |m[q].bytes| <= CONTENT_MAX
    ensures RunTree(m, Appends(path, chunks)).1 == m[q := File(Truncate(m[q].bytes + Concat(chunks)))]
    decreases |chunks|
  {
    var bytes, ops := m[q].bytes, Appends(path, chunks);
    if chunks == [] {
      assert bytes + [] == bytes;
    } else {
      var m' := StepTree(m, ops[0]).1;
      assert ops[1..] == Appends(path, chunks[1..]);
      AppendOne(m, path, q, chunks[0], m', File(Truncate(bytes + Concat(chunks))));
      AppendsConcatenate(m', path, q, chunks[1..]);
      TruncateTwice(bytes, chunks[0], Concat(chunks[1..]));
    }
  }

  /** All operations are appends to one text or reads of it. */
  predicate OnFile(path: string, ops: seq<Op>) {
    forall i :: 0 <= i < |ops| ==> ops[i].path == path && (ops[i].Read? || (ops[i].Write? && ops[i].append))
  }

  lemma {:induction false} OnFileFine(m: Tree, w: set<Path>, path: string, q: Path, ops: seq<Op>)
    requires Resolve("/", path) == Some(q) && IsRegular(m, q) && q in w && OnFile(path, ops)
    ensures AllFine(m, w, ops)
    decreases |ops|
  {
    if ops != [] {
      OnFileFine(StepTree(m, ops[0]).1, Warmed(m, w, ops[0]), path, q, ops[1..]);
    }
  }

  lemma {:induction false} RunTreeLast(m: Tree, ops: seq<Op>, op: Op)
    ensures |RunTree(m, ops).0| == |ops|
    ensures RunTree(m, ops + [op]).0 == RunTree(m, ops).0 + [StepTree(RunTree(m, ops).1, op).0]
    decreases |ops|
  {
    if ops == [] {
      assert [op][1..] == [] && ops + [op] == [op];
    } else {
      assert (ops + [op])[0] == ops[0] && (ops + [op])[1..] == ops[1..] + [op];
      RunTreeLast(StepTree(m, ops[0]).1, ops[1..], op);
    }
  }

  /** Reading back after any number of appends, on the kernel's state: the first 4096 bytes of everything. */
  lemma AppendsThenRead(s: State, w: set<Path>, path: string, chunks: seq<seq<Byte>>)
    requires Good(s) && Warm(s, w) && PathArg(path) && FileAt(Abs(s), path) != {} && (s.backed ==> FileAt(Abs(s), path) <= w)
    ensures var replies := RunS(s, Appends(path, chunks) + [Read(path, CONTENT_MAX)]).0;
            && |replies| == |chunks| + 1
            && replies[|chunks|] == Bytes(Some(Truncate(Abs(s)[Resolve("/", path).value].bytes + Concat(chunks))))
  {
    var m, q, appends, read := Abs(s), Resolve("/", path).value, Appends(path, chunks), Read(path, CONTENT_MAX);
    FilesAreSmall(s, q);
    if s.backed {
      OnFileFine(m, w, path, q, appends + [read]);
    }
    RunRefines(s, w, appends + [read]);
    RunTreeLast(m, appends, read);
    AppendsConcatenate(m, path, q, chunks);
    ReadWhole(m[q := File(Truncate(m[q].bytes + Concat(chunks)))], path, q);
  }

  lemma ReadWhole(m: Tree, path: string, q: Path)
    requires Resolve("/", path) == Some(q) && IsRegular(m, q) && |m[q].bytes| <= CONTENT_MAX
    ensures StepTree(m, Read(path, CONTENT_MAX)).0 == Bytes(Some(m[q].bytes))
  {
    assert m[q].bytes[..|m[q].bytes|] == m[q].bytes;
  }

  // ---------- from an empty tree every file is in memory ----------

  predicate AllWarm(m: Tree, w: set<Path>) {
    forall q :: q in m && m[q].File? ==> q in w
  }

  lemma StepAllWarm(m: Tree, w: set<Path>, op: Op)
    requires AllWarm(m, w)
    ensures AllWarm(StepTree(m, op).1, Warmed(m, w, op))
  {
  }

  /** While every file is in memory, only the last slot can make a difference. */
  predicate AllFit(m: Tree, ops: seq<Op>)
    decreases |ops|
  {
    ops == [] || ((CreatesFile(m, ops[0]) ==> |m| < FILE_MAX - 1) && AllFit(StepTree(m, ops[0]).1, ops[1..]))
  }

  lemma {:induction false} FitIsFine(m: Tree, w: set<Path>, ops: seq<Op>)
    requires AllWarm(m, w)
    ensures AllFine(m, w, ops) <==> AllFit(m, ops)
    decreases |ops|
  {
    if ops != [] {
      StepAllWarm(m, w, ops[0]);
      FitIsFine(StepTree(m, ops[0]).1, Warmed(m, w, ops[0]), ops[1..]);
    }
  }
}
