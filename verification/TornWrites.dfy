/** Exactly which writes a crash cannot tear. */
module TornWrites {
  import opened CStrings
  import opened Paths
  import opened Table
  import opened Layout
  import opened FileSystem
  import opened Refinement
  import opened Runs
  import opened Recovery

  /** Two blocks differ, below m, in one sector at most. */
  predicate DifferInOneSector(a: Block, b: Block, m: nat)
    requires m <= CONTENT_MAX
  {
    forall x, y :: 0 <= x < m && 0 <= y < m && a[x] != b[x] && a[y] != b[y] ==> x / SECTOR == y / SECTOR
  }

  /**
   * What can be checked before the call: the bytes the file has are written over themselves, or its
   * length stays and the bytes that change lie in one sector.
   */
  ghost predicate Untearable(s: State, op: Op)
    requires Valid(s) && op.Write? && DataSlot(s, op) != -1
  {
    var slot := DataSlot(s, op);
    LiveFacts(s.recs, slot);
    var w := Written(s, slot, op.data, op.append);
    SafeBytes(w.ram[slot], w.recs[slot].size, Data(s, slot), s.recs[slot].size)
  }

  predicate SafeBytes(block: Block, size: nat, old_: Block, m: nat)
    requires m <= CONTENT_MAX
  {
    block[..m] == old_[..m] || (size == m && DifferInOneSector(block, old_, m))
  }

  /** Stopped anywhere, the write is found done or not done. */
  ghost predicate CrashAtomic(s: State, op: Op, ram: seq<Block>)
    requires Good(s) && s.backed && Synced(s) && Arguments(op) && op.Write? && |ram| == FILE_MAX
    requires DataSlot(s, op) != -1
  {
    forall n :: 0 <= n <= 2 * META_SECTORS ==> FoundAfter(s, op, n, ram) in {Abs(s), Abs(StepS(s, op).1)}
  }

  /** The tree that the mount after n sector writes shows. */
  ghost function FoundAfter(s: State, op: Op, n: nat, ram: seq<Block>): Tree
    requires Good(s) && s.backed && Synced(s) && Arguments(op) && op.Write? && |ram| == FILE_MAX
    requires DataSlot(s, op) != -1 && n <= 2 * META_SECTORS
  {
    WriteCrashIsolated(s, op, n, ram);
    Abs(Mounted(CrashDisk(s, StepS(s, op).1, DataSlot(s, op), n), ram, true))
  }

  // ---------- bytes ----------

  /** The first n sectors of one block in front of the rest of another. */
  lemma TornByte(a: Block, b: Block, n: nat, m: nat, x: nat)
    requires n <= META_SECTORS && x < m <= CONTENT_MAX
    ensures Torn(a, b, n)[..m][x] == if x < SECTOR * n then a[x] else b[x]
  {
  }

  /** If the blocks differ in two sectors, some cut leaves neither. */
  lemma TwoSectorsTear(a: Block, b: Block, m: nat, x: nat, y: nat) returns (n: nat)
    requires x < m <= CONTENT_MAX && y < m && a[x] != b[x] && a[y] != b[y] && x / SECTOR != y / SECTOR
    ensures n <= META_SECTORS && Torn(a, b, n)[..m] != a[..m] && Torn(a, b, n)[..m] != b[..m]
  {
    var first, last := if x < y then x else y, if x < y then y else x;
    n := last / SECTOR;
    assert first < SECTOR * n <= last;
    TornByte(a, b, n, m, first);
    TornByte(a, b, n, m, last);
    assert a[..m][last] == a[last] && b[..m][first] == b[first];
  }

  /** If they differ in one, every cut leaves one of the two. */
  lemma OneSectorHolds(a: Block, b: Block, m: nat, n: nat)
    requires m <= CONTENT_MAX && n <= META_SECTORS && DifferInOneSector(a, b, m)
    ensures Torn(a, b, n)[..m] == a[..m] || Torn(a, b, n)[..m] == b[..m]
  {
    if x :| 0 <= x < m && a[x] != b[x] && x < SECTOR * n {
      forall y | 0 <= y < m
        ensures Torn(a, b, n)[..m][y] == a[..m][y]
      {
        TornByte(a, b, n, m, y);
        assert x / SECTOR < n && (y >= SECTOR * n ==> n <= y / SECTOR);
      }
    } else {
      forall y | 0 <= y < m
        ensures Torn(a, b, n)[..m][y] == b[..m][y]
      {
        TornByte(a, b, n, m, y);
      }
    }
  }

  // ---------- trees ----------

  /** Trees that differ in one file are equal exactly when its bytes are. */
  lemma PutSame(m: Tree, q: Path, a: Node, b: Node)
    ensures m[q := a] == m[q := b] <==> a == b
  {
    assert m[q := a][q] == a && m[q := b][q] == b;
  }

  lemma PutBack(m: Tree, q: Path)
    requires q in m
    ensures m[q := m[q]] == m
  {
  }

  /** The trees before and after, told from the file's bytes. */
  lemma TreesByBytes(s: State, op: Op, slot: nat, s': State, q: Path)
    requires Good(s) && s.backed && Arguments(op) && op.Write?
    requires DataSlot(s, op) == slot && s' == StepS(s, op).1 && Resolve("/", op.path) == Some(q)
    ensures slot <= 62 && s.recs[slot].size <= CONTENT_MAX && s'.recs[slot].size <= CONTENT_MAX
    ensures Abs(s) == Abs(s)[q := File(Data(s, slot)[..s.recs[slot].size])]
    ensures Abs(s') == Abs(s)[q := File(s'.ram[slot][..s'.recs[slot].size])]
  {
    WriteIsOneUpdate(s, op.path, op.data, op.append, slot, s');
    TreeNow(s, op.path, slot, q);
    WrittenTree(s, s', op, slot, q);
  }

  lemma TreeNow(s: State, path: string, slot: nat, q: Path)
    requires Valid(s) && FileSlot(s.recs, path) == slot && Resolve("/", path) == Some(q)
    ensures s.recs[slot].size <= CONTENT_MAX && Abs(s) == Abs(s)[q := File(Data(s, slot)[..s.recs[slot].size])]
  {
    FoundInTree(s, path);
    LiveFacts(s.recs, slot);
    PutBack(Abs(s), q);
  }

  /** Before the records are written the file has its old length and the sectors written so far. */
  lemma FoundBytes(s: State, op: Op, n: nat, ram: seq<Block>, slot: nat, s': State, q: Path)
    requires Good(s) && s.backed && Synced(s) && Arguments(op) && op.Write? && |ram| == FILE_MAX && n <= 2 * META_SECTORS
    requires DataSlot(s, op) == slot && s' == StepS(s, op).1 && Resolve("/", op.path) == Some(q)
    requires slot <= 62 && s.recs[slot].size <= CONTENT_MAX && s'.recs[slot].size <= CONTENT_MAX
    ensures var torn := Torn(s'.ram[slot], Data(s, slot), if n <= META_SECTORS then n else META_SECTORS);
            || FoundAfter(s, op, n, ram) == Abs(s)[q := File(torn[..s.recs[slot].size])]
            || (n > META_SECTORS && FoundAfter(s, op, n, ram) == Abs(s)[q := File(s'.ram[slot][..s'.recs[slot].size])])
  {
    WriteCrashIsolated(s, op, n, ram);
    PartlyMeans(s, s', slot, n, NodeAt(Mounted(CrashDisk(s, s', slot, n), ram, true), slot));
  }

  lemma PartlyMeans(s: State, s': State, slot: nat, n: nat, node: Node)
    requires Valid(s) && s.backed && Valid(s') && slot <= 62 && n <= 2 * META_SECTORS && PartlyWritten(s, s', slot, n, node)
    ensures var torn := Torn(s'.ram[slot], Data(s, slot), if n <= META_SECTORS then n else META_SECTORS);
            || (s.recs[slot].size <= CONTENT_MAX && node == File(torn[..s.recs[slot].size]))
            || (n > META_SECTORS && s'.recs[slot].size <= CONTENT_MAX && node == File(s'.ram[slot][..s'.recs[slot].size]))
  {
  }

  lemma WrittenTree(s: State, s': State, op: Op, slot: nat, q: Path)
    requires Good(s) && s.backed && op.Write? && FileSlot(s.recs, op.path) == slot && s' == WriteS(s, op.path, op.data, op.append).1
    requires Resolve("/", op.path) == Some(q) && s'.recs[slot].size <= CONTENT_MAX
    ensures Abs(s') == Abs(s)[q := File(s'.ram[slot][..s'.recs[slot].size])]
  {
    WriteExact(s, op.path, op.data, op.append);
    WriteData(s, op.path, op.data, op.append);
    WrittenNode(s, s', slot, op.data, op.append);
    LiveFacts(s.recs, slot);
  }

  // ---------- the condition ----------

  /** With the same records found, the tree is one of the two exactly when the bytes are. */
  lemma CutExact(s: State, op: Op, n: nat, ram: seq<Block>, slot: nat, s': State, q: Path)
    requires Good(s) && s.backed && Synced(s) && Arguments(op) && op.Write? && |ram| == FILE_MAX && n <= META_SECTORS
    requires DataSlot(s, op) == slot && s' == StepS(s, op).1 && Resolve("/", op.path) == Some(q)
    ensures slot <= 62 && s.recs[slot].size <= CONTENT_MAX && s'.recs[slot].size <= CONTENT_MAX
    ensures var torn := Torn(s'.ram[slot], Data(s, slot), n)[..s.recs[slot].size];
            FoundAfter(s, op, n, ram) in {Abs(s), Abs(s')} <==>
            torn == Data(s, slot)[..s.recs[slot].size] || torn == s'.ram[slot][..s'.recs[slot].size]
  {
    TreesByBytes(s, op, slot, s', q);
    FoundBytes(s, op, n, ram, slot, s', q);
    var torn := Torn(s'.ram[slot], Data(s, slot), n)[..s.recs[slot].size];
    PutSame(Abs(s), q, File(torn), File(Data(s, slot)[..s.recs[slot].size]));
    PutSame(Abs(s), q, File(torn), File(s'.ram[slot][..s'.recs[slot].size]));
  }

  lemma CutHolds(s: State, op: Op, n: nat, ram: seq<Block>, slot: nat, s': State, q: Path)
    requires Good(s) && s.backed && Synced(s) && Arguments(op) && op.Write? && |ram| == FILE_MAX && n <= META_SECTORS
    requires DataSlot(s, op) == slot && s' == StepS(s, op).1 && Resolve("/", op.path) == Some(q)
    requires CrashAtomic(s, op, ram)
    ensures slot <= 62 && s.recs[slot].size <= CONTENT_MAX && s'.recs[slot].size <= CONTENT_MAX
    ensures var torn := Torn(s'.ram[slot], Data(s, slot), n)[..s.recs[slot].size];
            torn == Data(s, slot)[..s.recs[slot].size] || torn == s'.ram[slot][..s'.recs[slot].size]
  {
    assert FoundAfter(s, op, n, ram) in {Abs(s), Abs(s')};
    CutExact(s, op, n, ram, slot, s', q);
  }

  /** After all eight data sectors the file has its old length, so safe bytes are needed. */
  lemma AtomicIsSafe(s: State, op: Op, ram: seq<Block>, slot: nat, s': State, q: Path)
    requires Good(s) && s.backed && Synced(s) && Arguments(op) && op.Write? && |ram| == FILE_MAX
    requires DataSlot(s, op) == slot && s' == StepS(s, op).1 && Resolve("/", op.path) == Some(q)
    requires CrashAtomic(s, op, ram)
    ensures slot <= 62 && s.recs[slot].size <= CONTENT_MAX
    ensures SafeBytes(s'.ram[slot], s'.recs[slot].size, Data(s, slot), s.recs[slot].size)
  {
    CutHolds(s, op, META_SECTORS, ram, slot, s', q);
    var block, old_, m, m' := s'.ram[slot], Data(s, slot), s.recs[slot].size, s'.recs[slot].size;
    assert Torn(block, old_, META_SECTORS) == block;
    if block[..m] != old_[..m] {
      assert |block[..m]| == m && |block[..m']| == m';
      forall x, y | 0 <= x < m && 0 <= y < m && block[x] != old_[x] && block[y] != old_[y]
        ensures x / SECTOR == y / SECTOR
      {
        if x / SECTOR != y / SECTOR {
          var n := TwoSectorsTear(block, old_, m, x, y);
          CutHolds(s, op, n, ram, slot, s', q);
        }
      }
    }
  }

  lemma SafeCut(block: Block, size: nat, old_: Block, m: nat, n: nat)
    requires m <= CONTENT_MAX && size <= CONTENT_MAX && n <= META_SECTORS && SafeBytes(block, size, old_, m)
    ensures Torn(block, old_, n)[..m] == old_[..m] || Torn(block, old_, n)[..m] == block[..size]
  {
    if block[..m] == old_[..m] {
      TornPrefix(block, old_, n, m);
    } else {
      OneSectorHolds(block, old_, m, n);
    }
  }

  lemma SafeIsAtomic(s: State, op: Op, n: nat, ram: seq<Block>, slot: nat, s': State, q: Path)
    requires Good(s) && s.backed && Synced(s) && Arguments(op) && op.Write? && |ram| == FILE_MAX && n <= 2 * META_SECTORS
    requires DataSlot(s, op) == slot && s' == StepS(s, op).1 && Resolve("/", op.path) == Some(q)
    requires slot <= 62 && s.recs[slot].size <= CONTENT_MAX
    requires SafeBytes(s'.ram[slot], s'.recs[slot].size, Data(s, slot), s.recs[slot].size)
    ensures FoundAfter(s, op, n, ram) in {Abs(s), Abs(s')}
  {
    TreesByBytes(s, op, slot, s', q);
    FoundBytes(s, op, n, ram, slot, s', q);
    SafeCut(s'.ram[slot], s'.recs[slot].size, Data(s, slot), s.recs[slot].size, if n <= META_SECTORS then n else META_SECTORS);
  }

  /** The condition, told from the state after the write. */
  lemma UntearableBytes(s: State, op: Op, slot: nat, s': State)
    requires Good(s) && s.backed && op.Write? && DataSlot(s, op) == slot && s' == WriteS(s, op.path, op.data, op.append).1
    ensures slot <= 62 && s.recs[slot].size <= CONTENT_MAX
    ensures Untearable(s, op) <==> SafeBytes(s'.ram[slot], s'.recs[slot].size, Data(s, slot), s.recs[slot].size)
  {
    WriteData(s, op.path, op.data, op.append);
    LiveFacts(s.recs, slot);
  }

  /**
   * A write, overwriting or appending, is found done or not done after a crash at any of its sector
   * writes if and only if the bytes the file has are written over themselves, or its length stays
   * and the bytes that change lie in one sector.
   */
  lemma WriteAtomicExact(s: State, op: Op, ram: seq<Block>)
    requires Good(s) && s.backed && Synced(s) && Arguments(op) && op.Write? && |ram| == FILE_MAX
    requires DataSlot(s, op) != -1
    ensures CrashAtomic(s, op, ram) <==> Untearable(s, op)
  {
    var slot, s' := DataSlot(s, op), StepS(s, op).1;
    FoundInTree(s, op.path);
    var q := Resolve("/", op.path).value;
    UntearableBytes(s, op, slot, s');
    if CrashAtomic(s, op, ram) {
      AtomicIsSafe(s, op, ram, slot, s', q);
    }
    if Untearable(s, op) {
      forall n | 0 <= n <= 2 * META_SECTORS
        ensures FoundAfter(s, op, n, ram) in {Abs(s), Abs(s')}
      {
        SafeIsAtomic(s, op, n, ram, slot, s', q);
      }
    }
  }

  // ---------- the same for a file in memory, told from its bytes ----------

  /** The new bytes agree with the old ones as far as both go, or replace them within one sector. */
  predicate SafeOverwrite(old_: seq<Byte>, new_: seq<Byte>) {
    || (forall x :: 0 <= x < |old_| && x < |new_| ==> new_[x] == old_[x])
    || (|new_| == |old_| && forall x, y :: 0 <= x < |old_| && 0 <= y < |old_| && new_[x] != old_[x] && new_[y] != old_[y] ==> x / SECTOR == y / SECTOR)
  }

  lemma SafeByteByByte(block: Block, size: nat, old_: Block, m: nat)
    requires m <= CONTENT_MAX
    ensures SafeBytes(block, size, old_, m) <==>
            (forall x :: 0 <= x < m ==> block[x] == old_[x]) || (size == m && DifferInOneSector(block, old_, m))
  {
    if block[..m] == old_[..m] {
      assert forall x :: 0 <= x < m ==> block[x] == block[..m][x] && old_[x] == old_[..m][x];
    }
  }

  lemma OverlayByte(held: Block, old_: Block, m: nat, data: seq<Byte>, x: nat)
    requires x < m <= CONTENT_MAX && held[..m] == old_[..m]
    ensures Overlay(held, 0, data)[x] == if x < |Truncate(data)| then Truncate(data)[x] else old_[x]
  {
    assert held[..m][x] == held[x] && old_[..m][x] == old_[x];
  }

  lemma OverlaySafe(held: Block, old_: Block, m: nat, data: seq<Byte>)
    requires m <= CONTENT_MAX && held[..m] == old_[..m]
    ensures SafeBytes(Overlay(held, 0, data), Min(|data|, CONTENT_MAX), old_, m) <==> SafeOverwrite(old_[..m], Truncate(data))
  {
    var block := Overlay(held, 0, data);
    forall x | 0 <= x < m
      ensures block[x] == if x < |Truncate(data)| then Truncate(data)[x] else old_[x]
    {
      OverlayByte(held, old_, m, data, x);
    }
    SafeByteByByte(block, Min(|data|, CONTENT_MAX), old_, m);
    SafeMeans(block, old_, m, Truncate(data));
  }

  lemma SafeMeans(block: Block, old_: Block, m: nat, bytes: seq<Byte>)
    requires m <= CONTENT_MAX
    requires forall x :: 0 <= x < m ==> block[x] == if x < |bytes| then bytes[x] else old_[x]
    ensures SafeOverwrite(old_[..m], bytes) <==>
            (forall x :: 0 <= x < m ==> block[x] == old_[x]) || (|bytes| == m && DifferInOneSector(block, old_, m))
  {
    var b := old_[..m];
    assert forall x :: 0 <= x < m ==> b[x] == old_[x];
  }

  /** Overwriting a file in memory is crash-atomic exactly for such bytes. */
  lemma OverwriteAtomicExact(s: State, path: string, data: seq<Byte>, ram: seq<Block>)
    requires Good(s) && s.backed && Synced(s) && PathArg(path) && |ram| == FILE_MAX
    requires FileSlot(s.recs, path) != -1 && Coherent(s, FileSlot(s.recs, path))
    ensures Resolve("/", path).Some? && IsRegular(Abs(s), Resolve("/", path).value)
    ensures CrashAtomic(s, Op.Write(path, data, false), ram) <==>
            SafeOverwrite(Abs(s)[Resolve("/", path).value].bytes, Truncate(data))
  {
    var slot := FileSlot(s.recs, path);
    WriteAtomicExact(s, Op.Write(path, data, false), ram);
    FoundInTree(s, path);
    LiveFacts(s.recs, slot);
    OverlaySafe(s.ram[slot], Data(s, slot), s.recs[slot].size, data);
  }

  // ---------- a write that is torn ----------

  lemma PathOfA()
    ensures IsCString("/a") && PathArg("/a") && Resolve("/", "/a") == Some(["a"])
  {
    var q: Path := ["a"];
    assert Render(q) == "/a" by {
      assert Join(q) == "/a" by {
        assert q[..0] == [];
      }
    }
    ResolveRender("/", q);
    ArgumentLength(2);
  }

  /** Making a file and writing one byte, on the tree. */
  lemma OneByteRun(m: Tree, events: seq<Event>)
    requires m == map[[] := Dir] && events == [Call(Op.Touch("/a")), Call(Op.Write("/a", [1], false))]
    ensures AllLegal(events) && HistoryFine(m, {}, events)
    ensures HistoryTree(m, events).1 == map[[] := Dir, ["a"] := File([1])] && HistoryWarm(m, {}, events) == {["a"]}
  {
    PathOfA();
    var touch, write := Op.Touch("/a"), Op.Write("/a", [1], false);
    var m1, w1 := StepTree(m, touch).1, Warmed(m, {}, touch);
    assert Parent(["a"]) == [];
    assert CanMake(m, ["a"]) && m1 == m[["a"] := File([])] && w1 == {["a"]};
    assert [] + [1] == [1];
    assert StepTree(m1, write).1 == m1[["a"] := File([1])] && Warmed(m1, w1, write) == {["a"]};
    LastEvent(m1, w1, write);
    assert events[1..] == [Call(write)];
  }

  lemma LastEvent(m: Tree, w: set<Path>, op: Op)
    ensures HistoryFine(m, w, [Call(op)]) <==> Fine(m, w, op)
    ensures HistoryTree(m, [Call(op)]).1 == StepTree(m, op).1 && HistoryWarm(m, w, [Call(op)]) == Warmed(m, w, op)
  {
    assert [Call(op)][1..] == [];
  }

  /** A file of one byte, overwritten by two: after the eight data sectors it has the new first byte alone. */
  lemma OneByteTears(s: State, ram: seq<Block>)
    requires Good(s) && s.backed && Synced(s) && |ram| == FILE_MAX && Abs(s) == map[[] := Dir, ["a"] := File([1])]
    ensures PathArg("/a") && FileSlot(s.recs, "/a") != -1
    ensures var write := Op.Write("/a", [2, 3], false);
            && FoundAfter(s, write, META_SECTORS, ram) == map[[] := Dir, ["a"] := File([2])]
            && StepTree(Abs(s), write).1 == map[[] := Dir, ["a"] := File([2, 3])]
  {
    PathOfA();
    var m, write := Abs(s), Op.Write("/a", [2, 3], false);
    var slot := OneByteSlot(s);
    FirstByteFound(s, write, ram, slot, StepS(s, write).1);
    OneByteTree(m);
  }

  lemma OneByteTree(m: Tree)
    requires m == map[[] := Dir, ["a"] := File([1])] && Resolve("/", "/a") == Some(["a"])
    ensures m[["a"] := File([2])] == map[[] := Dir, ["a"] := File([2])]
    ensures StepTree(m, Op.Write("/a", [2, 3], false)).1 == map[[] := Dir, ["a"] := File([2, 3])]
  {
    assert [] + [2, 3] == [2, 3];
    assert IsRegular(m, ["a"]);
  }

  lemma OneByteSlot(s: State) returns (slot: nat)
    requires Good(s) && Resolve("/", "/a") == Some(["a"]) && ["a"] in Abs(s) && Abs(s)[["a"]] == File([1])
    ensures slot == FileSlot(s.recs, "/a") && slot < FILE_MAX && s.recs[slot].size == 1
  {
    FoundInTree(s, "/a");
    slot := FileSlot(s.recs, "/a");
    LiveFacts(s.recs, slot);
    assert |Data(s, slot)[..s.recs[slot].size]| == s.recs[slot].size;
  }

  lemma FirstByteFound(s: State, op: Op, ram: seq<Block>, slot: nat, s': State)
    requires Good(s) && s.backed && Synced(s) && |ram| == FILE_MAX && PathArg("/a") && op == Op.Write("/a", [2, 3], false)
    requires DataSlot(s, op) == slot && s' == StepS(s, op).1 && Resolve("/", "/a") == Some(["a"]) && s.recs[slot].size == 1
    ensures FoundAfter(s, op, META_SECTORS, ram) == Abs(s)[["a"] := File([2])]
  {
    TreesByBytes(s, op, slot, s', ["a"]);
    FoundBytes(s, op, META_SECTORS, ram, slot, s', ["a"]);
    WriteData(s, "/a", [2, 3], false);
    OverlayTwo(s.ram[slot], Data(s, slot));
  }

  lemma OverlayTwo(held: Block, old_: Block)
    ensures Torn(Overlay(held, 0, [2, 3]), old_, META_SECTORS)[..1] == [2]
  {
  }

  /** Such a state is reached on any disk without a file system. */
  lemma OverwriteTears(disk: seq<Sector>, ram: seq<Block>)
    requires |disk| == DISK_SECTORS && |ram| == FILE_MAX && !HasMagic(disk[META_LBA])
    ensures PathArg("/a")
    ensures var h := History(Mounted(disk, ram, true), [Call(Op.Touch("/a")), Call(Op.Write("/a", [1], false))]);
            var write := Op.Write("/a", [2, 3], false);
            h.Some? && var s := h.value.1;
            && Ready(s, {}) && Abs(s) == map[[] := Dir, ["a"] := File([1])] && FileSlot(s.recs, "/a") != -1
            && FoundAfter(s, write, META_SECTORS, ram) == map[[] := Dir, ["a"] := File([2])]
            && StepTree(Abs(s), write).1 == map[[] := Dir, ["a"] := File([2, 3])]
  {
    var events := [Call(Op.Touch("/a")), Call(Op.Write("/a", [1], false))];
    FirstMountGood(disk, ram, true);
    OneByteRun(map[[] := Dir], events);
    var wraps := HistoryRefines(Mounted(disk, ram, true), {}, events);
    var s := History(Mounted(disk, ram, true), events).value.1;
    WarmAtFirst(s);
    OneByteTears(s, ram);
  }
}
