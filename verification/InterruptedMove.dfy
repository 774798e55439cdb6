/** A move that is cut off by a crash: between any two of its sector writes the file is somewhere. */
module InterruptedMove {
  import opened CStrings
  import opened Paths
  import opened Table
  import opened Layout
  import opened FileSystem
  import opened Refinement
  import opened Runs
  import opened Recovery
  import opened CrashHistory

  // ---------- what a cut leaves, on the tree ----------

  /** The tree after a part of a call: as before, as after, or after an overwrite with other bytes. */
  ghost predicate CutTree(m: Tree, op: Op, m': Tree) {
    m' == m || m' == StepTree(m, op).1 || (op.Write? && exists bytes :: m' == StepTree(m, op.(data := bytes)).1)
  }

  /** What explains a crash is such a cut. */
  lemma ExplainedIsCut(s: State, parts: seq<Op>, part: nat, n: nat, memory: seq<Block>, events: seq<Event>, m: Tree)
    requires Valid(s) && AllSingle(parts) && part < |parts| && n <= 2 * META_SECTORS
    requires ExplainsPart(s, parts, part, n, memory, events)
    ensures CutTree(TreeBefore(m, parts, part), parts[part], HistoryTree(m, events).1)
  {
    var last := events[part..];
    assert events == Calls(parts, part) + last;
    CallsFirst(m, parts, part, last);
    LastIsCut(Before(s, parts, part), parts[part], n, memory, last, TreeBefore(m, parts, part));
  }

  lemma LastIsCut(s: State, op: Op, n: nat, memory: seq<Block>, events: seq<Event>, m: Tree)
    requires Valid(s) && Arguments(op) && n <= 2 * META_SECTORS && Explains(s, op, n, memory, events)
    ensures CutTree(m, op, HistoryTree(m, events).1)
  {
    if |events| == 1 {
      OnlyReboot(m, memory);
    } else {
      CallAndReboot(m, events[0].op, memory);
      assert events == [Call(events[0].op), Reboot(memory)];
    }
  }

  /** The file's bytes are at one of the two paths, and every other path is as it was. */
  ghost predicate Kept(m: Tree, m': Tree, from: Path, to: Path) {
    && ((from in m' && from in m && m'[from] == m[from]) || (to in m' && from in m && m'[to] == m[from]))
    && forall p :: p != from && p != to ==> (p in m' <==> p in m) && (p in m ==> m'[p] == m[p])
  }

  /** The calls of a move. */
  function MoveCalls(source: string, target: string, bytes: seq<Byte>): (parts: seq<Op>)
  {
    [Op.Read(source, CONTENT_MAX), Op.Touch(target), Op.Write(target, bytes, false), Op.Remove(source)]
  }

  /** The trees between them. */
  lemma MoveTrees(m: Tree, source: string, target: string, bytes: seq<Byte>)
    ensures var parts := MoveCalls(source, target, bytes);
            var m2 := TouchTree(m, target).1;
            && TreeBefore(m, parts, 0) == m && TreeBefore(m, parts, 1) == m
            && TreeBefore(m, parts, 2) == m2 && TreeBefore(m, parts, 3) == WriteTree(m2, target, bytes, false).1
  {
    var parts := MoveCalls(source, target, bytes);
    assert TreeBefore(m, parts, 0) == m;
    TreeNext(m, parts, 0, 1);
    TreeNext(m, parts, 1, 2);
    TreeNext(m, parts, 2, 3);
  }

  /** Whatever is written to the target, the source stays. */
  lemma WriteKept(m: Tree, m2: Tree, target: string, from: Path, to: Path, bytes: seq<Byte>)
    requires Resolve("/", target) == Some(to) && from != to && from in m && IsRegular(m2, to)
    requires forall p :: p != to ==> (p in m2 <==> p in m) && (p in m ==> m2[p] == m[p])
    ensures Kept(m, WriteTree(m2, target, bytes, false).1, from, to) && Kept(m, m2, from, to)
  {
  }

  /** And once the source's bytes are, it can go. */
  lemma RemoveKept(m: Tree, m2: Tree, source: string, target: string, from: Path, to: Path)
    requires Resolve("/", source) == Some(from) && Resolve("/", target) == Some(to) && from != to && IsRegular(m2, to)
    requires IsRegular(m, from) && |m[from].bytes| <= CONTENT_MAX
    requires forall p :: p != to ==> (p in m2 <==> p in m) && (p in m ==> m2[p] == m[p])
    ensures Kept(m, RemoveTree(WriteTree(m2, target, m[from].bytes, false).1, source).1, from, to)
  {
    assert [] + m[from].bytes == m[from].bytes;
  }

  /** However far a move between different paths has come, the file is at one of them. */
  lemma CutKept(m: Tree, source: string, target: string, from: Path, to: Path, part: nat, m': Tree)
    requires Resolve("/", source) == Some(from) && Resolve("/", target) == Some(to) && from != to
    requires IsRegular(m, from) && |m[from].bytes| <= CONTENT_MAX && (IsRegular(m, to) || CanMake(m, to)) && part < 4
    requires var parts := MoveCalls(source, target, m[from].bytes); CutTree(TreeBefore(m, parts, part), parts[part], m')
    ensures Kept(m, m', from, to)
  {
    var m2, bytes := TouchTree(m, target).1, m[from].bytes;
    MoveTrees(m, source, target, bytes);
    WriteKept(m, m2, target, from, to, bytes);
    RemoveKept(m, m2, source, target, from, to);
    if part == 2 {
      CutWriteKept(m, m2, target, from, to, bytes, m');
    }
  }

  lemma CutWriteKept(m: Tree, m2: Tree, target: string, from: Path, to: Path, bytes: seq<Byte>, m': Tree)
    requires Resolve("/", target) == Some(to) && from != to && from in m && IsRegular(m2, to)
    requires forall p :: p != to ==> (p in m2 <==> p in m) && (p in m ==> m2[p] == m[p])
    requires CutTree(m2, Op.Write(target, bytes, false), m')
    ensures Kept(m, m', from, to)
  {
    WriteKept(m, m2, target, from, to, bytes);
  }

  // ---------- on the kernel's state ----------

  /** A move that will succeed, between different paths of a disk. */
  ghost predicate Moving(s: State, source: string, target: string) {
    && Good(s) && s.backed && Synced(s) && PathArg(source) && PathArg(target)
    && MoveS(s, source, target).0 && Resolve("/", source) != Resolve("/", target)
  }

  /** It would not succeed without a source, nor with a new file in slot 63. */
  lemma MovingRoom(s: State, source: string, target: string)
    requires Moving(s, source, target)
    ensures FileAt(Abs(s), source) != {} && HasRoom(s, target)
    ensures CopyTree(Abs(s), source, target).0
  {
    ReadAll(s, source);
    if !HasRoom(s, target) {
      CopyIntoLastSlot(s, source, target);
    }
    CopyRefines(s, source, target);
  }

  /** Its calls: read, touch, write, remove. */
  lemma MovingParts(s: State, source: string, target: string)
    requires Moving(s, source, target)
    ensures Resolve("/", source).Some? && IsRegular(Abs(s), Resolve("/", source).value)
    ensures var bytes := Abs(s)[Resolve("/", source).value].bytes;
            |bytes| <= CONTENT_MAX && Parts(s, Op.Move(source, target)) == MoveCalls(source, target, bytes)
  {
    ReadAll(s, source);
  }

  /**
   * Stop a move between different paths in any of its calls after any number of sector writes: the
   * next mount finds the file's bytes at the source or at the target, and every other path as it
   * was, and the file system goes on from there.
   */
  lemma MoveCrashKeepsFile(s: State, source: string, target: string, part: nat, n: nat, memory: seq<Block>)
    requires Moving(s, source, target) && |memory| == FILE_MAX && CutsPart(s, Parts(s, Op.Move(source, target)), part, n)
    ensures var parts := Parts(s, Op.Move(source, target));
            var r := CrashS(Before(s, parts, part), parts[part], n, memory);
            && r.Some? && Ready(r.value, {})
            && Kept(Abs(s), Abs(r.value), Resolve("/", source).value, Resolve("/", target).value)
  {
    var parts := Parts(s, Op.Move(source, target));
    MovingRoom(s, source, target);
    MovingParts(s, source, target);
    PartsSafe(s, Op.Move(source, target));
    WarmAtFirst(s);
    var events := PartCrashRefines(s, parts, part, n, memory);
    ExplainedIsCut(s, parts, part, n, memory, events, Abs(s));
    CutKept(Abs(s), source, target, Resolve("/", source).value, Resolve("/", target).value, part, HistoryTree(Abs(s), events).1);
  }
}
