/**
 * Histories in which calls are cut off by crashes: each crash is as if some parts of the call had
 * been done and the next one had, or had not, or (overwriting) had written its first sectors.
 */
module CrashHistory {
  import opened CStrings
  import opened Paths
  import opened Table
  import opened Layout
  import opened FileSystem
  import opened Refinement
  import opened Runs
  import opened Recovery

  // ---------- the parts of a call ----------

  /** Copy and move are made of other calls; every other call is its own only part. */
  predicate Single(op: Op) {
    !op.Copy? && !op.Move?
  }

  predicate AllSingle(ops: seq<Op>) {
    forall i :: 0 <= i < |ops| ==> Single(ops[i]) && Arguments(ops[i])
  }

  /** The calls inside a copy, and what follows when its write has been reached. */
  ghost function CopyParts(s: State, source: string, target: string, tail: seq<Op>): (parts: seq<Op>)
    requires Valid(s) && PathArg(source) && PathArg(target) && AllSingle(tail)
    ensures parts != [] && AllSingle(parts)
  {
    var (bytes, s1) := ReadS(s, source, CONTENT_MAX);
    if bytes.None? then [Op.Read(source, CONTENT_MAX)]
    else if !TouchS(s1, target).0 then [Op.Read(source, CONTENT_MAX), Op.Touch(target)]
    else [Op.Read(source, CONTENT_MAX), Op.Touch(target), Op.Write(target, bytes.value, false)] + tail
  }

  /** The calls that an operation makes before it returns. */
  ghost function Parts(s: State, op: Op): (parts: seq<Op>)
    requires Valid(s) && Arguments(op)
    ensures parts != [] && AllSingle(parts)
  {
    match op
    case Copy(p, target) => CopyParts(s, p, target, [])
    case Move(p, target) => CopyParts(s, p, target, if CopyS(s, p, target).0 then [Op.Remove(p)] else [])
    case _ => [op]
  }

  /** The state before the part with the given number, or after all of them. */
  ghost function Before(s: State, parts: seq<Op>, part: nat): (s': State)
    requires Valid(s) && AllSingle(parts) && part <= |parts|
    ensures Valid(s')
  {
    if part == 0 then s else StepS(Before(s, parts, part - 1), parts[part - 1]).1
  }

  lemma BeforeNext(s: State, parts: seq<Op>, part: nat, next: nat, s1: State)
    requires Valid(s) && AllSingle(parts) && part < |parts| && next == part + 1
    requires Valid(s1) && Before(s, parts, part) == s1
    ensures Before(s, parts, next) == StepS(s1, parts[part]).1
  {
  }

  lemma BeforeFirst(s: State, parts: seq<Op>)
    requires Valid(s) && AllSingle(parts)
    ensures Before(s, parts, 0) == s
  {
  }

  /** The states on the way through a read, a touch and a write. */
  lemma ThreeSteps(s: State, parts: seq<Op>, source: string, target: string, bytes: seq<Byte>, tail: seq<Op>, s1: State, s2: State)
    requires Valid(s) && Valid(s1) && Valid(s2) && AllSingle(parts)
    requires parts == [Op.Read(source, CONTENT_MAX), Op.Touch(target), Op.Write(target, bytes, false)] + tail
    requires s1 == ReadS(s, source, CONTENT_MAX).1 && PathArg(target) && s2 == TouchS(s1, target).1
    ensures Before(s, parts, 0) == s && Before(s, parts, 1) == s1 && Before(s, parts, 2) == s2
    ensures Before(s, parts, 3) == WriteS(s2, target, bytes, false).1
  {
    BeforeFirst(s, parts);
    BeforeNext(s, parts, 0, 1, s);
    BeforeNext(s, parts, 1, 2, s1);
    BeforeNext(s, parts, 2, 3, s2);
  }

  lemma TwoSteps(s: State, parts: seq<Op>, source: string, target: string, s1: State)
    requires Valid(s) && Valid(s1) && AllSingle(parts) && parts == [Op.Read(source, CONTENT_MAX), Op.Touch(target)]
    requires s1 == ReadS(s, source, CONTENT_MAX).1 && PathArg(target)
    ensures Before(s, parts, 0) == s && Before(s, parts, 1) == s1 && Before(s, parts, 2) == TouchS(s1, target).1
  {
    BeforeFirst(s, parts);
    BeforeNext(s, parts, 0, 1, s);
    BeforeNext(s, parts, 1, 2, s1);
  }

  lemma OneStep(s: State, op: Op)
    requires Valid(s) && Single(op) && Arguments(op)
    ensures Before(s, [op], 0) == s && Before(s, [op], 1) == StepS(s, op).1
  {
    BeforeFirst(s, [op]);
    BeforeNext(s, [op], 0, 1, s);
  }

  /** The states on the way through a copy. */
  lemma CopySteps(s: State, source: string, target: string, tail: seq<Op>)
    requires Valid(s) && PathArg(source) && PathArg(target) && AllSingle(tail)
    ensures var parts, (bytes, s1) := CopyParts(s, source, target, tail), ReadS(s, source, CONTENT_MAX);
            && Before(s, parts, 0) == s && Before(s, parts, 1) == s1
            && (bytes.Some? ==>
                  var (ok, s2) := TouchS(s1, target);
                  && |parts| >= 2 && Before(s, parts, 2) == s2
                  && (ok ==> |parts| == 3 + |tail| && Before(s, parts, 3) == WriteS(s2, target, bytes.value, false).1))
  {
    var (bytes, s1) := ReadS(s, source, CONTENT_MAX);
    if bytes.None? {
      OneStep(s, Op.Read(source, CONTENT_MAX));
    } else if TouchS(s1, target).0 {
      ThreeSteps(s, CopyParts(s, source, target, tail), source, target, bytes.value, tail, s1, TouchS(s1, target).1);
    } else {
      TwoSteps(s, CopyParts(s, source, target, tail), source, target, s1);
    }
  }

  /** Doing the parts in turn is doing the operation. */
  lemma PartsRun(s: State, op: Op)
    requires Valid(s) && Arguments(op)
    ensures Before(s, Parts(s, op), |Parts(s, op)|) == StepS(s, op).1
  {
    if Single(op) {
      OneStep(s, op);
    } else {
      var (ok, s1) := CopyS(s, op.path, op.target);
      var tail := if op.Move? && ok then [Op.Remove(op.path)] else [];
      var parts := CopyParts(s, op.path, op.target, tail);
      var n := CopyEnds(s, op.path, op.target, tail, parts, s1);
      TailRun(s, parts, n, s1, op.path, op.Move? && ok, tail);
    }
  }

  lemma TailRun(s: State, parts: seq<Op>, n: nat, s1: State, source: string, remove: bool, tail: seq<Op>)
    requires Valid(s) && AllSingle(parts) && n + |tail| == |parts| && Valid(s1) && Before(s, parts, n) == s1
    requires tail == (if remove then [Op.Remove(source)] else []) && (remove ==> parts[n] == Op.Remove(source))
    ensures Before(s, parts, |parts|) == if remove then RemoveS(s1, source).1 else s1
  {
    if remove {
      LastStep(s, parts, n, s1, source);
    }
  }

  /** A copy ends where its own parts do. */
  lemma CopyEnds(s: State, source: string, target: string, tail: seq<Op>, parts: seq<Op>, s1: State) returns (n: nat)
    requires Valid(s) && PathArg(source) && PathArg(target) && AllSingle(tail) && (tail == [] || CopyS(s, source, target).0)
    requires parts == CopyParts(s, source, target, tail) && s1 == CopyS(s, source, target).1
    ensures n + |tail| == |parts| && Before(s, parts, n) == s1 && (tail != [] ==> parts[n] == tail[0])
  {
    var (bytes, a) := ReadS(s, source, CONTENT_MAX);
    if bytes.None? {
      n := 1;
      OneStep(s, Op.Read(source, CONTENT_MAX));
    } else if TouchS(a, target).0 {
      n := 3;
      ThreeSteps(s, parts, source, target, bytes.value, tail, a, TouchS(a, target).1);
    } else {
      n := 2;
      TwoSteps(s, parts, source, target, a);
    }
  }

  lemma LastStep(s: State, parts: seq<Op>, part: nat, s1: State, source: string)
    requires Valid(s) && AllSingle(parts) && |parts| == part + 1 && Valid(s1) && Before(s, parts, part) == s1
    requires parts[part] == Op.Remove(source)
    ensures Before(s, parts, |parts|) == RemoveS(s1, source).1
  {
    BeforeNext(s, parts, part, |parts|, s1);
  }

  // ---------- crashes ----------

  /** The sector writes of a call that updates the records at most once. */
  function SectorWrites(m: Tree, op: Op): (n: nat)
    ensures n <= 2 * META_SECTORS
  {
    if Updates(m, op) == 0 then 0 else if op.Write? then 2 * META_SECTORS else META_SECTORS
  }

  /** The sector writes of a call lead from the disk before it to the disk after it. */
  lemma WritesMeet(s: State, op: Op)
    requires Good(s) && s.backed && Arguments(op) && Single(op)
    ensures DataSlot(s, op) <= 62
    ensures CrashDisk(s, StepS(s, op).1, DataSlot(s, op), 0) == s.disk
    ensures CrashDisk(s, StepS(s, op).1, DataSlot(s, op), SectorWrites(Abs(s), op)) == StepS(s, op).1.disk
  {
    FoundInTree(s, op.path);
    if op.Write? {
      FileAtSlot(s, op.path);
    } else {
      UpdatesMeet(s, op);
    }
  }

  lemma UpdatesMeet(s: State, op: Op)
    requires Good(s) && s.backed && Arguments(op) && Single(op) && !op.Write?
    ensures CrashDisk(s, StepS(s, op).1, -1, SectorWrites(Abs(s), op)) == StepS(s, op).1.disk
  {
    match op {
      case Mkdir(p) => MkdirRefines(s, p);
      case Touch(p) => FoundInTree(s, p); CreateAllowed(s, p, FILE);
      case Rmdir(p) => RmdirRefines(s, p);
      case Remove(p) => RemoveRefines(s, p);
      case Stat(p) =>
      case List(p) =>
      case Read(p, capacity) => ReadEffect(s, p, capacity);
    }
  }

  /** The state the next mount finds after n sector writes of a call. */
  ghost function CrashS(s: State, op: Op, n: nat, memory: seq<Block>): (r: Option<State>)
    requires Valid(s) && Arguments(op) && |memory| == FILE_MAX && n <= 2 * META_SECTORS
    ensures r.Some? ==> Valid(r.value)
  {
    if DataSlot(s, op) == 63 then None
    else
      var disk := CrashDisk(s, StepS(s, op).1, DataSlot(s, op), n);
      if Mountable(disk) && Valid(Mounted(disk, memory, true)) then Some(Mounted(disk, memory, true)) else None
  }

  /** A crash in one of the parts: the parts before it are done, and it makes as many sector writes. */
  ghost predicate CutsPart(s: State, parts: seq<Op>, part: nat, n: nat)
    requires Valid(s) && AllSingle(parts)
    ensures CutsPart(s, parts, part, n) ==> n <= 2 * META_SECTORS
  {
    part < |parts| && n <= SectorWrites(Abs(Before(s, parts, part)), parts[part])
  }

  // ---------- what a crash amounts to ----------

  /** A reboot without the call, a reboot after it, or one after an overwrite with what its first n sector writes leave. */
  ghost predicate Explains(s: State, op: Op, n: nat, memory: seq<Block>, events: seq<Event>)
    requires Valid(s) && Arguments(op) && n <= 2 * META_SECTORS
  {
    || events == [Reboot(memory)]
    || events == [Call(op), Reboot(memory)]
    || (|events| == 2 && events[1] == Reboot(memory) && events[0].Call? && events[0].op.Write? && op.Write? && !op.append
        && events[0].op == op.(data := events[0].op.data)
        && 0 <= DataSlot(s, op) <= 62 && PartlyWritten(s, StepS(s, op).1, DataSlot(s, op), n, File(events[0].op.data)))
  }

  lemma OnlyReboot(m: Tree, memory: seq<Block>)
    ensures HistoryTree(m, [Reboot(memory)]).1 == m
  {
    assert [Reboot(memory)][1..] == [];
  }

  lemma CallAndReboot(m: Tree, op: Op, memory: seq<Block>)
    ensures HistoryTree(m, [Call(op), Reboot(memory)]).1 == StepTree(m, op).1
  {
    assert [Call(op), Reboot(memory)][1..] == [Reboot(memory)];
    OnlyReboot(StepTree(m, op).1, memory);
  }

  /** The tree before, or the tree after. */
  lemma EitherExplained(s: State, m': Tree, op: Op, n: nat, memory: seq<Block>) returns (events: seq<Event>)
    requires Valid(s) && Arguments(op) && n <= 2 * META_SECTORS && (m' == Abs(s) || m' == StepTree(Abs(s), op).1)
    ensures Explains(s, op, n, memory, events) && m' == HistoryTree(Abs(s), events).1
  {
    OnlyReboot(Abs(s), memory);
    CallAndReboot(Abs(s), op, memory);
    events := if m' == Abs(s) then [Reboot(memory)] else [Call(op), Reboot(memory)];
  }

  /** Nothing reached the disk. */
  lemma CrashBefore(s: State, op: Op, memory: seq<Block>)
    requires Good(s) && s.backed && Synced(s) && Arguments(op) && |memory| == FILE_MAX
    ensures CrashS(s, op, 0, memory).Some?
    ensures Ready(CrashS(s, op, 0, memory).value, {}) && Abs(CrashS(s, op, 0, memory).value) == Abs(s)
  {
    RemountRestores(s, memory);
    WarmAtFirst(Mounted(s.disk, memory, true));
  }

  lemma CrashInOverwrite(s: State, op: Op, n: nat, memory: seq<Block>) returns (events: seq<Event>)
    requires Good(s) && s.backed && Synced(s) && Arguments(op) && |memory| == FILE_MAX && n <= 2 * META_SECTORS
    requires op.Write? && !op.append && DataSlot(s, op) != -1
    ensures CrashS(s, op, n, memory).Some?
    ensures var s' := CrashS(s, op, n, memory).value;
            Ready(s', {}) && Explains(s, op, n, memory, events) && Abs(s') == HistoryTree(Abs(s), events).1
  {
    WriteCrashIsolated(s, op, n, memory);
    events := BytesExplained(s, CrashS(s, op, n, memory).value, op, DataSlot(s, op), n, memory);
  }

  /** The bytes found in a slot are what an overwrite with them leaves. */
  lemma BytesExplained(s: State, s': State, op: Op, slot: nat, n: nat, memory: seq<Block>) returns (events: seq<Event>)
    requires Valid(s) && Valid(s') && Arguments(op) && op.Write? && !op.append && slot == FileSlot(s.recs, op.path) && slot <= 62
    requires Live(s'.recs, slot) && NodeAt(s', slot).File? && Abs(s') == Abs(s)[Resolve("/", op.path).value := NodeAt(s', slot)]
    requires n <= 2 * META_SECTORS && PartlyWritten(s, StepS(s, op).1, slot, n, NodeAt(s', slot))
    ensures Explains(s, op, n, memory, events) && Abs(s') == HistoryTree(Abs(s), events).1
  {
    FoundInTree(s, op.path);
    LiveFacts(s'.recs, slot);
    var bytes := NodeAt(s', slot).bytes;
    assert [] + bytes == bytes;
    CallAndReboot(Abs(s), op.(data := bytes), memory);
    events := [Call(op.(data := bytes)), Reboot(memory)];
  }

  lemma CrashRefines(s: State, op: Op, n: nat, memory: seq<Block>) returns (events: seq<Event>)
    requires Ready(s, {}) && Single(op) && Arguments(op) && Safe(s, op) && n <= SectorWrites(Abs(s), op) && |memory| == FILE_MAX
    ensures CrashS(s, op, n, memory).Some?
    ensures var s' := CrashS(s, op, n, memory).value;
            Ready(s', {}) && Explains(s, op, n, memory, events) && Abs(s') == HistoryTree(Abs(s), events).1
  {
    if n == 0 {
      CrashBefore(s, op, memory);
      events := EitherExplained(s, Abs(s), op, n, memory);
    } else if op.Write? && !op.append {
      FileAtSlot(s, op.path);
      events := CrashInOverwrite(s, op, n, memory);
    } else {
      CrashInUpdate(s, op, n, memory);
      events := EitherExplained(s, Abs(CrashS(s, op, n, memory).value), op, n, memory);
    }
  }

  lemma CrashInUpdate(s: State, op: Op, n: nat, memory: seq<Block>)
    requires Ready(s, {}) && Single(op) && Arguments(op) && Safe(s, op) && |memory| == FILE_MAX
    requires 0 < n <= SectorWrites(Abs(s), op) && !(op.Write? && !op.append)
    ensures CrashS(s, op, n, memory).Some?
    ensures var s' := CrashS(s, op, n, memory).value; Ready(s', {}) && (Abs(s') == Abs(s) || Abs(s') == StepTree(Abs(s), op).1)
  {
    if op.Write? {
      FileAtSlot(s, op.path);
      AppendCrashAtomic(s, op, n, memory);
    } else {
      MetadataCrashAtomic(s, op, n, memory);
    }
  }

  // ---------- crashes inside a part ----------

  /** Every part is safe when its turn comes. */
  ghost predicate AllSafe(s: State, parts: seq<Op>)
    requires Valid(s) && AllSingle(parts)
  {
    forall i :: 0 <= i < |parts| ==> Safe(Before(s, parts, i), parts[i])
  }

  /** The tree before a part. */
  function TreeBefore(m: Tree, parts: seq<Op>, part: nat): Tree
    requires part <= |parts|
  {
    if part == 0 then m else StepTree(TreeBefore(m, parts, part - 1), parts[part - 1]).1
  }

  lemma {:induction false} ReadyBefore(s: State, parts: seq<Op>, part: nat, b: State)
    requires Ready(s, {}) && AllSingle(parts) && AllSafe(s, parts) && part <= |parts| && b == Before(s, parts, part)
    ensures Ready(b, {}) && Abs(b) == TreeBefore(Abs(s), parts, part)
  {
    if part == 0 {
      BeforeFirst(s, parts);
    } else {
      var before := part - 1;
      var a := Before(s, parts, before);
      BeforeNext(s, parts, before, part, a);
      ReadyBefore(s, parts, before, a);
      SafeAt(s, parts, before, a);
      TreeNext(Abs(s), parts, before, part);
      ReadyNext(a, parts[before], b);
    }
  }

  lemma SafeAt(s: State, parts: seq<Op>, part: nat, b: State)
    requires Valid(s) && AllSingle(parts) && AllSafe(s, parts) && part < |parts| && b == Before(s, parts, part)
    ensures Valid(b) && Safe(b, parts[part])
  {
  }

  lemma TreeNext(m: Tree, parts: seq<Op>, part: nat, next: nat)
    requires part < |parts| && next == part + 1
    ensures TreeBefore(m, parts, next) == StepTree(TreeBefore(m, parts, part), parts[part]).1
  {
  }

  lemma ReadyNext(s: State, op: Op, s1: State)
    requires Ready(s, {}) && Arguments(op) && Safe(s, op) && s1 == StepS(s, op).1
    ensures Ready(s1, {}) && Abs(s1) == StepTree(Abs(s), op).1
  {
    StepRefines(s, op);
    StepSynced(s, op);
    WarmAtFirst(s1);
  }

  function Calls(parts: seq<Op>, part: nat): seq<Event>
    requires part <= |parts|
  {
    if part == 0 then [] else Calls(parts, part - 1) + [Call(parts[part - 1])]
  }

  lemma CallFirst(m: Tree, op: Op, events: seq<Event>)
    ensures HistoryTree(m, [Call(op)] + events).1 == HistoryTree(StepTree(m, op).1, events).1
  {
    assert ([Call(op)] + events)[1..] == events;
  }

  lemma CallsSplit(parts: seq<Op>, part: nat, next: nat, events: seq<Event>)
    requires part < |parts| && next == part + 1
    ensures Calls(parts, next) + events == Calls(parts, part) + ([Call(parts[part])] + events)
  {
    assert Calls(parts, next) == Calls(parts, part) + [Call(parts[part])];
  }

  lemma {:induction false} CallsFirst(m: Tree, parts: seq<Op>, part: nat, events: seq<Event>)
    requires part <= |parts|
    ensures HistoryTree(m, Calls(parts, part) + events).1 == HistoryTree(TreeBefore(m, parts, part), events).1
    decreases part
  {
    if part == 0 {
      assert Calls(parts, part) + events == events;
    } else {
      var before := part - 1;
      CallsSplit(parts, before, part, events);
      TreeNext(m, parts, before, part);
      CallsFirst(m, parts, before, [Call(parts[before])] + events);
      CallFirst(TreeBefore(m, parts, before), parts[before], events);
    }
  }

  /** The parts before are done, and the crash inside this one is explained. */
  ghost predicate ExplainsPart(s: State, parts: seq<Op>, part: nat, n: nat, memory: seq<Block>, events: seq<Event>)
    requires Valid(s) && AllSingle(parts) && part < |parts| && n <= 2 * META_SECTORS
  {
    |events| >= part && events[..part] == Calls(parts, part) && Explains(Before(s, parts, part), parts[part], n, memory, events[part..])
  }

  lemma CallsLength(parts: seq<Op>, part: nat)
    requires part <= |parts|
    ensures |Calls(parts, part)| == part
  {
  }

  /** A crash inside any part: the mount succeeds, and the events explain the tree it finds. */
  lemma PartCrashRefines(s: State, parts: seq<Op>, part: nat, n: nat, memory: seq<Block>) returns (events: seq<Event>)
    requires Ready(s, {}) && |memory| == FILE_MAX && AllSingle(parts) && AllSafe(s, parts) && CutsPart(s, parts, part, n)
    ensures ExplainsPart(s, parts, part, n, memory, events)
    ensures var r := CrashS(Before(s, parts, part), parts[part], n, memory);
            r.Some? && Ready(r.value, {}) && Abs(r.value) == HistoryTree(Abs(s), events).1
  {
    var b := Before(s, parts, part);
    ReadyBefore(s, parts, part, b);
    var last := CrashRefines(b, parts[part], n, memory);
    CallsFirst(Abs(s), parts, part, last);
    CallsLength(parts, part);
    events := Calls(parts, part) + last;
    assert events[..part] == Calls(parts, part) && events[part..] == last;
  }

  // ---------- the parts of a safe call are safe ----------

  lemma PartsSafe(s: State, op: Op)
    requires Good(s) && Arguments(op) && Safe(s, op)
    ensures AllSafe(s, Parts(s, op))
  {
    if Single(op) {
      BeforeFirst(s, [op]);
    } else {
      CopyPartsSafe(s, op.path, op.target, if op.Move? && CopyS(s, op.path, op.target).0 then [Op.Remove(op.path)] else []);
    }
  }

  lemma CopyPartsSafe(s: State, source: string, target: string, removes: seq<Op>)
    requires Good(s) && PathArg(source) && PathArg(target) && (FileAt(Abs(s), source) != {} ==> HasRoom(s, target))
    requires removes == [] || removes == [Op.Remove(source)]
    ensures AllSingle(removes) && AllSafe(s, CopyParts(s, source, target, removes))
  {
    var parts := CopyParts(s, source, target, removes);
    CopySteps(s, source, target, removes);
    ReadAll(s, source);
    forall i | 0 <= i < |parts|
      ensures Safe(Before(s, parts, i), parts[i])
    {
      if i == 1 {
        TouchSafe(s, ReadS(s, source, CONTENT_MAX).1, target);
      } else {
        MakesNothing(Before(s, parts, i), parts[i]);
      }
    }
  }

  lemma TouchSafe(s: State, s1: State, target: string)
    requires Valid(s) && Valid(s1) && HasRoom(s, target) && Abs(s1) == Abs(s) && s1.recs == s.recs && s1.backed == s.backed
    ensures Safe(s1, Op.Touch(target))
  {
  }

  lemma MakesNothing(s: State, op: Op)
    requires Valid(s) && (op.Read? || op.Remove? || (op.Write? && !op.append))
    ensures Safe(s, op)
  {
  }

  // ---------- whole histories ----------

  /** An event, or a call stopped in one of its parts after n sector writes, after which the disk is mounted again. */
  datatype Incident = Plain(event: Event) | Crash(op: Op, part: nat, n: nat, memory: seq<Block>)

  /** What is asked of an incident in a state in which memory holds the files in w. */
  ghost predicate Fit(s: State, w: set<Path>, i: Incident)
    requires Valid(s)
  {
    match i
    case Plain(e) => Legal(e) && EventFine(Abs(s), w, e)
    case Crash(op, part, n, memory) =>
      && Arguments(op) && |memory| == FILE_MAX && Fine(Abs(s), w, op)
      && CutsPart(s, Parts(s, op), part, n)
  }

  /** Replies and state after an incident: a call that was cut off returns nothing. */
  ghost function IncidentS(s: State, w: set<Path>, i: Incident): (r: Option<(seq<Reply>, State)>)
    requires Valid(s) && Fit(s, w, i)
    ensures r.Some? ==> Valid(r.value.1)
  {
    match i
    case Plain(e) => EventS(s, e)
    case Crash(op, part, n, memory) =>
      match CrashS(Before(s, Parts(s, op), part), Parts(s, op)[part], n, memory)
      case None => None
      case Some(s') => Some(([], s'))
  }

  ghost function IncidentWarm(s: State, w: set<Path>, i: Incident): set<Path>
    requires Valid(s)
  {
    match i
    case Plain(e) => EventWarm(Abs(s), w, e)
    case Crash(_, _, _, _) => {}
  }

  /** The events that an incident amounts to. */
  ghost predicate Explained(s: State, w: set<Path>, i: Incident, events: seq<Event>)
    requires Valid(s) && Fit(s, w, i)
  {
    match i
    case Plain(e) => events == [e]
    case Crash(op, part, n, memory) => ExplainsPart(s, Parts(s, op), part, n, memory, events)
  }

  /** What the tree shows of an incident with its explanation. */
  function Observed(m: Tree, i: Incident, events: seq<Event>): (seq<Reply>, Tree) {
    match i
    case Plain(e) => EventTree(m, e)
    case Crash(_, _, _, _) => ([], HistoryTree(m, events).1)
  }

  lemma IncidentRefines(s: State, w: set<Path>, i: Incident) returns (events: seq<Event>)
    requires Ready(s, w) && Fit(s, w, i)
    ensures IncidentS(s, w, i).Some?
    ensures var (replies, s') := IncidentS(s, w, i).value;
            && Ready(s', IncidentWarm(s, w, i)) && Explained(s, w, i, events)
            && (replies, Abs(s')) == Observed(Abs(s), i, events)
  {
    match i {
      case Plain(e) =>
        var wraps := EventRefines(s, w, e);
        events := [e];
      case Crash(op, part, n, memory) =>
        FineIsFaithful(s, op, w);
        PartsSafe(s, op);
        WarmAtFirst(s);
        events := PartCrashRefines(s, Parts(s, op), part, n, memory);
    }
  }

  function ObservedAll(m: Tree, incidents: seq<Incident>, parts: seq<seq<Event>>): (seq<Reply>, Tree)
    requires |parts| == |incidents|
    decreases |incidents|
  {
    if incidents == [] then ([], m)
    else
      var (first, m1) := Observed(m, incidents[0], parts[0]);
      var (rest, m2) := ObservedAll(m1, incidents[1..], parts[1..]);
      (first + rest, m2)
  }

  ghost predicate AllFitting(s: State, w: set<Path>, incidents: seq<Incident>)
    requires Valid(s)
    decreases |incidents|
  {
    incidents == [] ||
    (Fit(s, w, incidents[0]) &&
     match IncidentS(s, w, incidents[0])
     case None => true
     case Some((_, s1)) => AllFitting(s1, IncidentWarm(s, w, incidents[0]), incidents[1..]))
  }

  ghost function CrashRun(s: State, w: set<Path>, incidents: seq<Incident>): (r: Option<(seq<Reply>, State)>)
    requires Valid(s) && AllFitting(s, w, incidents)
    ensures r.Some? ==> Valid(r.value.1)
    decreases |incidents|
  {
    if incidents == [] then Some(([], s))
    else
      match IncidentS(s, w, incidents[0])
      case None => None
      case Some((first, s1)) =>
        match CrashRun(s1, IncidentWarm(s, w, incidents[0]), incidents[1..])
        case None => None
        case Some((rest, s2)) => Some((first + rest, s2))
  }

  ghost predicate ExplainedAll(s: State, w: set<Path>, incidents: seq<Incident>, parts: seq<seq<Event>>)
    requires Valid(s) && AllFitting(s, w, incidents) && |parts| == |incidents|
    decreases |incidents|
  {
    incidents == [] ||
    (Explained(s, w, incidents[0], parts[0]) &&
     match IncidentS(s, w, incidents[0])
     case None => true
     case Some((_, s1)) => ExplainedAll(s1, IncidentWarm(s, w, incidents[0]), incidents[1..], parts[1..]))
  }

  lemma CrashRunFirst(s: State, w: set<Path>, incidents: seq<Incident>, first: seq<Reply>, s1: State, rest: seq<Reply>, s2: State)
    requires Valid(s) && incidents != [] && AllFitting(s, w, incidents) && IncidentS(s, w, incidents[0]) == Some((first, s1))
    requires CrashRun(s1, IncidentWarm(s, w, incidents[0]), incidents[1..]) == Some((rest, s2))
    ensures CrashRun(s, w, incidents) == Some((first + rest, s2))
  {
  }

  lemma ObservedFirst(m: Tree, incidents: seq<Incident>, part: seq<Event>, parts: seq<seq<Event>>, first: seq<Reply>, m1: Tree)
    requires incidents != [] && |parts| == |incidents| - 1 && Observed(m, incidents[0], part) == (first, m1)
    ensures var (rest, m2) := ObservedAll(m1, incidents[1..], parts);
            ObservedAll(m, incidents, [part] + parts) == (first + rest, m2)
  {
    assert ([part] + parts)[1..] == parts;
  }

  lemma ExplainedFirst(s: State, w: set<Path>, incidents: seq<Incident>, part: seq<Event>, parts: seq<seq<Event>>, first: seq<Reply>, s1: State)
    requires Valid(s) && incidents != [] && AllFitting(s, w, incidents) && |parts| == |incidents| - 1
    requires IncidentS(s, w, incidents[0]) == Some((first, s1)) && Explained(s, w, incidents[0], part)
    requires ExplainedAll(s1, IncidentWarm(s, w, incidents[0]), incidents[1..], parts)
    ensures ExplainedAll(s, w, incidents, [part] + parts)
  {
    assert ([part] + parts)[1..] == parts;
  }

  /**
   * Calls, reboots and crashes inside calls, copy and move included, in any order and number: every
   * mount succeeds, and there is an explanation of each crash, as the call's first parts done and the
   * next one done, not done, or an overwrite cut after some sectors, under which all replies and the
   * final tree are those of the map from paths to directories and files.
   */
  lemma {:induction false} CrashesExplained(s: State, w: set<Path>, incidents: seq<Incident>) returns (parts: seq<seq<Event>>)
    requires Ready(s, w) && AllFitting(s, w, incidents)
    ensures |parts| == |incidents| && ExplainedAll(s, w, incidents, parts)
    ensures CrashRun(s, w, incidents).Some?
    ensures var (replies, s') := CrashRun(s, w, incidents).value;
            && Ready(s', {})
            && (replies, Abs(s')) == ObservedAll(Abs(s), incidents, parts)
    decreases |incidents|
  {
    parts := [];
    WarmAtFirst(s);
    if incidents != [] {
      var part := IncidentRefines(s, w, incidents[0]);
      var (first, s1) := IncidentS(s, w, incidents[0]).value;
      parts := CrashesExplained(s1, IncidentWarm(s, w, incidents[0]), incidents[1..]);
      var (rest, s2) := CrashRun(s1, IncidentWarm(s, w, incidents[0]), incidents[1..]).value;
      CrashRunFirst(s, w, incidents, first, s1, rest, s2);
      ObservedFirst(Abs(s), incidents, part, parts, first, Abs(s1));
      ExplainedFirst(s, w, incidents, part, parts, first, s1);
      parts := [part] + parts;
    }
  }
}
