/** The console's two subtree walks: `tree`, which prints every record below a directory, and `find`. */
module Console {
  import opened CStrings
  import opened Paths
  import opened Normalize
  import opened Table
  import opened FileSystem
  import opened Refinement
  import opened Listing
  import opened Vfs

  // ---------- what is printed ----------

  function Spaces(n: nat): string {
    if n == 0 then [] else Spaces(n - 1) + [' ', ' ']
  }

  function EntryLine(entry: Entry, depth: nat): string {
    Spaces(depth) + entry.name + (if entry.kind == DIRECTORY then ['/'] else [])
  }

  function TreeLine(t: Table, v: Visit): string
    requires v.slot < FILE_MAX
  {
    EntryLine(EntryOf(t[v.slot]), v.depth)
  }

  function TreeLines(t: Table, v: seq<Visit>): seq<string>
    requires forall k :: 0 <= k < |v| ==> v[k].slot < FILE_MAX
  {
    if v == [] then [] else [TreeLine(t, v[0])] + TreeLines(t, v[1..])
  }

  /** tree prints one line a visit, in the order of the visits. */
  lemma {:induction false} TreeLineAt(t: Table, v: seq<Visit>, k: nat)
    requires (forall k :: 0 <= k < |v| ==> v[k].slot < FILE_MAX) && k < |v|
    ensures |TreeLines(t, v)| == |v| && TreeLines(t, v)[k] == TreeLine(t, v[k])
  {
    if |v| > 1 {
      TreeLineAt(t, v[1..], if k > 0 then k - 1 else 0);
    }
  }

  lemma {:induction false} SpacesAt(n: nat)
    ensures |Spaces(n)| == 2 * n && forall i :: 0 <= i < 2 * n ==> Spaces(n)[i] == ' '
  {
    if n > 0 {
      SpacesAt(n - 1);
    }
  }

  /** A line of some blanks, a name, and a slash behind a directory; nothing else. */
  predicate Reads(line: string, blanks: nat, name: string, directory: bool) {
    && |line| == blanks + |name| + (if directory then 1 else 0)
    && (forall i :: 0 <= i < blanks ==> line[i] == ' ')
    && line[blanks..blanks + |name|] == name
    && (directory ==> line[|line| - 1] == '/')
  }

  lemma TreeLineReads(t: Table, v: Visit)
    requires v.slot < FILE_MAX
    ensures Reads(TreeLine(t, v), 2 * v.depth, t[v.slot].name, t[v.slot].kind == DIRECTORY)
  {
    SpacesAt(v.depth);
    var line, blanks, name := TreeLine(t, v), Spaces(v.depth), t[v.slot].name;
    assert line == blanks + name + (if t[v.slot].kind == DIRECTORY then ['/'] else []);
    assert line[2 * v.depth..2 * v.depth + |name|] == name;
  }

  /**
   * Line k of `tree` is about the k-th record visited: two blanks for each level below the directory,
   * the last name of its path, and a slash if and only if the tree has a directory there.
   */
  lemma TreeShows(s: FileSystem.State, n: nat, k: nat)
    requires FileSystem.Valid(s) && IsDir(s.recs, n) && k < |Subtree(s.recs, n)|
    ensures |TreeLines(s.recs, Subtree(s.recs, n))| == |Subtree(s.recs, n)|
    ensures var top, p := PathOf(s.recs, n), PathOf(s.recs, Subtree(s.recs, n)[k].slot);
            && p in Abs(s) && |p| > |top|
            && Reads(TreeLines(s.recs, Subtree(s.recs, n))[k], 2 * (|p| - |top| - 1), p[|p| - 1], Abs(s)[p].Dir?)
  {
    var t, v := s.recs, Subtree(s.recs, n)[k];
    SubtreeOnce(t, n);
    TreeLineAt(t, Subtree(t, n), k);
    TreeLineReads(t, v);
    PathOfChild(t, v.slot);
    AbsAtSlot(s, v.slot);
    KindOfNode(s, v.slot);
  }

  lemma HeadFirst<T>(a: seq<T>, b: seq<T>)
    requires a != []
    ensures a == [a[0]] + a[1..] && a + b == [a[0]] + (a[1..] + b)
  {
  }

  lemma Associative<T>(a: seq<T>, b: seq<T>, c: seq<T>)
    ensures a + b + c == a + (b + c)
  {
  }

  lemma TreeLinesCons(t: Table, v: Visit, rest: seq<Visit>)
    requires v.slot < FILE_MAX && forall k :: 0 <= k < |rest| ==> rest[k].slot < FILE_MAX
    ensures TreeLines(t, [v] + rest) == [TreeLine(t, v)] + TreeLines(t, rest)
  {
    assert ([v] + rest)[1..] == rest;
  }

  lemma {:induction false} TreeLinesConcat(t: Table, a: seq<Visit>, b: seq<Visit>)
    requires forall k :: 0 <= k < |a| ==> a[k].slot < FILE_MAX
    requires forall k :: 0 <= k < |b| ==> b[k].slot < FILE_MAX
    ensures TreeLines(t, a + b) == TreeLines(t, a) + TreeLines(t, b)
  {
    if a == [] {
      assert a + b == b;
    } else {
      var rest := a[1..];
      TreeLinesConcat(t, rest, b);
      TreeLinesCons(t, a[0], rest);
      TreeLinesCons(t, a[0], rest + b);
      HeadFirst(a, b);
      Associative([TreeLine(t, a[0])], TreeLines(t, rest), TreeLines(t, b));
    }
  }

  predicate OccursAt(name: string, needle: string, k: nat) {
    k + |needle| <= |name| && name[k..k + |needle|] == needle
  }

  /** The needle is a substring of the name. */
  predicate Contains(name: string, needle: string) {
    exists k {:trigger OccursAt(name, needle, k)} :: 0 <= k <= |name| && OccursAt(name, needle, k)
  }

  /** The path of a record, if its name has the needle. */
  function FindLine(t: Table, i: nat, needle: string): seq<string>
    requires i < FILE_MAX
  {
    if Contains(t[i].name, needle) then [Render(PathOf(t, i))] else []
  }

  function FindLines(t: Table, v: seq<Visit>, needle: string): seq<string>
    requires forall k :: 0 <= k < |v| ==> v[k].slot < FILE_MAX
  {
    if v == [] then [] else FindLine(t, v[0].slot, needle) + FindLines(t, v[1..], needle)
  }

  lemma {:induction false} FindLinesConcat(t: Table, a: seq<Visit>, b: seq<Visit>, needle: string)
    requires forall k :: 0 <= k < |a| ==> a[k].slot < FILE_MAX
    requires forall k :: 0 <= k < |b| ==> b[k].slot < FILE_MAX
    ensures FindLines(t, a + b, needle) == FindLines(t, a, needle) + FindLines(t, b, needle)
  {
    if a == [] {
      assert a + b == b;
    } else {
      assert (a + b)[0] == a[0] && (a + b)[1..] == a[1..] + b;
      FindLinesConcat(t, a[1..], b, needle);
    }
  }

  /** The lines of find, one by one. */
  lemma {:induction false} FindLineAt(t: Table, v: seq<Visit>, needle: string, line: string)
    requires forall k :: 0 <= k < |v| ==> v[k].slot < FILE_MAX
    ensures line in FindLines(t, v, needle) <==>
            exists k :: 0 <= k < |v| && Contains(t[v[k].slot].name, needle) && Render(PathOf(t, v[k].slot)) == line
  {
    if v != [] {
      FindLineAt(t, v[1..], needle, line);
      if exists k :: 0 <= k < |v| && Contains(t[v[k].slot].name, needle) && Render(PathOf(t, v[k].slot)) == line {
        var k :| 0 <= k < |v| && Contains(t[v[k].slot].name, needle) && Render(PathOf(t, v[k].slot)) == line;
        assert k > 0 ==> v[1..][k - 1] == v[k];
      }
    }
  }

  /** find prints the path of a record exactly when it lies strictly below the directory and its name has the needle. */
  lemma FindComplete(t: Table, n: nat, needle: string, i: nat)
    requires TreeInv(t) && IsDir(t, n) && i < FILE_MAX && Live(t, i)
    ensures Render(PathOf(t, i)) in FindLines(t, Subtree(t, n), needle) <==>
            StrictlyBelow(PathOf(t, n), PathOf(t, i)) && Contains(t[i].name, needle)
  {
    var v, line := Subtree(t, n), Render(PathOf(t, i));
    SubtreeComplete(t, n, i);
    SubtreeOnce(t, n);
    FindLineAt(t, v, needle, line);
    forall k | 0 <= k < |v| && Render(PathOf(t, v[k].slot)) == line
      ensures v[k].slot == i
    {
      SamePathSameSlot(t, v[k].slot, i);
    }
  }

  lemma SamePathSameSlot(t: Table, i: nat, j: nat)
    requires TreeInv(t) && i < FILE_MAX && j < FILE_MAX && Live(t, i) && Live(t, j)
    requires Render(PathOf(t, i)) == Render(PathOf(t, j))
    ensures i == j
  {
    PathOfCanonical(t, i);
    PathOfCanonical(t, j);
    RenderInjective(PathOf(t, i), PathOf(t, j));
    PathOfInjective(t, i, j);
  }

  /** find prints no path twice. */
  lemma {:induction false} FindOnce(t: Table, v: seq<Visit>, needle: string)
    requires TreeInv(t) && NoRepeats(v) && forall k :: 0 <= k < |v| ==> v[k].slot < FILE_MAX && Live(t, v[k].slot)
    ensures var lines := FindLines(t, v, needle);
            forall k, l :: 0 <= k < l < |lines| ==> lines[k] != lines[l]
  {
    if v != [] {
      FindOnce(t, v[1..], needle);
      var line := Render(PathOf(t, v[0].slot));
      FindLineAt(t, v[1..], needle, line);
      forall k | 0 <= k < |v[1..]| && Render(PathOf(t, v[1..][k].slot)) == line
        ensures false
      {
        assert v[0].slot != v[k + 1].slot;
        SamePathSameSlot(t, v[1..][k].slot, v[0].slot);
      }
    }
  }

  // ---------- texts ----------

  /** console_append_path(): refuses what does not fit. */
  method AppendPath(base: string, name: string, out: array<char>) returns (rc: int)
    requires IsCString(base) && IsCString(name) && out.Length == BUFFER
    modifies out
    ensures rc == if |base| < PATH_MAX && |base| + (if |base| > 1 then 1 else 0) + |name| <= PATH_MAX then 0 else -1
    ensures rc == 0 ==> CStr(out[..]) == Extend(base, name)
  {
    var i := 0;
    while i < |base| && i + 1 < BUFFER
      invariant 0 <= i <= |base| && i < BUFFER && out[..i] == base[..i]
    {
      out[i] := base[i];
      i := i + 1;
    }
    if i < |base| || i + 1 >= BUFFER {
      return -1;
    }
    ghost var front := if i > 1 then base + ['/'] else base;
    if i > 1 {
      out[i] := '/';
      i := i + 1;
    }
    assert out[..i] == front;
    var end := AppendText(out, i, name);
    if end - i < |name| {
      return -1;
    }
    assert name[..end - i] == name;
    CStringConcat(front, name);
    Terminate(out, end);
    rc := 0;
  }

  /** console_name_matches(). */
  method NameMatches(name: string, needle: string) returns (found: bool)
    ensures found <==> Contains(name, needle)
  {
    if needle == [] {
      assert OccursAt(name, needle, 0);
      return true;
    }
    var i := 0;
    while i < |name|
      invariant 0 <= i <= |name|
      invariant forall k :: 0 <= k < i ==> !OccursAt(name, needle, k)
    {
      var j := 0;
      while j < |needle| && i + j < |name| && name[i + j] == needle[j]
        invariant 0 <= j <= |needle| && i + j <= |name|
        invariant name[i..i + j] == needle[..j]
      {
        assert name[i..i + j + 1] == name[i..i + j] + [name[i + j]] && needle[..j + 1] == needle[..j] + [needle[j]];
        j := j + 1;
      }
      if j == |needle| {
        assert needle[..j] == needle && OccursAt(name, needle, i);
        return true;
      }
      MismatchAt(name, needle, i, j);
      i := i + 1;
    }
    found := false;
  }

  lemma MismatchAt(name: string, needle: string, i: nat, j: nat)
    requires i <= |name| && j < |needle| && (i + j < |name| ==> name[i + j] != needle[j])
    ensures !OccursAt(name, needle, i)
  {
  }

  // ---------- the walks ----------

  /** What a walk that stands at a directory still visits: nothing at the depth limit. */
  function WalkFrom(t: Table, n: nat, depth: nat): (v: seq<Visit>)
    ensures forall k :: 0 <= k < |v| ==> v[k].slot < FILE_MAX
  {
    if depth < DEPTH_MAX then Walk(t, ChildSlots(t, n, 1), depth) else []
  }

  lemma BelowIsWalk(t: Table, c: nat, depth: nat)
    requires c < FILE_MAX && depth < DEPTH_MAX
    ensures Below(t, c, depth) == if IsDir(t, c) then WalkFrom(t, c, depth + 1) else []
  {
  }

  lemma ChildFits(t: Table, c: nat)
    requires TreeInv(t) && Live(t, c) && c != 0
    ensures var base := Render(PathOf(t, t[c].parent));
            |base| < PATH_MAX && |base| + (if |base| > 1 then 1 else 0) + |t[c].name| <= PATH_MAX
  {
    LiveFacts(t, c);
    PathOfChild(t, c);
    PathOfCanonical(t, t[c].parent);
    var p := PathOf(t, t[c].parent);
    assert (p + [t[c].name])[..|p|] == p;
    if p != [] {
      assert ValidName(p[|p| - 1]);
    }
  }

  /** The visits from sibling i on: the sibling itself, what lies below it, and the siblings after it. */
  lemma WalkStep(t: Table, slots: seq<nat>, i: nat, depth: nat)
    requires i < |slots| && forall k :: 0 <= k < |slots| ==> slots[k] < FILE_MAX
    ensures Walk(t, slots[i..], depth) ==
            [Visit(slots[i], depth)] + Below(t, slots[i], depth) + Walk(t, slots[i + 1..], depth)
  {
  }

  lemma {:induction false} TreeLinesParts(t: Table, v: Visit, below: seq<Visit>, rest: seq<Visit>)
    requires v.slot < FILE_MAX && (forall k :: 0 <= k < |below| ==> below[k].slot < FILE_MAX)
    requires forall k :: 0 <= k < |rest| ==> rest[k].slot < FILE_MAX
    ensures TreeLines(t, [v] + below + rest) == [TreeLine(t, v)] + TreeLines(t, below) + TreeLines(t, rest)
  {
    TreeLinesConcat(t, [v] + below, rest);
    TreeLinesConcat(t, [v], below);
    assert [v][1..] == [];
  }

  lemma {:induction false} FindLinesParts(t: Table, v: Visit, below: seq<Visit>, rest: seq<Visit>, needle: string)
    requires v.slot < FILE_MAX && (forall k :: 0 <= k < |below| ==> below[k].slot < FILE_MAX)
    requires forall k :: 0 <= k < |rest| ==> rest[k].slot < FILE_MAX
    ensures FindLines(t, [v] + below + rest, needle) ==
            FindLine(t, v.slot, needle) + FindLines(t, below, needle) + FindLines(t, rest, needle)
  {
    FindLinesConcat(t, [v] + below, rest, needle);
    FindLinesConcat(t, [v], below, needle);
    assert [v][1..] == [];
  }

  /** Printing the first sibling and what lies below it leaves the other siblings to print. */
  lemma TreeLinesStep(t: Table, slots: seq<nat>, i: nat, depth: nat)
    requires i < |slots| && forall k :: 0 <= k < |slots| ==> slots[k] < FILE_MAX
    ensures TreeLines(t, Walk(t, slots[i..], depth)) ==
            [EntryLine(EntryOf(t[slots[i]]), depth)] + TreeLines(t, Below(t, slots[i], depth))
            + TreeLines(t, Walk(t, slots[i + 1..], depth))
  {
    WalkStep(t, slots, i, depth);
    TreeLinesParts(t, Visit(slots[i], depth), Below(t, slots[i], depth), Walk(t, slots[i + 1..], depth));
  }

  lemma FindLinesStep(t: Table, slots: seq<nat>, i: nat, depth: nat, needle: string)
    requires i < |slots| && forall k :: 0 <= k < |slots| ==> slots[k] < FILE_MAX
    ensures FindLines(t, Walk(t, slots[i..], depth), needle) ==
            FindLine(t, slots[i], needle) + FindLines(t, Below(t, slots[i], depth), needle)
            + FindLines(t, Walk(t, slots[i + 1..], depth), needle)
  {
    WalkStep(t, slots, i, depth);
    FindLinesParts(t, Visit(slots[i], depth), Below(t, slots[i], depth), Walk(t, slots[i + 1..], depth), needle);
  }

  lemma NothingTree(t: Table, slots: seq<nat>, depth: nat)
    requires slots == []
    ensures TreeLines(t, Walk(t, slots, depth)) == []
  {
  }

  lemma NothingFind(t: Table, slots: seq<nat>, depth: nat, needle: string)
    requires slots == []
    ensures FindLines(t, Walk(t, slots, depth), needle) == []
  {
  }

  lemma Regroup(out: seq<string>, a: seq<string>, b: seq<string>, c: seq<string>)
    ensures out + (a + b + c) == (out + a + b) + c
  {
  }

  lemma TreePrinted(t: Table, slots: seq<nat>, i: nat, depth: nat, before: seq<string>, after: seq<string>)
    requires i < |slots| && forall k :: 0 <= k < |slots| ==> slots[k] < FILE_MAX
    requires after == before + [EntryLine(EntryOf(t[slots[i]]), depth)] + TreeLines(t, Below(t, slots[i], depth))
    ensures after + TreeLines(t, Walk(t, slots[i + 1..], depth)) == before + TreeLines(t, Walk(t, slots[i..], depth))
  {
    TreeLinesStep(t, slots, i, depth);
    Regroup(before, [EntryLine(EntryOf(t[slots[i]]), depth)], TreeLines(t, Below(t, slots[i], depth)),
            TreeLines(t, Walk(t, slots[i + 1..], depth)));
  }

  lemma FindPrinted(t: Table, slots: seq<nat>, i: nat, depth: nat, needle: string, before: seq<string>, after: seq<string>)
    requires i < |slots| && forall k :: 0 <= k < |slots| ==> slots[k] < FILE_MAX
    requires after == before + FindLine(t, slots[i], needle) + FindLines(t, Below(t, slots[i], depth), needle)
    ensures after + FindLines(t, Walk(t, slots[i + 1..], depth), needle) == before + FindLines(t, Walk(t, slots[i..], depth), needle)
  {
    FindLinesStep(t, slots, i, depth, needle);
    Regroup(before, FindLine(t, slots[i], needle), FindLines(t, Below(t, slots[i], depth), needle),
            FindLines(t, Walk(t, slots[i + 1..], depth), needle));
  }

  lemma EntryFacts(t: Table, n: nat, i: nat)
    requires i < |ChildSlots(t, n, 1)|
    ensures var c := ChildSlots(t, n, 1)[i];
            0 < c < FILE_MAX && Live(t, c) && t[c].parent == n && Entries(t, ChildSlots(t, n, 1))[i] == EntryOf(t[c])
  {
    ChildSlotsOrdered(t, n, 1);
  }

  class Shell {
    const vfs: Volume
    /** The lines printed so far. */
    var output: seq<string>

    constructor (vfs: Volume)
      ensures this.vfs == vfs && output == []
    {
      this.vfs := vfs;
      output := [];
    }

    /** The volume is in a state. */
    ghost predicate Holds(s: State)
      reads vfs, vfs.records, vfs.contents, vfs.disk.sectors
    {
      vfs.Shape() && vfs.State() == s && FileSystem.Valid(s)
    }

    /** The child's path, which always fits. */
    method ChildPath(path: string, name: string, ghost s: State, ghost n: nat, ghost c: nat) returns (child: string)
      requires Valid(s) && IsDir(s.recs, n) && path == Render(PathOf(s.recs, n))
      requires Live(s.recs, c) && c != 0 && s.recs[c].parent == n && s.recs[c].name == name
      ensures child == Render(PathOf(s.recs, c))
    {
      LiveFacts(s.recs, c);
      PathOfCanonical(s.recs, n);
      ParentTextShort(s.recs, c);
      ChildFits(s.recs, c);
      var buffer := new char[BUFFER](_ => '\0');
      var rc := AppendPath(path, name, buffer);
      assert rc == 0;
      child := ReadCString(buffer);
    }

    /** console_tree_walk() */
    method TreeWalk(path: string, depth: nat, ghost s: State, ghost n: nat)
      requires Holds(s) && IsDir(s.recs, n) && path == Render(PathOf(s.recs, n))
      modifies this
      ensures output == old(output) + TreeLines(s.recs, WalkFrom(s.recs, n, depth))
      decreases if depth < DEPTH_MAX then DEPTH_MAX - depth else 0, 3
    {
      if depth >= DEPTH_MAX {
        return;
      }
      ghost var slots := ChildSlots(s.recs, n, 1);
      var entries := ListAll(path, s, n);
      ghost var goal := output + TreeLines(s.recs, Walk(s.recs, slots, depth));
      assert slots[0..] == slots;
      var i := 0;
      while i < |entries|
        invariant 0 <= i <= |entries|
        invariant output + TreeLines(s.recs, Walk(s.recs, slots[i..], depth)) == goal
      {
        TreeSibling(path, entries[i], depth, s, n, i);
        i := i + 1;
      }
      NothingTree(s.recs, slots[i..], depth);
      assert output + [] == output;
    }

    /** What sibling i and its subtree add leaves the later siblings to print. */
    method TreeSibling(path: string, entry: Entry, depth: nat, ghost s: State, ghost n: nat, ghost i: nat)
      requires Holds(s) && IsDir(s.recs, n) && path == Render(PathOf(s.recs, n)) && depth < DEPTH_MAX
      requires i < |ChildSlots(s.recs, n, 1)| && entry == Entries(s.recs, ChildSlots(s.recs, n, 1))[i]
      modifies this
      ensures var slots := ChildSlots(s.recs, n, 1);
              output + TreeLines(s.recs, Walk(s.recs, slots[i + 1..], depth))
              == old(output) + TreeLines(s.recs, Walk(s.recs, slots[i..], depth))
      decreases DEPTH_MAX - depth, 2
    {
      ghost var slots := ChildSlots(s.recs, n, 1);
      EntryFacts(s.recs, n, i);
      TreeEntry(path, entry, depth, s, n, slots[i]);
      TreePrinted(s.recs, slots, i, depth, old(output), output);
    }

    /** One entry: its line, and the walk below it if it is a directory. */
    method TreeEntry(path: string, entry: Entry, depth: nat, ghost s: State, ghost n: nat, ghost c: nat)
      requires Holds(s) && IsDir(s.recs, n) && path == Render(PathOf(s.recs, n)) && depth < DEPTH_MAX
      requires 0 < c < FILE_MAX && Live(s.recs, c) && s.recs[c].parent == n && entry == EntryOf(s.recs[c])
      modifies this
      ensures output == old(output) + [EntryLine(entry, depth)] + TreeLines(s.recs, Below(s.recs, c, depth))
      decreases DEPTH_MAX - depth, 1
    {
      var line := LineOf(entry, depth);
      output := output + [line];
      ghost var before := output;
      TreeBelow(path, entry, depth, s, n, c);
      assert output == before + TreeLines(s.recs, Below(s.recs, c, depth));
    }

    method TreeBelow(path: string, entry: Entry, depth: nat, ghost s: State, ghost n: nat, ghost c: nat)
      requires Holds(s) && IsDir(s.recs, n) && path == Render(PathOf(s.recs, n)) && depth < DEPTH_MAX
      requires 0 < c < FILE_MAX && Live(s.recs, c) && s.recs[c].parent == n && entry == EntryOf(s.recs[c])
      modifies this
      ensures output == old(output) + TreeLines(s.recs, Below(s.recs, c, depth))
      decreases DEPTH_MAX - depth, 0
    {
      BelowIsWalk(s.recs, c, depth);
      if entry.kind == DIRECTORY {
        var child := ChildPath(path, entry.name, s, n, c);
        TreeWalk(child, depth + 1, s, c);
      }
    }

    /** All entries of a directory: sixty-four are always enough. */
    method ListAll(path: string, ghost s: State, ghost n: nat) returns (entries: seq<Entry>)
      requires Holds(s) && IsDir(s.recs, n) && path == Render(PathOf(s.recs, n))
      ensures entries == Entries(s.recs, ChildSlots(s.recs, n, 1))
    {
      FindOwnPath(s.recs, n);
      var rc;
      rc, entries := vfs.List(path, FILE_MAX);
    }

    /** The indented name, with a slash behind a directory. */
    method LineOf(entry: Entry, depth: nat) returns (s: string)
      ensures s == EntryLine(entry, depth)
    {
      s := [];
      var j := 0;
      while j < depth
        invariant 0 <= j <= depth && s == Spaces(j)
      {
        s := s + [' ', ' '];
        j := j + 1;
      }
      s := s + entry.name;
      if entry.kind == DIRECTORY {
        s := s + ['/'];
      }
    }

    /** console_find_walk() */
    method FindWalk(path: string, needle: string, depth: nat, ghost s: State, ghost n: nat)
      requires Holds(s) && IsDir(s.recs, n) && path == Render(PathOf(s.recs, n))
      modifies this
      ensures output == old(output) + FindLines(s.recs, WalkFrom(s.recs, n, depth), needle)
      decreases if depth < DEPTH_MAX then DEPTH_MAX - depth else 0, 2
    {
      if depth >= DEPTH_MAX {
        return;
      }
      ghost var slots := ChildSlots(s.recs, n, 1);
      var entries := ListAll(path, s, n);
      ghost var goal := output + FindLines(s.recs, Walk(s.recs, slots, depth), needle);
      assert slots[0..] == slots;
      var i := 0;
      while i < |entries|
        invariant 0 <= i <= |entries|
        invariant output + FindLines(s.recs, Walk(s.recs, slots[i..], depth), needle) == goal
      {
        FindSibling(path, entries[i], needle, depth, s, n, i);
        i := i + 1;
      }
      NothingFind(s.recs, slots[i..], depth, needle);
      assert output + [] == output;
    }

    /** What sibling i and its subtree add leaves the later siblings to print. */
    method FindSibling(path: string, entry: Entry, needle: string, depth: nat, ghost s: State, ghost n: nat, ghost i: nat)
      requires Holds(s) && IsDir(s.recs, n) && path == Render(PathOf(s.recs, n)) && depth < DEPTH_MAX
      requires i < |ChildSlots(s.recs, n, 1)| && entry == Entries(s.recs, ChildSlots(s.recs, n, 1))[i]
      modifies this
      ensures var slots := ChildSlots(s.recs, n, 1);
              output + FindLines(s.recs, Walk(s.recs, slots[i + 1..], depth), needle)
              == old(output) + FindLines(s.recs, Walk(s.recs, slots[i..], depth), needle)
      decreases DEPTH_MAX - depth, 1
    {
      ghost var slots := ChildSlots(s.recs, n, 1);
      EntryFacts(s.recs, n, i);
      FindEntry(path, entry, needle, depth, s, n, slots[i]);
      FindPrinted(s.recs, slots, i, depth, needle, old(output), output);
    }

    /** One entry: its path if the name matches, and the walk below it if it is a directory. */
    method FindEntry(path: string, entry: Entry, needle: string, depth: nat, ghost s: State, ghost n: nat, ghost c: nat)
      requires Holds(s) && IsDir(s.recs, n) && path == Render(PathOf(s.recs, n)) && depth < DEPTH_MAX
      requires 0 < c < FILE_MAX && Live(s.recs, c) && s.recs[c].parent == n && entry == EntryOf(s.recs[c])
      modifies this
      ensures output == old(output) + FindLine(s.recs, c, needle) + FindLines(s.recs, Below(s.recs, c, depth), needle)
      decreases DEPTH_MAX - depth, 0
    {
      BelowIsWalk(s.recs, c, depth);
      var child := ChildPath(path, entry.name, s, n, c);
      var found := NameMatches(entry.name, needle);
      if found {
        output := output + [child];
      }
      assert output == old(output) + FindLine(s.recs, c, needle);
      if entry.kind == DIRECTORY {
        FindWalk(child, needle, depth + 1, s, c);
      }
    }
  }
}
