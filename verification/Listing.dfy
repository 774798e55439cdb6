/** What listing a directory shows, and the order in which the walks visit a subtree. */
module Listing {
  import opened CStrings
  import opened Paths
  import opened Table
  import opened FileSystem
  import opened Refinement

  datatype Entry = Entry(name: string, kind: Byte, size: nat)

  /** The slots below slot n, from slot i on, in slot order. */
  function ChildSlots(t: Table, n: int, i: nat): (slots: seq<nat>)
    requires i <= FILE_MAX
    ensures |slots| <= FILE_MAX - i
    ensures forall k :: 0 <= k < |slots| ==> i <= slots[k] < FILE_MAX
    decreases FILE_MAX - i, |t|
  {
    if i == FILE_MAX then []
    else if Live(t, i) && t[i].parent == n then [i] + ChildSlots(t, n, i + 1)
    else ChildSlots(t, n, i + 1)
  }

  /** Live children of slot n, in slot order. */
  ghost predicate ChildList(t: Table, n: int, slots: seq<nat>) {
    && (forall k :: 0 <= k < |slots| ==> Live(t, slots[k]) && t[slots[k]].parent == n)
    && (forall k, l :: 0 <= k < l < |slots| ==> slots[k] < slots[l])
  }

  lemma {:induction false} ChildSlotsOrdered(t: Table, n: int, i: nat)
    requires i <= FILE_MAX
    ensures ChildList(t, n, ChildSlots(t, n, i))
    decreases FILE_MAX - i
  {
    if i < FILE_MAX {
      ChildSlotsOrdered(t, n, i + 1);
    }
  }

  lemma {:induction false} ChildSlotsHas(t: Table, n: int, i: nat, c: nat) returns (k: nat)
    requires i <= c < FILE_MAX && Live(t, c) && t[c].parent == n
    ensures k < |ChildSlots(t, n, i)| && ChildSlots(t, n, i)[k] == c
    decreases FILE_MAX - i
  {
    if i == c {
      k := 0;
    } else {
      k := ChildSlotsHas(t, n, i + 1, c);
      if Live(t, i) && t[i].parent == n {
        k := k + 1;
      }
    }
  }

  /** The children of a live slot form a list of siblings. */
  lemma ChildrenAreSiblings(t: Table, n: nat, depth: nat)
    requires TreeInv(t) && n < FILE_MAX && Live(t, n) && depth <= |PathOf(t, n)|
    ensures Siblings(t, ChildSlots(t, n, 1), n, depth)
  {
    ChildSlotsOrdered(t, n, 1);
  }

  function EntryOf(r: Record): Entry { Entry(r.name, r.kind, r.size) }

  function Entries(t: Table, slots: seq<nat>): (entries: seq<Entry>)
    requires forall k :: 0 <= k < |slots| ==> slots[k] < FILE_MAX
    ensures |entries| == |slots| && forall k :: 0 <= k < |slots| ==> entries[k] == EntryOf(t[slots[k]])
  {
    seq(|slots|, k requires 0 <= k < |slots| => EntryOf(t[slots[k]]))
  }

  lemma EntriesConcat(t: Table, a: seq<nat>, b: seq<nat>)
    requires forall k :: 0 <= k < |a| ==> a[k] < FILE_MAX
    requires forall k :: 0 <= k < |b| ==> b[k] < FILE_MAX
    ensures Entries(t, a + b) == Entries(t, a) + Entries(t, b)
  {
  }

  /** The entries of a directory from slot i on. */
  function EntriesFrom(t: Table, n: int, i: nat): (entries: seq<Entry>)
    requires i <= FILE_MAX
    decreases FILE_MAX - i, |t|
  {
    if i == FILE_MAX then []
    else (if Live(t, i) && t[i].parent == n then [EntryOf(t[i])] else []) + EntriesFrom(t, n, i + 1)
  }

  lemma {:induction false} EntriesFromSlots(t: Table, n: int, i: nat)
    requires i <= FILE_MAX
    ensures EntriesFrom(t, n, i) == Entries(t, ChildSlots(t, n, i))
    decreases FILE_MAX - i
  {
    if i < FILE_MAX {
      EntriesFromSlots(t, n, i + 1);
      if Live(t, i) && t[i].parent == n {
        EntriesConcat(t, [i], ChildSlots(t, n, i + 1));
        assert Entries(t, [i]) == [EntryOf(t[i])];
      }
    }
  }

  function FirstOf<T>(s: seq<T>, max: nat): (r: seq<T>)
    ensures r <= s && |r| == if |s| <= max then |s| else max
  {
    if |s| <= max then s else s[..max]
  }

  /** What the tree has for an entry of a directory. */
  predicate Describes(m: Tree, q: Path, e: Entry) {
    && q + [e.name] in m
    && (e.kind == DIRECTORY <==> m[q + [e.name]].Dir?)
    && (m[q + [e.name]].File? ==> e.size == |m[q + [e.name]].bytes|)
  }

  /**
   * Listing a directory with room for 64 entries shows every child once: its entries describe
   * nodes of the tree, have different names, and cover all of the directory's children.
   */
  lemma ListingComplete(s: State, n: nat)
    requires Valid(s) && IsDir(s.recs, n)
    ensures var q := PathOf(s.recs, n);
            var entries := Entries(s.recs, ChildSlots(s.recs, n, 1));
            && FirstOf(entries, FILE_MAX) == entries
            && (forall k :: 0 <= k < |entries| ==> Describes(Abs(s), q, entries[k]))
            && (forall k, l :: 0 <= k < l < |entries| ==> entries[k].name != entries[l].name)
            && (forall p :: p in Abs(s) && p != [] && Parent(p) == q ==>
                  exists k :: 0 <= k < |entries| && entries[k].name == p[|p| - 1])
  {
    var t, slots := s.recs, ChildSlots(s.recs, n, 1);
    var entries := Entries(t, slots);
    ChildSlotsOrdered(t, n, 1);
    forall k | 0 <= k < |entries|
      ensures Describes(Abs(s), PathOf(t, n), entries[k])
    {
      EntryDescribes(s, n, slots[k]);
    }
    forall k, l | 0 <= k < l < |entries|
      ensures entries[k].name != entries[l].name
    {
      assert NoClash(t, slots[k], slots[l]);
    }
    forall p | p in Abs(s) && p != [] && Parent(p) == PathOf(t, n)
      ensures exists k :: 0 <= k < |entries| && entries[k].name == p[|p| - 1]
    {
      var c := SlotOfChild(s, n, p);
      var k := ChildSlotsHas(t, n, 1, c);
      assert entries[k].name == p[|p| - 1];
    }
  }

  lemma EntryDescribes(s: State, n: nat, c: nat)
    requires Valid(s) && 0 < c < FILE_MAX && Live(s.recs, c) && s.recs[c].parent == n
    ensures Describes(Abs(s), PathOf(s.recs, n), EntryOf(s.recs[c]))
  {
    PathOfChild(s.recs, c);
    AbsAtSlot(s, c);
    KindOfNode(s, c);
    LiveFacts(s.recs, c);
  }

  lemma SlotOfChild(s: State, n: nat, p: Path) returns (c: nat)
    requires Valid(s) && n < FILE_MAX && Live(s.recs, n) && p in Abs(s) && p != [] && Parent(p) == PathOf(s.recs, n)
    ensures 0 < c < FILE_MAX && Live(s.recs, c) && s.recs[c].parent == n && s.recs[c].name == p[|p| - 1]
  {
    AbsAt(s, p);
    c := Lookup(s.recs, p);
    PathOfCanonical(s.recs, c);
    ChildOf(s, c, n);
    PathOfChild(s.recs, c);
  }

  // ---------- the listing of a path ----------

  /** What a listing shows of a node. */
  function EntryFor(name: string, node: Node): Entry {
    if node.Dir? then Entry(name, DIRECTORY, 0) else Entry(name, FILE, |node.bytes|)
  }

  /** An entry for each child of a path. */
  function ChildEntries(m: Tree, q: Path): set<Entry> {
    set p | p in m && p != [] && Parent(p) == q :: EntryFor(p[|p| - 1], m[p])
  }

  function ListTree(m: Tree, path: string): Option<multiset<Entry>> {
    match Resolve("/", path)
    case None => None
    case Some(q) => if IsDirectory(m, q) then Some(multiset(ChildEntries(m, q))) else None
  }

  /** vfs_list() with room for 64 entries; the order of the entries, that of the slots, is not observed. */
  function ListS(s: State, path: string): Option<multiset<Entry>> {
    var n := FindPath(s.recs, path);
    if 0 <= n < FILE_MAX && IsDir(s.recs, n) then Some(multiset(Entries(s.recs, ChildSlots(s.recs, n, 1)))) else None
  }

  /** A sequence without repeats has each of its members once. */
  lemma {:induction false} OnceEach<T>(s: seq<T>, members: set<T>)
    requires forall k, l :: 0 <= k < l < |s| ==> s[k] != s[l]
    requires forall e :: e in s <==> e in members
    ensures multiset(s) == multiset(members)
  {
    if s == [] {
      assert members == {};
    } else {
      var front, last := s[..|s| - 1], s[|s| - 1];
      assert s == front + [last];
      assert forall e :: e in front <==> e in members - {last} by {
        forall e
          ensures e in front <==> e in members - {last}
        {
          assert e in s <==> e in front || e == last;
        }
      }
      OnceEach(front, members - {last});
      assert members == (members - {last}) + {last};
    }
  }

  /** An entry shows its child as the tree has it. */
  lemma EntryOfChild(s: State, n: nat, c: nat)
    requires Valid(s) && 0 < c < FILE_MAX && Live(s.recs, c) && s.recs[c].parent == n
    ensures var p := PathOf(s.recs, c);
            && p in Abs(s) && p != [] && Parent(p) == PathOf(s.recs, n)
            && EntryOf(s.recs[c]) == EntryFor(p[|p| - 1], Abs(s)[p])
  {
    PathOfChild(s.recs, c);
    AbsAtSlot(s, c);
    KindOfNode(s, c);
    LiveFacts(s.recs, c);
  }

  lemma EntriesAreChildren(s: State, n: nat, e: Entry)
    requires Valid(s) && IsDir(s.recs, n)
    ensures e in Entries(s.recs, ChildSlots(s.recs, n, 1)) <==> e in ChildEntries(Abs(s), PathOf(s.recs, n))
  {
    var t, slots, q := s.recs, ChildSlots(s.recs, n, 1), PathOf(s.recs, n);
    ChildSlotsOrdered(t, n, 1);
    if e in Entries(t, slots) {
      var k :| 0 <= k < |slots| && Entries(t, slots)[k] == e;
      EntryOfChild(s, n, slots[k]);
    }
    if e in ChildEntries(Abs(s), q) {
      var p :| p in Abs(s) && p != [] && Parent(p) == q && EntryFor(p[|p| - 1], Abs(s)[p]) == e;
      var c := SlotOfChild(s, n, p);
      var k := ChildSlotsHas(t, n, 1, c);
      EntryOfChild(s, n, c);
      ChildPath(s, n, c, p);
      assert Entries(t, slots)[k] == e;
    }
  }

  lemma ChildPath(s: State, n: nat, c: nat, p: Path)
    requires Valid(s) && n < FILE_MAX && 0 < c < FILE_MAX && Live(s.recs, c) && s.recs[c].parent == n
    requires p != [] && Parent(p) == PathOf(s.recs, n) && s.recs[c].name == p[|p| - 1]
    ensures PathOf(s.recs, c) == p
  {
    PathOfChild(s.recs, c);
    assert p == Parent(p) + [p[|p| - 1]];
  }

  /** Listing a path shows each child of the tree's directory exactly once, or fails where there is no directory. */
  lemma ListRefines(s: State, path: string)
    requires Valid(s)
    ensures ListS(s, path) == ListTree(Abs(s), path)
  {
    FoundInTree(s, path);
    var n := FindPath(s.recs, path);
    if n != -1 && IsDir(s.recs, n) {
      ListingComplete(s, n);
      var q := PathOf(s.recs, n);
      forall e
        ensures e in Entries(s.recs, ChildSlots(s.recs, n, 1)) <==> e in ChildEntries(Abs(s), q)
      {
        EntriesAreChildren(s, n, e);
      }
      OnceEach(Entries(s.recs, ChildSlots(s.recs, n, 1)), ChildEntries(Abs(s), q));
    }
  }

  // ---------- walking a subtree ----------

  datatype Visit = Visit(slot: nat, depth: nat)

  /** The slots visited from a list of siblings, each before its own children; cut off at depth 16. */
  function Walk(t: Table, slots: seq<nat>, depth: nat): (v: seq<Visit>)
    requires forall k :: 0 <= k < |slots| ==> slots[k] < FILE_MAX
    ensures forall k :: 0 <= k < |v| ==> v[k].slot < FILE_MAX
    decreases DEPTH_MAX - depth, |slots|
  {
    if slots == [] then []
    else [Visit(slots[0], depth)] + Below(t, slots[0], depth) + Walk(t, slots[1..], depth)
  }

  /** What the walk visits between a slot and its next sibling. */
  function Below(t: Table, slot: nat, depth: nat): (v: seq<Visit>)
    requires slot < FILE_MAX
    ensures forall k :: 0 <= k < |v| ==> v[k].slot < FILE_MAX
    decreases DEPTH_MAX - depth, 0
  {
    if IsDir(t, slot) && depth + 1 < DEPTH_MAX then Walk(t, ChildSlots(t, slot, 1), depth + 1) else []
  }

  /** The walk from a directory. */
  function Subtree(t: Table, n: nat): (v: seq<Visit>)
    ensures forall k :: 0 <= k < |v| ==> v[k].slot < FILE_MAX
  {
    Walk(t, ChildSlots(t, n, 1), 0)
  }

  predicate Visits(v: seq<Visit>, i: nat) {
    exists k :: 0 <= k < |v| && v[k].slot == i
  }

  predicate StrictlyBelow(p: Path, q: Path) {
    |p| < |q| && q[..|p|] == p
  }

  lemma VisitsConcat(a: seq<Visit>, b: seq<Visit>, i: nat)
    ensures Visits(a + b, i) <==> Visits(a, i) || Visits(b, i)
  {
    if Visits(a, i) {
      var k :| 0 <= k < |a| && a[k].slot == i;
      assert (a + b)[k].slot == i;
    }
    if Visits(b, i) {
      var k :| 0 <= k < |b| && b[k].slot == i;
      assert (a + b)[|a| + k].slot == i;
    }
  }

  /** A live record at or below slot c: c itself, or its path goes on from c's. */
  predicate AtOrBelow(t: Table, c: nat, i: nat) {
    PathOf(t, c) <= PathOf(t, i)
  }

  predicate SomeAtOrBelow(t: Table, slots: seq<nat>, i: nat) {
    exists k :: 0 <= k < |slots| && AtOrBelow(t, slots[k], i)
  }

  /** A record lies strictly below n exactly when it lies at or below one of n's children. */
  lemma {:induction false} ChildOnTheWay(t: Table, n: nat, i: nat) returns (c: nat)
    requires TreeInv(t) && Live(t, n) && Live(t, i) && StrictlyBelow(PathOf(t, n), PathOf(t, i))
    ensures 0 < c < FILE_MAX && Live(t, c) && t[c].parent == n && AtOrBelow(t, c, i)
    decreases |PathOf(t, i)|
  {
    PathOfCanonical(t, i);
    PathOfChild(t, i);
    var up := t[i].parent;
    if PathOf(t, up) == PathOf(t, n) {
      PathOfInjective(t, up, n);
      c := i;
    } else {
      assert PathOf(t, up) == PathOf(t, i)[..|PathOf(t, i)| - 1];
      c := ChildOnTheWay(t, n, up);
    }
  }

  /** The siblings are live children of a directory whose path is as long as the walk is deep, at least. */
  ghost predicate Siblings(t: Table, slots: seq<nat>, n: nat, depth: nat) {
    && Live(t, n) && depth <= |PathOf(t, n)|
    && ChildList(t, n, slots) && (forall k :: 0 <= k < |slots| ==> 0 < slots[k] < FILE_MAX)
  }

  /** The walk reaches exactly the records at or below one of the siblings: the depth limit cuts nothing off. */
  lemma {:induction false} WalkVisits(t: Table, slots: seq<nat>, n: nat, depth: nat, i: nat)
    requires TreeInv(t) && Siblings(t, slots, n, depth) && i < FILE_MAX && Live(t, i)
    ensures Visits(Walk(t, slots, depth), i) <==> SomeAtOrBelow(t, slots, i)
    decreases DEPTH_MAX - depth, |slots|
  {
    if slots != [] {
      var c, rest := slots[0], slots[1..];
      WalkVisits(t, rest, n, depth, i);
      BelowVisits(t, c, n, depth, i);
      var head := [Visit(c, depth)];
      VisitsConcat(head + Below(t, c, depth), Walk(t, rest, depth), i);
      VisitsConcat(head, Below(t, c, depth), i);
      assert head[0].slot == c;
      AtOrBelowCases(t, c, i);
      if SomeAtOrBelow(t, slots, i) {
        var k :| 0 <= k < |slots| && AtOrBelow(t, slots[k], i);
        assert k > 0 ==> rest[k - 1] == slots[k];
      }
    }
  }

  lemma AtOrBelowCases(t: Table, c: nat, i: nat)
    requires TreeInv(t) && Live(t, c) && Live(t, i)
    ensures AtOrBelow(t, c, i) <==> c == i || StrictlyBelow(PathOf(t, c), PathOf(t, i))
  {
    if AtOrBelow(t, c, i) && |PathOf(t, c)| == |PathOf(t, i)| {
      PathOfInjective(t, c, i);
    }
  }

  lemma {:induction false} BelowVisits(t: Table, c: nat, n: nat, depth: nat, i: nat)
    requires TreeInv(t) && 0 < c < FILE_MAX && Live(t, c) && Live(t, n) && t[c].parent == n && depth <= |PathOf(t, n)|
    requires i < FILE_MAX && Live(t, i)
    ensures Visits(Below(t, c, depth), i) <==> StrictlyBelow(PathOf(t, c), PathOf(t, i))
    decreases DEPTH_MAX - depth, 0
  {
    PathOfChild(t, c);
    OnTheWayDown(t, c, i);
    if IsDir(t, c) && depth + 1 < DEPTH_MAX {
      var slots := ChildSlots(t, c, 1);
      ChildrenAreSiblings(t, c, depth + 1);
      WalkVisits(t, slots, c, depth + 1, i);
      assert Below(t, c, depth) == Walk(t, slots, depth + 1);
    }
  }

  /** Something lies strictly below slot c exactly when it lies at or below one of c's children; c is then a shallow directory. */
  lemma OnTheWayDown(t: Table, c: nat, i: nat)
    requires TreeInv(t) && c < FILE_MAX && Live(t, c) && i < FILE_MAX && Live(t, i)
    ensures StrictlyBelow(PathOf(t, c), PathOf(t, i)) <==> SomeAtOrBelow(t, ChildSlots(t, c, 1), i)
    ensures StrictlyBelow(PathOf(t, c), PathOf(t, i)) ==> IsDir(t, c) && |PathOf(t, c)| < DEPTH_MAX
  {
    var slots := ChildSlots(t, c, 1);
    ChildSlotsOrdered(t, c, 1);
    forall k | 0 <= k < |slots| && AtOrBelow(t, slots[k], i)
      ensures StrictlyBelow(PathOf(t, c), PathOf(t, i))
    {
      PathOfChild(t, slots[k]);
    }
    if StrictlyBelow(PathOf(t, c), PathOf(t, i)) {
      var d := ChildOnTheWay(t, c, i);
      var k := ChildSlotsHas(t, c, 1, d);
      PathOfChild(t, d);
      PathOfCanonical(t, d);
    }
  }

  /** From any directory the walk visits exactly the records strictly below it. */
  lemma SubtreeComplete(t: Table, n: nat, i: nat)
    requires TreeInv(t) && IsDir(t, n) && i < FILE_MAX && Live(t, i)
    ensures Visits(Subtree(t, n), i) <==> StrictlyBelow(PathOf(t, n), PathOf(t, i))
  {
    ChildrenAreSiblings(t, n, 0);
    WalkVisits(t, ChildSlots(t, n, 1), n, 0, i);
    OnTheWayDown(t, n, i);
  }

  predicate NoRepeats(v: seq<Visit>) {
    forall k, l :: 0 <= k < l < |v| ==> v[k].slot != v[l].slot
  }

  /** Every visited slot is live, and lies as deep as the walk says. */
  lemma {:induction false} WalkDepths(t: Table, slots: seq<nat>, n: nat, depth: nat, k: nat)
    requires TreeInv(t) && Siblings(t, slots, n, depth) && k < |Walk(t, slots, depth)|
    ensures var v := Walk(t, slots, depth)[k];
            && 0 < v.slot < FILE_MAX && Live(t, v.slot)
            && |PathOf(t, v.slot)| - v.depth == |PathOf(t, n)| + 1 - depth
    decreases DEPTH_MAX - depth, |slots|
  {
    var c, below := slots[0], Below(t, slots[0], depth);
    PathOfChild(t, c);
    if 1 <= k < 1 + |below| {
      ChildrenAreSiblings(t, c, depth + 1);
      WalkDepths(t, ChildSlots(t, c, 1), c, depth + 1, k - 1);
    } else if k > 0 {
      WalkDepths(t, slots[1..], n, depth, k - 1 - |below|);
    }
  }

  /** No slot is visited twice. */
  lemma {:induction false} WalkOnce(t: Table, slots: seq<nat>, n: nat, depth: nat)
    requires TreeInv(t) && Siblings(t, slots, n, depth)
    ensures NoRepeats(Walk(t, slots, depth))
    decreases DEPTH_MAX - depth, |slots|
  {
    if slots != [] {
      var c, rest := slots[0], slots[1..];
      var first, later := [Visit(c, depth)] + Below(t, c, depth), Walk(t, rest, depth);
      WalkOnce(t, rest, n, depth);
      FirstOnce(t, slots, n, depth);
      forall k, l | 0 <= k < |first| && 0 <= l < |later|
        ensures first[k].slot != later[l].slot
      {
        WalkDepths(t, rest, n, depth, l);
        if first[k].slot == later[l].slot {
          FamiliesApart(t, slots, n, depth, first[k].slot);
        }
      }
      assert Walk(t, slots, depth) == first + later;
    }
  }

  lemma {:induction false} FirstOnce(t: Table, slots: seq<nat>, n: nat, depth: nat)
    requires TreeInv(t) && Siblings(t, slots, n, depth) && slots != []
    ensures NoRepeats([Visit(slots[0], depth)] + Below(t, slots[0], depth))
    decreases DEPTH_MAX - depth, 0
  {
    var c := slots[0];
    var below := Below(t, c, depth);
    PathOfChild(t, c);
    if IsDir(t, c) && depth + 1 < DEPTH_MAX {
      ChildrenAreSiblings(t, c, depth + 1);
      WalkOnce(t, ChildSlots(t, c, 1), c, depth + 1);
    }
    forall l | 0 <= l < |below|
      ensures below[l].slot != c
    {
      WalkDepths(t, ChildSlots(t, c, 1), c, depth + 1, l);
      if below[l].slot == c {
        assert Visits(below, c);
        BelowVisits(t, c, n, depth, c);
      }
    }
  }

  /** A record at or below the first sibling is not at or below another. */
  lemma FamiliesApart(t: Table, slots: seq<nat>, n: nat, depth: nat, i: nat)
    requires TreeInv(t) && Siblings(t, slots, n, depth) && slots != [] && i < FILE_MAX && Live(t, i)
    requires Visits([Visit(slots[0], depth)] + Below(t, slots[0], depth), i)
    ensures !Visits(Walk(t, slots[1..], depth), i)
  {
    var c, rest := slots[0], slots[1..];
    VisitsConcat([Visit(c, depth)], Below(t, c, depth), i);
    BelowVisits(t, c, n, depth, i);
    AtOrBelowCases(t, c, i);
    WalkVisits(t, rest, n, depth, i);
    if Visits(Walk(t, rest, depth), i) {
      var k :| 0 <= k < |rest| && AtOrBelow(t, rest[k], i);
      PathOfChild(t, c);
      PathOfChild(t, rest[k]);
      assert PathOf(t, c) == PathOf(t, i)[..|PathOf(t, c)|] && PathOf(t, rest[k]) == PathOf(t, i)[..|PathOf(t, rest[k])|];
      assert slots[0] < slots[k + 1];
      PathOfInjective(t, c, rest[k]);
    }
  }

  /** The walk from a directory visits no record twice, and indents each by its distance from the directory. */
  lemma SubtreeOnce(t: Table, n: nat)
    requires TreeInv(t) && IsDir(t, n)
    ensures NoRepeats(Subtree(t, n))
    ensures forall k :: 0 <= k < |Subtree(t, n)| ==>
              var v := Subtree(t, n)[k];
              Live(t, v.slot) && |PathOf(t, v.slot)| == |PathOf(t, n)| + 1 + v.depth
  {
    var slots := ChildSlots(t, n, 1);
    ChildrenAreSiblings(t, n, 0);
    WalkOnce(t, slots, n, 0);
    forall k | 0 <= k < |Subtree(t, n)|
      ensures var v := Subtree(t, n)[k];
              Live(t, v.slot) && |PathOf(t, v.slot)| == |PathOf(t, n)| + 1 + v.depth
    {
      WalkDepths(t, slots, n, 0, k);
    }
  }

  /** Some visit before position k is to the given slot. */
  predicate VisitedBefore(v: seq<Visit>, k: nat, slot: int) {
    exists j :: 0 <= j < k && j < |v| && v[j].slot == slot
  }

  lemma VisitedBeforeShift(front: seq<Visit>, v: seq<Visit>, k: nat, slot: int)
    requires VisitedBefore(v, k, slot)
    ensures VisitedBefore(front + v, |front| + k, slot)
  {
    var j :| 0 <= j < k && j < |v| && v[j].slot == slot;
    assert (front + v)[|front| + j] == v[j];
  }

  /** Parents come first: the parent of a visited record is the directory walked, or was visited before. */
  lemma {:induction false} ParentsFirst(t: Table, slots: seq<nat>, n: nat, depth: nat, k: nat)
    requires TreeInv(t) && Siblings(t, slots, n, depth) && k < |Walk(t, slots, depth)|
    ensures var v := Walk(t, slots, depth);
            t[v[k].slot].parent == n || VisitedBefore(v, k, t[v[k].slot].parent)
    decreases DEPTH_MAX - depth, |slots|
  {
    var v, c := Walk(t, slots, depth), slots[0];
    var head, below, rest := [Visit(c, depth)], Below(t, c, depth), Walk(t, slots[1..], depth);
    assert v == head + below + rest;
    PathOfChild(t, c);
    if 1 <= k < 1 + |below| {
      ChildrenAreSiblings(t, c, depth + 1);
      ParentsFirst(t, ChildSlots(t, c, 1), c, depth + 1, k - 1);
      BelowParent(t, head, below, rest, c, k - 1);
    } else if k > 0 {
      var at := k - 1 - |below|;
      ParentsFirst(t, slots[1..], n, depth, at);
      assert v[k] == rest[at];
      if t[v[k].slot].parent != n {
        VisitedBeforeShift(head + below, rest, at, t[v[k].slot].parent);
      }
    }
  }

  lemma BelowParent(t: Table, head: seq<Visit>, below: seq<Visit>, rest: seq<Visit>, c: nat, k: nat)
    requires |head| == 1 && head[0].slot == c && k < |below| && below[k].slot < FILE_MAX
    requires t[below[k].slot].parent == c || VisitedBefore(below, k, t[below[k].slot].parent)
    ensures (head + below + rest)[k + 1] == below[k]
    ensures VisitedBefore(head + below + rest, k + 1, t[below[k].slot].parent)
  {
    var v, up := head + below + rest, t[below[k].slot].parent;
    if up == c {
      assert v[0].slot == up;
    } else {
      var j :| 0 <= j < k && j < |below| && below[j].slot == up;
      assert v[j + 1] == below[j];
    }
  }

  /** What the walk visits first are the first sibling and the records below it, and nothing later is. */
  lemma FirstFamily(t: Table, slots: seq<nat>, n: nat, depth: nat, k: nat)
    requires TreeInv(t) && Siblings(t, slots, n, depth) && k < |Walk(t, slots, depth)|
    ensures var v := Walk(t, slots, depth)[k];
            && 0 < v.slot < FILE_MAX && Live(t, v.slot)
            && (AtOrBelow(t, slots[0], v.slot) <==> k < 1 + |Below(t, slots[0], depth)|)
            && (StrictlyBelow(PathOf(t, slots[0]), PathOf(t, v.slot)) <==> 1 <= k < 1 + |Below(t, slots[0], depth)|)
  {
    var v, c := Walk(t, slots, depth), slots[0];
    var first, rest := [Visit(c, depth)] + Below(t, c, depth), Walk(t, slots[1..], depth);
    var i := v[k].slot;
    assert v == first + rest;
    WalkDepths(t, slots, n, depth, k);
    AtOrBelowCases(t, c, i);
    if k >= |first| {
      assert rest[k - |first|].slot == i;
      if AtOrBelow(t, c, i) {
        BelowVisits(t, c, n, depth, i);
        VisitsConcat([Visit(c, depth)], Below(t, c, depth), i);
        assert [Visit(c, depth)][0].slot == c;
        FamiliesApart(t, slots, n, depth, i);
      }
    } else if k > 0 {
      assert Below(t, c, depth)[k - 1].slot == i;
      BelowVisits(t, c, n, depth, i);
    }
  }

  /** What lies below a visited record is visited without a gap. */
  predicate Unbroken(t: Table, v: seq<Visit>)
    requires forall k :: 0 <= k < |v| ==> v[k].slot < FILE_MAX
  {
    forall k, l, j :: 0 <= k < l < j < |v| && StrictlyBelow(PathOf(t, v[k].slot), PathOf(t, v[j].slot)) ==>
                        StrictlyBelow(PathOf(t, v[k].slot), PathOf(t, v[l].slot))
  }

  /** A record, those below it, and then others keep that order. */
  lemma UnbrokenJoin(t: Table, c: Visit, below: seq<Visit>, rest: seq<Visit>)
    requires c.slot < FILE_MAX && (forall k :: 0 <= k < |below| ==> below[k].slot < FILE_MAX) && (forall k :: 0 <= k < |rest| ==> rest[k].slot < FILE_MAX)
    requires Unbroken(t, below) && Unbroken(t, rest)
    requires forall k :: 0 <= k < |below| ==> StrictlyBelow(PathOf(t, c.slot), PathOf(t, below[k].slot))
    requires forall k :: 0 <= k < |rest| ==> !StrictlyBelow(PathOf(t, c.slot), PathOf(t, rest[k].slot))
    ensures Unbroken(t, [c] + below + rest)
  {
    var v, size := [c] + below + rest, 1 + |below|;
    forall k, l, j | 0 <= k < l < j < |v| && StrictlyBelow(PathOf(t, v[k].slot), PathOf(t, v[j].slot))
      ensures StrictlyBelow(PathOf(t, v[k].slot), PathOf(t, v[l].slot))
    {
      if k >= size {
        assert v[k] == rest[k - size] && v[l] == rest[l - size] && v[j] == rest[j - size];
      } else {
        if j >= size {
          assert v[j] == rest[j - size];
          BelowBelow(t, c.slot, v[k].slot, v[j].slot);
        }
        assert v[l] == below[l - 1];
      }
    }
  }

  lemma BelowBelow(t: Table, c: nat, a: nat, b: nat)
    requires c == a || StrictlyBelow(PathOf(t, c), PathOf(t, a))
    requires StrictlyBelow(PathOf(t, a), PathOf(t, b))
    ensures StrictlyBelow(PathOf(t, c), PathOf(t, b))
  {
  }

  /** The walk is a preorder without gaps. */
  lemma {:induction false} WalkUnbroken(t: Table, slots: seq<nat>, n: nat, depth: nat)
    requires TreeInv(t) && Siblings(t, slots, n, depth)
    ensures Unbroken(t, Walk(t, slots, depth))
    decreases DEPTH_MAX - depth, |slots|
  {
    if slots != [] {
      var c, below, rest := slots[0], Below(t, slots[0], depth), Walk(t, slots[1..], depth);
      WalkUnbroken(t, slots[1..], n, depth);
      BelowUnbroken(t, c, n, depth);
      forall k | 0 <= k < |below|
        ensures StrictlyBelow(PathOf(t, c), PathOf(t, below[k].slot))
      {
        FirstFamily(t, slots, n, depth, k + 1);
      }
      forall k | 0 <= k < |rest|
        ensures !StrictlyBelow(PathOf(t, c), PathOf(t, rest[k].slot))
      {
        FirstFamily(t, slots, n, depth, k + 1 + |below|);
      }
      UnbrokenJoin(t, Visit(c, depth), below, rest);
    }
  }

  lemma {:induction false} BelowUnbroken(t: Table, c: nat, n: nat, depth: nat)
    requires TreeInv(t) && 0 < c < FILE_MAX && Live(t, c) && Live(t, n) && t[c].parent == n && depth <= |PathOf(t, n)|
    ensures Unbroken(t, Below(t, c, depth))
    decreases DEPTH_MAX - depth, 0
  {
    PathOfChild(t, c);
    if IsDir(t, c) && depth + 1 < DEPTH_MAX {
      ChildrenAreSiblings(t, c, depth + 1);
      WalkUnbroken(t, ChildSlots(t, c, 1), c, depth + 1);
    }
  }

  /** From any directory, everything below a visited record follows it at once. */
  lemma SubtreeUnbroken(t: Table, n: nat)
    requires TreeInv(t) && IsDir(t, n)
    ensures Unbroken(t, Subtree(t, n))
  {
    ChildrenAreSiblings(t, n, 0);
    WalkUnbroken(t, ChildSlots(t, n, 1), n, 0);
  }

  // ---------- the order of siblings ----------

  /** Records with the same parent are visited in slot order. */
  predicate SlotOrder(t: Table, v: seq<Visit>)
    requires forall k :: 0 <= k < |v| ==> v[k].slot < FILE_MAX
  {
    forall k, l :: 0 <= k < l < |v| && t[v[k].slot].parent == t[v[l].slot].parent ==> v[k].slot < v[l].slot
  }

  lemma SlotOrderJoin(t: Table, c: Visit, below: seq<Visit>, rest: seq<Visit>)
    requires c.slot < FILE_MAX && (forall k :: 0 <= k < |below| ==> below[k].slot < FILE_MAX) && (forall k :: 0 <= k < |rest| ==> rest[k].slot < FILE_MAX)
    requires SlotOrder(t, below) && SlotOrder(t, rest)
    requires forall k :: 0 <= k < |below| ==> t[below[k].slot].parent != t[c.slot].parent
    requires forall k :: 0 <= k < |rest| && t[rest[k].slot].parent == t[c.slot].parent ==> c.slot < rest[k].slot
    requires forall k, l :: 0 <= k < |below| && 0 <= l < |rest| ==> t[below[k].slot].parent != t[rest[l].slot].parent
    ensures SlotOrder(t, [c] + below + rest)
  {
    var v, size := [c] + below + rest, 1 + |below|;
    forall k, l | 0 <= k < l < |v| && t[v[k].slot].parent == t[v[l].slot].parent
      ensures v[k].slot < v[l].slot
    {
      if k >= size {
        assert v[k] == rest[k - size] && v[l] == rest[l - size];
      } else {
        assert k > 0 ==> v[k] == below[k - 1];
        assert v[l] == if l >= size then rest[l - size] else below[l - 1];
      }
    }
  }

  /** The parent of slot i is c or lies below c. */
  predicate HangsBelow(t: Table, c: nat, i: nat) {
    i < FILE_MAX && t[i].parent >= 0 && AtOrBelow(t, c, t[i].parent)
  }

  /** So it is exactly for what lies below c. */
  lemma ParentBelow(t: Table, c: nat, i: nat)
    requires TreeInv(t) && c < FILE_MAX && 0 < i < FILE_MAX && Live(t, c) && Live(t, i)
    ensures StrictlyBelow(PathOf(t, c), PathOf(t, i)) <==> HangsBelow(t, c, i)
  {
    PathOfChild(t, i);
    var up := PathOf(t, t[i].parent);
    assert PathOf(t, i)[..|up|] == up;
    if PathOf(t, c) <= up {
      assert PathOf(t, i)[..|PathOf(t, c)|] == PathOf(t, c);
    }
  }

  /** A later visit to a child of n is to a later sibling. */
  lemma LaterSibling(t: Table, slots: seq<nat>, n: nat, depth: nat, k: nat)
    requires TreeInv(t) && Siblings(t, slots, n, depth) && slots != [] && k < |Walk(t, slots[1..], depth)|
    ensures var i := Walk(t, slots[1..], depth)[k].slot; t[i].parent == n ==> slots[0] < i
  {
    var rest, i := slots[1..], Walk(t, slots[1..], depth)[k].slot;
    WalkDepths(t, rest, n, depth, k);
    if t[i].parent == n {
      assert Visits(Walk(t, rest, depth), i);
      WalkVisits(t, rest, n, depth, i);
      var j :| 0 <= j < |rest| && AtOrBelow(t, rest[j], i);
      PathOfChild(t, i);
      PathOfChild(t, rest[j]);
      PathOfInjective(t, rest[j], i);
      assert slots[0] < slots[j + 1];
    }
  }

  lemma {:induction false} WalkOrder(t: Table, slots: seq<nat>, n: nat, depth: nat)
    requires TreeInv(t) && Siblings(t, slots, n, depth)
    ensures SlotOrder(t, Walk(t, slots, depth))
    decreases DEPTH_MAX - depth, |slots|
  {
    if slots != [] {
      var c, below, rest := slots[0], Below(t, slots[0], depth), Walk(t, slots[1..], depth);
      WalkOrder(t, slots[1..], n, depth);
      BelowOrder(t, c, n, depth);
      forall k | 0 <= k < |below|
        ensures t[below[k].slot].parent != n && HangsBelow(t, c, below[k].slot)
      {
        BelowParentIsBelow(t, slots, n, depth, k);
      }
      forall k | 0 <= k < |rest|
        ensures t[rest[k].slot].parent == n ==> c < rest[k].slot
        ensures !HangsBelow(t, c, rest[k].slot)
      {
        LaterSibling(t, slots, n, depth, k);
        RestParentApart(t, slots, n, depth, k);
      }
      SlotOrderJoin(t, Visit(c, depth), below, rest);
    }
  }

  lemma BelowParentIsBelow(t: Table, slots: seq<nat>, n: nat, depth: nat, k: nat)
    requires TreeInv(t) && Siblings(t, slots, n, depth) && slots != [] && k < |Below(t, slots[0], depth)|
    ensures var i := Below(t, slots[0], depth)[k].slot; t[i].parent != n && HangsBelow(t, slots[0], i)
  {
    var c, i := slots[0], Below(t, slots[0], depth)[k].slot;
    assert Walk(t, slots, depth)[k + 1] == Below(t, c, depth)[k];
    FirstFamily(t, slots, n, depth, k + 1);
    ParentBelow(t, c, i);
    PathOfChild(t, c);
  }

  lemma RestParentApart(t: Table, slots: seq<nat>, n: nat, depth: nat, k: nat)
    requires TreeInv(t) && Siblings(t, slots, n, depth) && slots != [] && k < |Walk(t, slots[1..], depth)|
    ensures !HangsBelow(t, slots[0], Walk(t, slots[1..], depth)[k].slot)
  {
    var c, size := slots[0], 1 + |Below(t, slots[0], depth)|;
    assert Walk(t, slots, depth)[size + k] == Walk(t, slots[1..], depth)[k];
    FirstFamily(t, slots, n, depth, size + k);
    ParentBelow(t, c, Walk(t, slots[1..], depth)[k].slot);
    PathOfChild(t, Walk(t, slots[1..], depth)[k].slot);
  }

  lemma {:induction false} BelowOrder(t: Table, c: nat, n: nat, depth: nat)
    requires TreeInv(t) && 0 < c < FILE_MAX && Live(t, c) && Live(t, n) && t[c].parent == n && depth <= |PathOf(t, n)|
    ensures SlotOrder(t, Below(t, c, depth))
    decreases DEPTH_MAX - depth, 0
  {
    PathOfChild(t, c);
    if IsDir(t, c) && depth + 1 < DEPTH_MAX {
      ChildrenAreSiblings(t, c, depth + 1);
      WalkOrder(t, ChildSlots(t, c, 1), c, depth + 1);
    }
  }

  /** From any directory, siblings are visited in slot order. */
  lemma SubtreeOrder(t: Table, n: nat)
    requires TreeInv(t) && IsDir(t, n)
    ensures SlotOrder(t, Subtree(t, n))
  {
    ChildrenAreSiblings(t, n, 0);
    WalkOrder(t, ChildSlots(t, n, 1), n, 0);
  }
}
