/** The virtual file system as the kernel runs it: records, content slots and disk changed in place. */
module Vfs {
  import opened CStrings
  import opened Paths
  import opened Normalize
  import opened Table
  import opened Layout
  import opened FileSystem
  import opened Refinement
  import opened Runs
  import opened Recovery
  import opened Listing
  import opened CrashHistory
  import opened FailedCalls
  import opened Disk

  lemma {:induction false} CStrLength(buffer: seq<char>)
    ensures |CStr(buffer)| <= |buffer| && CStr(buffer) == buffer[..|CStr(buffer)|]
  {
    if |buffer| != 0 && buffer[0] != '\0' {
      CStrLength(buffer[1..]);
      assert buffer[..|CStr(buffer)|] == [buffer[0]] + buffer[1..][..|CStr(buffer[1..])|];
    }
  }

  /** Appends a component to the text in a path buffer, as find() does inline. */
  method AppendName(buffer: array<char>, name: string)
    requires buffer.Length == BUFFER && IsCString(CStr(buffer[..])) && IsCString(name)
    requires |CStr(buffer[..])| < PATH_MAX
    modifies buffer
    ensures CStr(buffer[..]) == Extend(old(CStr(buffer[..])), name)
    ensures IsCString(CStr(buffer[..]))
  {
    var text := ReadCString(buffer);
    var l := |text|;
    CStrLength(buffer[..]);
    if l > 1 {
      buffer[l] := '/';
      l := l + 1;
    }
    ghost var base := if |text| > 1 then text + ['/'] else text;
    assert buffer[..l] == base;
    var end := AppendText(buffer, l, name);
    CStringConcat(base, name[..end - l]);
    assert buffer[..end] == Extend(text, name) by {
      assert name[..|name|] == name;
    }
    Terminate(buffer, end);
  }

  class Volume {
    const records: array<Record>
    const contents: array<Block>
    const disk: Drive
    var generation: nat
    var backed: bool

    ghost predicate Shape()
      reads this, records, contents, disk.sectors
    {
      && records.Length == FILE_MAX && contents.Length == FILE_MAX
      && disk.Valid() && generation < WORD
    }

    ghost function State(): FileSystem.State
      requires Shape()
      reads this, records, contents, disk.sectors
    {
      FileSystem.State.State(records[..], contents[..], generation, backed, disk.sectors[..])
    }

    ghost predicate Valid()
      reads this, records, contents, disk.sectors
    {
      Shape() && FileSystem.Valid(State())
    }

    constructor (disk: Drive)
      requires disk.Valid()
      ensures Shape() && this.disk == disk && fresh(records) && fresh(contents)
    {
      this.disk := disk;
      generation, backed := 0, false;
      records := new Record[FILE_MAX](_ => ZERO);
      contents := new Block[FILE_MAX](_ => seq(CONTENT_MAX, _ => 0));
    }

    // ---------- looking up ----------

    /** The chain from slot p to the root, p first. */
    ghost predicate Chain(t: Table, stack: seq<nat>, p: nat) {
      && |stack| > 0 && stack[0] == p
      && (forall k :: 0 <= k < |stack| ==> 0 < stack[k] < FILE_MAX && Live(t, stack[k]))
      && (forall k :: 0 < k < |stack| ==> t[stack[k - 1]].parent == stack[k])
      && t[stack[|stack| - 1]].parent == 0
    }

    /** The beginning of that chain, up to but without slot `at`. */
    ghost predicate ChainTo(t: Table, stack: seq<nat>, p: nat, at: int)
      requires TreeInv(t)
    {
      && 0 <= at < FILE_MAX && Live(t, at)
      && |PathOf(t, at)| + |stack| == |PathOf(t, p)|
      && (forall k :: 0 <= k < |stack| ==> 0 < stack[k] < FILE_MAX && Live(t, stack[k]))
      && (forall k :: 0 < k < |stack| ==> t[stack[k - 1]].parent == stack[k])
      && if stack == [] then at == p else stack[0] == p && t[stack[|stack| - 1]].parent == at
    }

    lemma ChainFurther(t: Table, stack: seq<nat>, p: nat, at: nat)
      requires TreeInv(t) && ChainTo(t, stack, p, at) && at != 0
      ensures ChainTo(t, stack + [at], p, t[at].parent)
    {
      PathOfChild(t, at);
    }

    /** Collects the parent chain of slot p; the sixteen entries are always enough. */
    method CollectChain(p: nat, stack: array<nat>) returns (depth: nat)
      requires Valid() && 0 < p < FILE_MAX && Live(records[..], p) && stack.Length == DEPTH_MAX
      modifies stack
      ensures depth <= DEPTH_MAX && Chain(records[..], stack[..depth], p)
    {
      ghost var t := records[..];
      var at := p;
      depth := 0;
      PathOfCanonical(t, p);
      while at != 0 && depth < DEPTH_MAX
        invariant depth <= DEPTH_MAX && ChainTo(t, stack[..depth], p, at)
        decreases DEPTH_MAX - depth
      {
        ChainFurther(t, stack[..depth], p, at);
        ghost var before := stack[..depth];
        stack[depth] := at;
        depth := depth + 1;
        assert stack[..depth] == before + [at];
        at := records[at].parent;
      }
      PathOfCanonical(t, at);
    }

    /** Rebuilds the text of slot p, the root or a directory that has a child. */
    method BuildParent(p: nat, buffer: array<char>)
      requires Valid() && p < FILE_MAX && Live(records[..], p) && buffer.Length == BUFFER
      requires |Render(PathOf(records[..], p))| < PATH_MAX
      modifies buffer
      ensures CStr(buffer[..]) == Render(PathOf(records[..], p)) && IsCString(CStr(buffer[..]))
    {
      PathOfCanonical(records[..], 0);
      CopyInto(buffer, "/", BUFFER);
      if p != 0 {
        var stack := new nat[DEPTH_MAX](_ => 0);
        var depth := CollectChain(p, stack);
        Unwind(p, stack, depth, buffer);
      }
    }

    /** Writes the names of a chain, from the root down. */
    method Unwind(p: nat, stack: array<nat>, depth: nat, buffer: array<char>)
      requires Valid() && depth <= stack.Length && Chain(records[..], stack[..depth], p) && buffer.Length == BUFFER
      requires |Render(PathOf(records[..], p))| < PATH_MAX && CStr(buffer[..]) == "/"
      modifies buffer
      ensures CStr(buffer[..]) == Render(PathOf(records[..], p)) && IsCString(CStr(buffer[..]))
    {
      ghost var t, chain := records[..], stack[..depth];
      var d := depth;
      PathOfCanonical(t, 0);
      while d > 0
        invariant d <= depth && stack[..depth] == chain
        invariant IsCString(CStr(buffer[..])) && CStr(buffer[..]) == Render(PathOf(t, Upper(chain, d)))
      {
        d := d - 1;
        UnwindStep(t, chain, p, d);
        assert stack[d] == chain[d];
        AppendName(buffer, records[stack[d]].name);
      }
    }

    /** The slot above the part of the chain that has not been written yet. */
    ghost function Upper(chain: seq<nat>, d: nat): nat
      requires d <= |chain|
    {
      if d == |chain| then 0 else chain[d]
    }

    lemma UnwindStep(t: Table, chain: seq<nat>, p: nat, d: nat)
      requires TreeInv(t) && Chain(t, chain, p) && d < |chain| && |Render(PathOf(t, p))| < PATH_MAX
      ensures Live(t, chain[d]) && IsCString(t[chain[d]].name)
      ensures |Render(PathOf(t, Upper(chain, d + 1)))| < PATH_MAX
      ensures Extend(Render(PathOf(t, Upper(chain, d + 1))), t[chain[d]].name) == Render(PathOf(t, chain[d]))
    {
      LiveFacts(t, chain[d]);
      AncestorShort(t, chain, p, d);
      ParentTextShort(t, chain[d]);
      assert t[chain[d]].parent == Upper(chain, d + 1);
    }

    /** Every text on the way down to p is at most as long as that of p. */
    lemma {:induction false} AncestorShort(t: Table, chain: seq<nat>, p: nat, k: nat)
      requires TreeInv(t) && Chain(t, chain, p) && k < |chain|
      requires |Render(PathOf(t, p))| < PATH_MAX
      ensures |Render(PathOf(t, chain[k]))| < PATH_MAX && |Render(PathOf(t, t[chain[k]].parent))| < PATH_MAX
    {
      if k > 0 {
        AncestorShort(t, chain, p, k - 1);
      }
      ParentShorter(t, chain[k]);
    }

    lemma ParentShorter(t: Table, i: nat)
      requires TreeInv(t) && Live(t, i) && i != 0
      ensures Live(t, t[i].parent)
      ensures |Render(PathOf(t, t[i].parent))| < |Render(PathOf(t, i))|
    {
      PathOfChild(t, i);
      LiveFacts(t, i);
      PathOfCanonical(t, t[i].parent);
      var p := PathOf(t, t[i].parent);
      assert (p + [t[i].name])[..|p|] == p;
    }

    /** Whether slot i, in use, has the given canonical text. */
    method Matches(i: nat, text: string) returns (same: bool)
      requires Valid() && 0 < i < FILE_MAX && Live(records[..], i)
      ensures same <==> Render(PathOf(records[..], i)) == text
    {
      ghost var t := records[..];
      PathOfChild(t, i);
      ParentShorter(t, i);
      LiveFacts(t, i);
      ParentTextShort(t, i);
      var parent := new char[BUFFER](_ => '\0');
      var candidate := new char[BUFFER](_ => '\0');
      BuildParent(records[i].parent, parent);
      var above := ReadCString(parent);
      CopyInto(candidate, above, BUFFER);
      AppendName(candidate, records[i].name);
      var rebuilt := ReadCString(candidate);
      same := rebuilt == text;
    }

    lemma ScanPast(t: Table, q: Path, i: nat, next: nat)
      requires i < FILE_MAX && next == i + 1 && !(Live(t, i) && PathOf(t, i) == q)
      ensures Scan(t, q, i) == Scan(t, q, next)
    {
    }

    /** Whether slot i is in use with the path q, whose text is given. */
    method Names(i: nat, text: string, ghost q: Path) returns (same: bool)
      requires Valid() && 0 < i < FILE_MAX && Canonical(q) && text == Render(q)
      ensures same <==> Live(records[..], i) && PathOf(records[..], i) == q
    {
      if records[i].used == 0 {
        return false;
      }
      ghost var t := records[..];
      LiveFacts(t, i);
      PathOfChild(t, i);
      PathOfCanonical(t, i);
      RenderInjective(q, PathOf(t, i));
      same := false;
      if records[i].parent >= 0 {
        same := Matches(i, text);
      }
    }

    /** Scans the slots from 1 on for a path. */
    method Search(text: string, ghost q: Path) returns (n: int)
      requires Valid() && Canonical(q) && text == Render(q)
      ensures n == Scan(records[..], q, 1)
    {
      ghost var t := records[..];
      var i := 1;
      while i < FILE_MAX
        invariant 1 <= i <= FILE_MAX
        invariant Scan(t, q, 1) == Scan(t, q, i)
      {
        var same := Names(i, text, q);
        if same {
          return i;
        }
        ScanPast(t, q, i, i + 1);
        i := i + 1;
      }
      n := -1;
    }

    /** find(): the slot in use whose rebuilt text is the normalized path, or -1. */
    method Find(path: string) returns (n: int)
      requires Valid() && PathArg(path)
      ensures n == FindPath(records[..], path)
    {
      ghost var t := records[..];
      var normalized := new char[BUFFER](_ => '\0');
      var rc := VfsNormalize("/", path, normalized);
      if rc != 0 {
        return -1;
      }
      ghost var q := Resolve("/", path).value;
      ResolveCanonical("/", path);
      RenderInjective(q, []);
      var text := ReadCString(normalized);
      if text == "/" {
        return 0;
      }
      n := Search(text, q);
    }

    /** The position of the last slash of an absolute text. */
    method LastSlash(text: string) returns (split: nat)
      requires Absolute(text)
      ensures split < |text| && text[split] == '/' && forall k :: split < k < |text| ==> text[k] != '/'
    {
      split := 0;
      var i := 1;
      while i < |text|
        invariant 1 <= i <= |text| && split < i && text[split] == '/'
        invariant forall k :: split < k < i ==> text[k] != '/'
      {
        if text[i] == '/' {
          split := i;
        }
        i := i + 1;
      }
    }

    /** Before the last slash stands the parent's text, behind it the last name. */
    lemma SplitText(q: Path, split: nat)
      requires Canonical(q) && q != [] && (forall d :: 0 <= d < |q| ==> IsCString(q[d])) && |Render(q)| <= PATH_MAX
      requires split < |Render(q)| && Render(q)[split] == '/' && forall k :: split < k < |Render(q)| ==> Render(q)[k] != '/'
      ensures var front := q[..|q| - 1];
              var above := if split == 0 then "/" else Render(q)[..split];
              && above == Render(front) && Render(q)[split + 1..] == q[|q| - 1]
              && PathArg(above) && Resolve("/", above) == Some(front)
    {
      var front := q[..|q| - 1];
      RenderLast(q);
      assert split == |Join(front)|;
      RenderIsCString(front);
      ResolveRender("/", front);
      ShortPathFits(Render(front));
    }

    /** The last name of a path's text, and the text of what is above it. */
    method SplitLast(text: string, ghost q: Path) returns (name: string, above: string)
      requires Canonical(q) && q != [] && (forall d :: 0 <= d < |q| ==> IsCString(q[d]))
      requires text == Render(q) && |text| <= PATH_MAX
      ensures name == q[|q| - 1] && PathArg(above) && Resolve("/", above) == Some(q[..|q| - 1])
    {
      var split := LastSlash(text);
      SplitText(q, split);
      name := text[split + 1..];
      above := if split == 0 then "/" else text[..split];
    }

    /** parent_and_name(): the slot of the parent directory and the last component. */
    method ParentAndName(path: string) returns (rc: int, parent: int, name: string)
      requires Valid() && PathArg(path)
      ensures rc == 0 || rc == -1
      ensures rc == 0 <==>
              && Resolve("/", path).Some? && Resolve("/", path).value != []
              && IsDir(records[..], ParentSlot(records[..], path))
      ensures rc == 0 ==> parent == ParentSlot(records[..], path) && name == LastName(path)
    {
      parent, name := -1, [];
      var normalized := new char[BUFFER](_ => '\0');
      rc := VfsNormalize("/", path, normalized);
      if rc != 0 {
        return -1, parent, name;
      }
      ghost var q := Resolve("/", path).value;
      ResolvedPath(path);
      RenderInjective(q, []);
      var text := ReadCString(normalized);
      if text == "/" {
        return -1, parent, name;
      }
      rc, parent, name := Above(text, q);
    }

    /** The same for a path other than the root, whose text is given. */
    method Above(text: string, ghost q: Path) returns (rc: int, parent: int, name: string)
      requires Valid() && Canonical(q) && q != [] && (forall d :: 0 <= d < |q| ==> IsCString(q[d]))
      requires text == Render(q) && |text| <= PATH_MAX
      ensures rc == 0 || rc == -1
      ensures parent == Lookup(records[..], q[..|q| - 1]) && name == q[|q| - 1]
      ensures rc == 0 <==> IsDir(records[..], parent)
    {
      var above;
      name, above := SplitLast(text, q);
      parent := Find(above);
      LookupCorrect(records[..], q[..|q| - 1]);
      rc := if parent >= 0 && records[parent].kind == DIRECTORY then 0 else -1;
    }

    // ---------- persisting ----------

    /** The 4096 bytes of the record area: header, records, zeros. */
    method BuildImage(g: nat) returns (all: array<Byte>)
      requires Shape() && Encodable(records[..]) && g < WORD
      ensures fresh(all) && all[..] == Image(records[..], g)
    {
      ghost var t, image := records[..], Image(records[..], g);
      all := new Byte[META_BYTES](_ => 0);
      CopyBytes(all, 0, U32(MAGIC));
      CopyBytes(all, 4, U32(g));
      ImageHeader(t, g);
      assert all[..HEADER] == U32(MAGIC) + U32(g);
      var i, offset := 0, 0;
      while i < FILE_MAX
        invariant 0 <= i <= FILE_MAX && offset == RECORD_BYTES * i
        invariant all[..HEADER + offset] == image[..HEADER + offset]
        invariant forall k :: HEADER + offset <= k < META_BYTES ==> all[k] == 0
      {
        assert WellFormed(t[i]);
        ImageStep(t, g, i);
        CopyBytes(all, HEADER + offset, EncodeRecord(records[i]));
        offset := offset + RECORD_BYTES;
        i := i + 1;
      }
      ImageTail(t, g);
      assert all[..] == all[..HEADER + offset] + all[HEADER + offset..];
      assert image == image[..HEADER + offset] + image[HEADER + offset..];
      assert all[HEADER + offset..] == image[HEADER + offset..];
    }

    lemma ImageHeader(t: Table, g: nat)
      requires Encodable(t) && g < WORD
      ensures Image(t, g)[..HEADER] == U32(MAGIC) + U32(g)
    {
    }

    lemma ImageTail(t: Table, g: nat)
      requires Encodable(t) && g < WORD
      ensures forall k :: HEADER + RECORD_BYTES * FILE_MAX <= k < META_BYTES ==> Image(t, g)[k] == 0
    {
    }

    /** Copies bytes into the buffer at a position, one at a time. */
    method CopyBytes(all: array<Byte>, at: nat, raw: seq<Byte>)
      requires at + |raw| <= all.Length
      modifies all
      ensures all[..at + |raw|] == old(all[..at]) + raw
      ensures forall k :: at + |raw| <= k < all.Length ==> all[k] == old(all[k])
    {
      var j := 0;
      while j < |raw|
        invariant 0 <= j <= |raw|
        invariant all[..at + j] == old(all[..at]) + raw[..j]
        invariant forall k :: at + |raw| <= k < all.Length ==> all[k] == old(all[k])
      {
        all[at + j] := raw[j];
        j := j + 1;
      }
    }

    lemma ImageStep(t: Table, g: nat, i: nat)
      requires Encodable(t) && g < WORD && i < FILE_MAX
      ensures WellFormed(t[i])
      ensures Image(t, g)[..HEADER + RECORD_BYTES * (i + 1)] == Image(t, g)[..HEADER + RECORD_BYTES * i] + EncodeRecord(t[i])
    {
      assert WellFormed(t[i]);
      ImageRecord(t, g, i);
      var image := Image(t, g);
      assert image[..HEADER + RECORD_BYTES * (i + 1)] == image[..HEADER + RECORD_BYTES * i] + RecordBytes(image, i);
    }

    /** The disk after some of the eight sectors of a block have been written. */
    ghost predicate Partly(before: seq<Sector>, after: seq<Sector>, lba: nat, block: seq<Byte>, k: nat)
    {
      |before| == DISK_SECTORS && |block| == META_BYTES && lba + META_SECTORS <= |before| && k <= META_SECTORS &&
      after == Put(before, lba, block, k)
    }

    /** Writes a block sector by sector; stops at the first failure.  Nothing lies behind the last sector. */
    method WriteBlock(lba: nat, block: seq<Byte>) returns (rc: int, ghost k: nat)
      requires disk.Valid() && |block| == META_BYTES && (lba + META_SECTORS <= DISK_SECTORS || lba == DISK_SECTORS)
      modifies disk.sectors
      ensures rc == 0 || rc == -1
      ensures lba == DISK_SECTORS ==> rc == -1 && disk.sectors[..] == old(disk.sectors[..])
      ensures lba < DISK_SECTORS ==>
                && Partly(old(disk.sectors[..]), disk.sectors[..], lba, block, k)
                && (rc == 0 ==> k == META_SECTORS) && (disk.reliable ==> rc == 0)
    {
      ghost var before := disk.sectors[..];
      k := 0;
      var i := 0;
      while i < META_SECTORS
        invariant 0 <= i <= META_SECTORS && k == i
        invariant if lba < DISK_SECTORS then Partly(before, disk.sectors[..], lba, block, i) else i == 0 && disk.sectors[..] == before
      {
        ghost var now := disk.sectors[..];
        var sector: Sector := block[SECTOR * i..SECTOR * i + SECTOR];
        rc := disk.Write(lba + i, sector);
        if rc != 0 {
          k := if disk.sectors[..] == now then i else i + 1;
          return -1, k;
        }
        assert now[lba + i := sector] == Put(before, lba, block, i + 1);
        i := i + 1;
        k := i;
      }
      rc := 0;
    }

    /** persist(): nothing on a volatile mount; else the next generation, with all records. */
    method Persist() returns (rc: int, ghost k: nat)
      requires Shape() && Encodable(records[..])
      modifies this`generation, disk.sectors
      ensures Shape() && (rc == 0 || rc == -1)
      ensures !backed ==> rc == 0 && generation == old(generation) && disk.sectors[..] == old(disk.sectors[..])
      ensures backed ==>
                && generation == Next(old(generation))
                && Partly(old(disk.sectors[..]), disk.sectors[..], META_LBA, Image(records[..], generation), k)
                && (rc == 0 ==> k == META_SECTORS)
      ensures disk.reliable ==> rc == 0
      ensures rc == 0 ==> State() == Persisted(old(State()))
    {
      k := 0;
      if !backed {
        return 0, 0;
      }
      generation := (generation + 1) % WORD;
      var all := BuildImage(generation);
      rc, k := WriteBlock(META_LBA, all[..]);
    }

    // ---------- changing the tree ----------

    /** The records have been replaced by t, and a persist that stopped after k sectors has run. */
    twostate predicate CommittedAs(t: Table, k: nat)
      requires old(Shape()) && Shape()
      reads this, records, contents, disk.sectors
    {
      && records[..] == t && backed == old(backed) && contents[..] == old(contents[..])
      && (!backed ==> generation == old(generation) && disk.sectors[..] == old(disk.sectors[..]))
      && (backed ==>
            && generation == Next(old(generation))
            && Encodable(t) && Partly(old(disk.sectors[..]), disk.sectors[..], META_LBA, Image(t, generation), k))
    }

    /** A record is replaced and the records are persisted. */
    method Replace(n: nat, r: Record) returns (rc: int, ghost k: nat)
      requires Valid() && n < FILE_MAX && TreeInv(records[..][n := r])
      modifies records, this`generation, disk.sectors
      ensures Valid() && (rc == 0 || rc == -1)
      ensures CommittedAs(old(records[..])[n := r], k) && (if backed then rc == 0 ==> k == META_SECTORS else rc == 0)
      ensures disk.reliable || rc == 0 ==> (rc == 0, State()) == Commit(old(State()), Some(old(records[..])[n := r]))
    {
      ghost var t := records[..];
      records[n] := r;
      assert records[..] == t[n := r];
      rc, k := Persist();
    }

    /** The first free slot after the root's, or -1. */
    method FreeSlot() returns (slot: int)
      requires records.Length == FILE_MAX
      ensures slot == FirstFree(records[..], 1)
    {
      ghost var t := records[..];
      slot := -1;
      var i := 1;
      while i < FILE_MAX && slot < 0
        invariant 1 <= i <= FILE_MAX
        invariant slot == -1 || slot == FirstFree(t, 1)
        invariant slot == -1 ==> FirstFree(t, 1) == FirstFree(t, i)
        decreases FILE_MAX - i - (if slot < 0 then 0 else 1)
      {
        if records[i].used == 0 {
          slot := i;
        } else {
          i := i + 1;
        }
      }
    }

    /** The slot and the record that create() fills in, or -1. */
    method NewEntry(path: string, kind: Byte) returns (slot: int, r: Record)
      requires Valid() && PathArg(path)
      ensures slot >= 0 <==> CreateT(records[..], path, kind).Some?
      ensures slot >= 0 ==> slot < FILE_MAX && records[..][slot := r] == CreateT(records[..], path, kind).value
    {
      slot, r := -1, ZERO;
      var n := Find(path);
      if n >= 0 {
        return;
      }
      var rc, parent, name := ParentAndName(path);
      if rc != 0 {
        return;
      }
      slot := FreeSlot();
      if slot >= 0 {
        r := Record(name, parent, kind, 1, 0, DATA_LBA + slot * 8);
      }
    }

    /** create(): the first free slot becomes a record below the parent directory. */
    method Create(path: string, kind: Byte) returns (rc: int, ghost k: nat)
      requires Valid() && PathArg(path) && (kind == DIRECTORY || kind == FILE)
      modifies records, this`generation, disk.sectors
      ensures Valid() && (rc == 0 || rc == -1)
      ensures old(CreateT(records[..], path, kind)).None? ==> rc == -1 && State() == old(State())
      ensures old(CreateT(records[..], path, kind)).Some? ==>
                CommittedAs(old(CreateT(records[..], path, kind)).value, k) && (if backed then rc == 0 ==> k == META_SECTORS else rc == 0)
      ensures disk.reliable || rc == 0 ==> (rc == 0, State()) == Commit(old(State()), old(CreateT(records[..], path, kind)))
    {
      CreateKeepsTree(records[..], path, kind);
      k := 0;
      var slot, r := NewEntry(path, kind);
      if slot < 0 {
        return -1, 0;
      }
      rc, k := Replace(slot, r);
    }

    method Mkdir(path: string) returns (rc: int, ghost k: nat)
      requires Valid() && PathArg(path)
      modifies records, this`generation, disk.sectors
      ensures Valid() && (rc == 0 || rc == -1)
      ensures old(CreateT(records[..], path, DIRECTORY)).None? ==> rc == -1 && State() == old(State())
      ensures old(CreateT(records[..], path, DIRECTORY)).Some? ==>
                CommittedAs(old(CreateT(records[..], path, DIRECTORY)).value, k) && (if backed then rc == 0 ==> k == META_SECTORS else rc == 0)
      ensures disk.reliable || rc == 0 ==> (rc == 0, State()) == MkdirS(old(State()), path)
      ensures rc != 0 ==> Stopped(old(State()), Op.Mkdir(path), k, State())
    {
      rc, k := Create(path, DIRECTORY);
      if rc != 0 {
        UpdateStopped(old(State()), Op.Mkdir(path), k, State());
      }
    }

    method Touch(path: string) returns (rc: int, ghost k: nat)
      requires Valid() && PathArg(path)
      modifies records, this`generation, disk.sectors
      ensures Valid() && (rc == 0 || rc == -1)
      ensures old(FindPath(records[..], path)) >= 0 ==> rc == 0 && State() == old(State())
      ensures old(TouchT(records[..], path)).None? ==> rc == -1 && State() == old(State())
      ensures old(FindPath(records[..], path)) < 0 && old(TouchT(records[..], path)).Some? ==>
                CommittedAs(old(TouchT(records[..], path)).value, k) && (if backed then rc == 0 ==> k == META_SECTORS else rc == 0)
      ensures disk.reliable || rc == 0 ==> (rc == 0, State()) == TouchS(old(State()), path)
      ensures rc != 0 ==> Stopped(old(State()), Op.Touch(path), k, State())
    {
      k := 0;
      var n := Find(path);
      if n >= 0 {
        return 0, 0;
      }
      rc, k := Create(path, FILE);
      if rc != 0 {
        UpdateStopped(old(State()), Op.Touch(path), k, State());
      }
    }

    /** Whether some slot in use has slot n as its parent. */
    method HasChild(n: nat) returns (busy: bool)
      requires records.Length == FILE_MAX
      ensures busy <==> !Childless(records[..], n)
    {
      ghost var t := records[..];
      var i := 1;
      while i < FILE_MAX
        invariant 1 <= i <= FILE_MAX
        invariant forall k :: 0 < k < i && Live(t, k) ==> t[k].parent != n
      {
        if records[i].used != 0 && records[i].parent == n {
          assert Live(t, i);
          return true;
        }
        i := i + 1;
      }
      busy := false;
    }

    /** vfs_rmdir(): frees the slot of an empty directory other than the root. */
    method Rmdir(path: string) returns (rc: int, ghost k: nat)
      requires Valid() && PathArg(path)
      modifies records, this`generation, disk.sectors
      ensures Valid() && (rc == 0 || rc == -1)
      ensures old(RmdirT(records[..], path)).None? ==> rc == -1 && State() == old(State())
      ensures old(RmdirT(records[..], path)).Some? ==>
                CommittedAs(old(RmdirT(records[..], path)).value, k) && (if backed then rc == 0 ==> k == META_SECTORS else rc == 0)
      ensures disk.reliable || rc == 0 ==> (rc == 0, State()) == RmdirS(old(State()), path)
      ensures rc != 0 ==> Stopped(old(State()), Op.Rmdir(path), k, State())
    {
      ghost var t := records[..];
      RmdirKeepsTree(t, path);
      var n := Find(path);
      k := 0;
      if n <= 0 || records[n].kind != DIRECTORY {
        UpdateStopped(old(State()), Op.Rmdir(path), 0, State());
        return -1, 0;
      }
      var busy := HasChild(n);
      if busy {
        UpdateStopped(old(State()), Op.Rmdir(path), 0, State());
        return -1, 0;
      }
      rc, k := Replace(n, records[n].(used := 0));
      if rc != 0 {
        UpdateStopped(old(State()), Op.Rmdir(path), k, State());
      }
    }

    /** vfs_remove(): frees the slot of a file. */
    method Remove(path: string) returns (rc: int, ghost k: nat)
      requires Valid() && PathArg(path)
      modifies records, this`generation, disk.sectors
      ensures Valid() && (rc == 0 || rc == -1)
      ensures old(RemoveT(records[..], path)).None? ==> rc == -1 && State() == old(State())
      ensures old(RemoveT(records[..], path)).Some? ==>
                CommittedAs(old(RemoveT(records[..], path)).value, k) && (if backed then rc == 0 ==> k == META_SECTORS else rc == 0)
      ensures disk.reliable || rc == 0 ==> (rc == 0, State()) == RemoveS(old(State()), path)
      ensures rc != 0 ==> Stopped(old(State()), Op.Remove(path), k, State())
    {
      ghost var t := records[..];
      RemoveKeepsTree(t, path);
      var n := Find(path);
      k := 0;
      if n <= 0 || records[n].kind != FILE {
        UpdateStopped(old(State()), Op.Remove(path), 0, State());
        return -1, 0;
      }
      rc, k := Replace(n, records[n].(used := 0));
      if rc != 0 {
        UpdateStopped(old(State()), Op.Remove(path), k, State());
      }
    }

    // ---------- contents ----------

    /** Loads the eight sectors of slot n into memory. */
    method LoadSlot(n: nat) returns (rc: int)
      requires Valid() && IsFile(records[..], n)
      modifies contents
      ensures Valid() && (rc == 0 || rc == -1)
      ensures forall i :: 0 <= i < FILE_MAX && i != n ==> contents[i] == old(contents[i])
      ensures rc == 0 ==> n <= 62 && contents[..] == old(contents[..])[n := Get(disk.sectors[..], SlotLba(n))]
      ensures n == 63 ==> rc == -1 && contents[..] == old(contents[..])
      ensures disk.reliable && n <= 62 ==> rc == 0
    {
      ghost var t, before := records[..], contents[..];
      LiveFacts(t, n);
      var i := 0;
      while i < META_SECTORS
        invariant 0 <= i <= META_SECTORS && (i > 0 ==> n <= 62)
        invariant forall m :: 0 <= m < FILE_MAX && m != n ==> contents[m] == before[m]
        invariant i == 0 ==> contents[..] == before
        invariant n <= 62 ==> contents[n][..SECTOR * i] == Get(disk.sectors[..], SlotLba(n))[..SECTOR * i]
      {
        var ok, sector := disk.Read(records[n].lba + i);
        if ok != 0 {
          return -1;
        }
        PutSector(n, i, sector);
        GetSector(disk.sectors[..], SlotLba(n), i);
        assert contents[n][..SECTOR * (i + 1)] == contents[n][..SECTOR * i] + contents[n][SECTOR * i..SECTOR * (i + 1)];
        i := i + 1;
      }
      assert contents[n] == contents[n][..SECTOR * i] == Get(disk.sectors[..], SlotLba(n));
      assert contents[..] == before[n := Get(disk.sectors[..], SlotLba(n))];
      rc := 0;
    }

    lemma GetSector(disk: seq<Sector>, lba: nat, i: nat)
      requires lba + META_SECTORS <= |disk| && i < META_SECTORS
      ensures Get(disk, lba)[..SECTOR * (i + 1)] == Get(disk, lba)[..SECTOR * i] + disk[lba + i]
    {
      var part := Get(disk, lba)[SECTOR * i..SECTOR * (i + 1)];
      forall x | 0 <= x < SECTOR
        ensures part[x] == disk[lba + i][x]
      {
        assert (SECTOR * i + x) / SECTOR == i && (SECTOR * i + x) % SECTOR == x;
      }
    }

    /** Copies one sector into the slot's block, byte by byte. */
    method PutSector(n: nat, i: nat, sector: Sector)
      requires contents.Length == FILE_MAX && n < FILE_MAX && i < META_SECTORS
      modifies contents
      ensures forall m :: 0 <= m < FILE_MAX && m != n ==> contents[m] == old(contents[m])
      ensures contents[n][..SECTOR * i] == old(contents[n])[..SECTOR * i]
      ensures contents[n][SECTOR * i..SECTOR * (i + 1)] == sector
    {
      var j := 0;
      while j < SECTOR
        invariant 0 <= j <= SECTOR
        invariant forall m :: 0 <= m < FILE_MAX && m != n ==> contents[m] == old(contents[m])
        invariant contents[n][..SECTOR * i] == old(contents[n])[..SECTOR * i]
        invariant contents[n][SECTOR * i..SECTOR * i + j] == sector[..j]
      {
        ghost var was := contents[n];
        contents[n] := contents[n][SECTOR * i + j := sector[j]];
        assert contents[n][..SECTOR * i] == was[..SECTOR * i];
        assert contents[n][SECTOR * i..SECTOR * i + j + 1] == was[SECTOR * i..SECTOR * i + j] + [sector[j]];
        j := j + 1;
      }
    }

    /** vfs_read(): at most capacity bytes of the file, into the caller's buffer. */
    method Read(path: string, buffer: array<Byte>, capacity: nat) returns (rc: int, size: nat)
      requires Valid() && PathArg(path) && capacity <= buffer.Length
      modifies contents, buffer
      ensures Valid() && (rc == 0 || rc == -1)
      ensures size <= capacity && (rc != 0 ==> size == 0 && buffer[..] == old(buffer[..]))
      ensures buffer[size..] == old(buffer[size..])
      ensures rc == 0 ==> (Some(buffer[..size]), State()) == ReadS(old(State()), path, capacity)
      ensures disk.reliable && rc != 0 ==> (None, State()) == ReadS(old(State()), path, capacity)
      ensures rc != 0 ==> Stopped(old(State()), Op.Read(path, capacity), 0, State())
    {
      ghost var s := State();
      size := 0;
      var n := Find(path);
      if n < 0 || records[n].used == 0 || records[n].kind != FILE {
        return -1, 0;
      }
      LiveFacts(s.recs, n);
      if backed {
        rc := LoadSlot(n);
        if rc != 0 {
          return -1, 0;
        }
      }
      var want := if records[n].size < capacity then records[n].size else capacity;
      CopyOut(n, want, buffer);
      return 0, want;
    }

    method CopyOut(n: nat, want: nat, buffer: array<Byte>)
      requires contents.Length == FILE_MAX && n < FILE_MAX && want <= CONTENT_MAX && want <= buffer.Length
      modifies buffer
      ensures buffer[..want] == contents[n][..want] && buffer[want..] == old(buffer[want..])
      ensures contents[..] == old(contents[..])
    {
      var i := 0;
      while i < want
        invariant 0 <= i <= want && contents[..] == old(contents[..])
        invariant buffer[..i] == contents[n][..i] && buffer[i..] == old(buffer[i..])
      {
        buffer[i] := contents[n][i];
        i := i + 1;
      }
    }

    /** Lays data over the slot's block from pos on, byte by byte. */
    method Fill(n: nat, pos: nat, data: seq<Byte>, size: nat)
      requires contents.Length == FILE_MAX && n < FILE_MAX && pos + size <= CONTENT_MAX && size <= |data|
      requires size == Min(|data|, CONTENT_MAX - pos)
      modifies contents
      ensures contents[..] == old(contents[..])[n := Overlay(old(contents[n]), pos, data)]
    {
      ghost var block, before := contents[n], contents[..];
      var i := 0;
      assert block == block[..pos] + data[..0] + block[pos..];
      while i < size
        invariant 0 <= i <= size
        invariant contents[n] == block[..pos] + data[..i] + block[pos + i..]
        invariant forall m :: 0 <= m < FILE_MAX && m != n ==> contents[m] == before[m]
      {
        contents[n] := contents[n][pos + i := data[i]];
        i := i + 1;
      }
      assert contents[..] == before[n := Overlay(block, pos, data)];
    }

    /**
     * vfs_write(): the bytes in memory, then the size, then the sectors, then the records.  On a drive
     * that fails, the disk is the one a crash after k of the sixteen sector writes leaves.
     */
    method Write(path: string, data: seq<Byte>, append: bool) returns (rc: int, ghost k: nat)
      requires Valid() && PathArg(path)
      modifies records, contents, this`generation, disk.sectors
      ensures Valid() && (rc == 0 || rc == -1) && backed == old(backed)
      ensures old(FileSlot(records[..], path)) == -1 ==> rc == -1 && State() == old(State())
      ensures old(FileSlot(records[..], path)) != -1 ==>
                var n := old(FileSlot(records[..], path));
                var w := Written(old(State()), n, data, append);
                && records[..] == w.recs && contents[..] == w.ram
                && (!backed || n == 63 ==> generation == old(generation) && disk.sectors[..] == old(disk.sectors[..]))
                && (backed && n == 63 ==> rc == -1)
                && (backed && n <= 62 ==> StoredAs(old(State()), w, n, rc, k))
      ensures disk.reliable || rc == 0 ==> (rc == 0, State()) == WriteS(old(State()), path, data, append)
      ensures rc != 0 ==> Stopped(old(State()), Op.Write(path, data, append), k, State())
    {
      ghost var s := State();
      k := 0;
      var n := Find(path);
      if n < 0 || records[n].used == 0 || records[n].kind != FILE {
        return -1, 0;
      }
      rc, k := WriteSlot(n, data, append);
      if rc != 0 {
        WriteStopped(s, path, data, append, n, Written(s, n, data, append), k, State());
      }
    }

    /** The same for the slot found. */
    method WriteSlot(n: nat, data: seq<Byte>, append: bool) returns (rc: int, ghost k: nat)
      requires Valid() && n < FILE_MAX && IsFile(records[..], n)
      modifies records, contents, this`generation, disk.sectors
      ensures Valid() && (rc == 0 || rc == -1) && backed == old(backed)
      ensures var w := Written(old(State()), n, data, append);
              && records[..] == w.recs && contents[..] == w.ram
              && (!backed || n == 63 ==> generation == old(generation) && disk.sectors[..] == old(disk.sectors[..]))
              && (!backed ==> rc == 0)
              && (backed && n == 63 ==> rc == -1)
              && (backed && n <= 62 ==> StoredAs(old(State()), w, n, rc, k))
      ensures disk.reliable || rc == 0 ==> (rc == 0, State()) == Stored(Written(old(State()), n, data, append), n)
    {
      LiveFacts(records[..], n);
      k := 0;
      var pos := if append then records[n].size else 0;
      if pos > CONTENT_MAX {
        rc := -1;
        return;
      }
      WriteMemory(n, pos, data, append);
      rc, k := Store(n);
    }

    /** Of the sixteen sector writes of a slot and the records, k have been done. */
    ghost predicate StoredAs(s: FileSystem.State, w: FileSystem.State, n: nat, rc: int, k: nat)
      requires FileSystem.Valid(s) && FileSystem.Valid(w) && n <= 62 && Shape()
      reads this, records, contents, disk.sectors
    {
      && k <= 2 * META_SECTORS && disk.sectors[..] == CrashDisk(s, w, n, k)
      && (rc == 0 ==> k == 2 * META_SECTORS)
      && (generation == s.generation || generation == Next(s.generation))
      && (k < META_SECTORS ==> generation == s.generation)
      && (k > META_SECTORS ==> generation == Next(s.generation))
    }

    /** The bytes and the new size, in memory. */
    method WriteMemory(n: nat, pos: nat, data: seq<Byte>, append: bool)
      requires Valid() && IsFile(records[..], n) && pos == (if append then records[n].size else 0) && pos <= CONTENT_MAX
      modifies records, contents
      ensures Valid() && State() == Written(old(State()), n, data, append)
    {
      ghost var s := State();
      var size := if |data| > CONTENT_MAX - pos then CONTENT_MAX - pos else |data|;
      Fill(n, pos, data, size);
      records[n] := records[n].(size := pos + size);
      assert records[..] == Resized(s.recs, n, pos + size);
      assert State() == Written(s, n, data, append);
    }

    /** The slot's sectors and then the records, on a disk-backed mount. */
    method Store(n: nat) returns (rc: int, ghost k: nat)
      requires Valid() && IsFile(records[..], n)
      modifies this`generation, disk.sectors
      ensures Valid() && (rc == 0 || rc == -1)
      ensures !backed || n == 63 ==> generation == old(generation) && disk.sectors[..] == old(disk.sectors[..])
      ensures !backed ==> rc == 0
      ensures backed && n == 63 ==> rc == -1
      ensures backed && n <= 62 ==> StoredAs(old(State()), old(State()), n, rc, k)
      ensures disk.reliable || rc == 0 ==> (rc == 0, State()) == Stored(old(State()), n)
    {
      ghost var w := State();
      k := 0;
      LiveFacts(w.recs, n);
      if backed {
        rc, k := WriteBlock(records[n].lba, contents[n]);
        if rc != 0 {
          return;
        }
        assert State() == w.(disk := disk.sectors[..]);
      }
      ghost var l;
      rc, l := Persist();
      k := k + l;
    }

    // ---------- composites ----------

    /** vfs_copy(): read, touch, write.  If it fails, it has stopped in one of these calls. */
    method Copy(source: string, target: string) returns (rc: int, ghost part: nat, ghost k: nat)
      requires Valid() && PathArg(source) && PathArg(target)
      modifies records, contents, this`generation, disk.sectors
      ensures Valid() && (rc == 0 || rc == -1)
      ensures disk.reliable || rc == 0 ==> (rc == 0, State()) == CopyS(old(State()), source, target)
      ensures rc != 0 ==> StoppedIn(old(State()), CopyParts(old(State()), source, target, []), part, k, State())
    {
      ghost var s := State();
      part, k := 0, 0;
      var buffer := new Byte[CONTENT_MAX](_ => 0);
      var ok, n := Read(source, buffer, CONTENT_MAX);
      if ok != 0 {
        StoppedReading(s, source, target, [], 0, State());
        return -1, 0, 0;
      }
      ghost var s1 := State();
      rc, k := Touch(target);
      if rc != 0 {
        StoppedTouching(s, source, target, [], s1, k, State());
        return -1, 1, k;
      }
      ghost var s2 := State();
      rc, k := Write(target, buffer[..n], false);
      if rc != 0 {
        part := 2;
        StoppedWriting(s, source, target, [], buffer[..n], s1, s2, k, State());
      }
    }

    /** vfs_move(): copy, then remove the source. */
    method Move(source: string, target: string) returns (rc: int, ghost part: nat, ghost k: nat)
      requires Valid() && PathArg(source) && PathArg(target)
      modifies records, contents, this`generation, disk.sectors
      ensures Valid() && (rc == 0 || rc == -1)
      ensures disk.reliable || rc == 0 ==> (rc == 0, State()) == MoveS(old(State()), source, target)
      ensures rc != 0 ==> StoppedIn(old(State()), Parts(old(State()), Op.Move(source, target)), part, k, State())
    {
      ghost var s := State();
      rc, part, k := Copy(source, target);
      if rc != 0 {
        StoppedCopy(s, source, target, part, k, State());
      } else {
        ghost var s1 := State();
        rc, k := Remove(source);
        if rc != 0 {
          part := 3;
          StoppedRemoving(s, source, target, s1, k, State());
        }
      }
    }

    // ---------- looking ----------

    /** Kind and size are those of a node. */
    predicate Shows(kind: Byte, size: nat, node: Node) {
      && (kind == DIRECTORY <==> node.Dir?)
      && (kind == FILE <==> node.File?)
      && size == if node.Dir? then 0 else |node.bytes|
    }

    /** vfs_stat(): kind and size of the tree's node, or failure where there is none. */
    method Stat(path: string) returns (rc: int, kind: Byte, size: nat)
      requires Valid() && PathArg(path)
      ensures rc == if StatS(State(), path).Some? then 0 else -1
      ensures rc == 0 ==> StatS(State(), path) == Some((kind == DIRECTORY, size))
      ensures rc == 0 <==> Resolve("/", path).Some? && Resolve("/", path).value in Abs(State())
      ensures rc == 0 ==> Shows(kind, size, Abs(State())[Resolve("/", path).value])
    {
      FoundInTree(State(), path);
      var n := Find(path);
      if n < 0 {
        return -1, 0, 0;
      }
      LiveFacts(records[..], n);
      return 0, records[n].kind, records[n].size;
    }

    /** vfs_list(): the first max children of a directory, in slot order. */
    method List(path: string, max: nat) returns (rc: int, entries: seq<Entry>)
      requires Valid() && PathArg(path)
      ensures var n := FindPath(records[..], path);
              if IsDir(records[..], n) then rc == 0 && entries == FirstOf(Entries(records[..], ChildSlots(records[..], n, 1)), max)
              else rc == -1 && entries == []
      ensures max >= FILE_MAX ==> ListS(State(), path) == if rc == 0 then Some(multiset(entries)) else None
    {
      ghost var t := records[..];
      entries := [];
      var n := Find(path);
      FindLive(t, path);
      if n < 0 || records[n].kind != DIRECTORY {
        return -1, [];
      }
      entries := ListSlot(n, max);
      EntriesFromSlots(t, n, 1);
      rc := 0;
    }

    /** What one slot adds to a listing. */
    lemma EntriesStep(t: Table, n: nat, i: nat, next: nat, before: seq<Entry>, after: seq<Entry>)
      requires i < FILE_MAX && next == i + 1
      requires after == if Live(t, i) && t[i].parent == n then before + [EntryOf(t[i])] else before
      ensures before + EntriesFrom(t, n, i) == after + EntriesFrom(t, n, next)
    {
    }

    /** A listing ends when there is no room or no slot left. */
    lemma EntriesEnd(all: seq<Entry>, entries: seq<Entry>, rest: seq<Entry>, max: nat)
      requires all == entries + rest && |entries| <= max && (|entries| == max || rest == [])
      ensures entries == FirstOf(all, max)
    {
    }

    method ListSlot(n: nat, max: nat) returns (entries: seq<Entry>)
      requires records.Length == FILE_MAX
      ensures entries == FirstOf(EntriesFrom(records[..], n, 1), max)
    {
      ghost var t := records[..];
      ghost var all := EntriesFrom(t, n, 1);
      entries := [];
      var i := 1;
      while i < FILE_MAX && |entries| < max
        invariant 1 <= i <= FILE_MAX && |entries| <= max
        invariant all == entries + EntriesFrom(t, n, i)
        decreases FILE_MAX - i
      {
        ghost var before := entries;
        if records[i].used != 0 && records[i].parent == n {
          entries := entries + [Entry(records[i].name, records[i].kind, records[i].size)];
        }
        EntriesStep(t, n, i, i + 1, before, entries);
        i := i + 1;
      }
      EntriesEnd(all, entries, EntriesFrom(t, n, i), max);
    }

    // ---------- mounting ----------

    /**
     * vfs_init(): loads the records a disk carries, or formats; then persists.  It loads exactly when
     * the magic number is there and no sector read failed.  On a drive that fails, the first k sectors
     * of the record area have been written.
     */
    method Init(present: bool) returns (rc: int, ghost readFailed: bool, ghost k: nat)
      requires Shape() && (present ==> Mountable(disk.sectors[..]))
      modifies records, this, disk.sectors
      ensures Shape() && backed == present && contents[..] == old(contents[..]) && (rc == 0 || rc == -1)
      ensures readFailed ==> present && !disk.reliable
      ensures var before := old(disk.sectors[..]);
              var loaded := present && HasMagic(before[META_LBA]) && !readFailed;
              && records[..] == (if loaded then DecodeTable(Get(before, META_LBA)) else Formatted())
              && (present ==>
                    && generation == Next(if loaded then ImageGeneration(Get(before, META_LBA)) else 0)
                    && Encodable(records[..])
                    && Partly(before, disk.sectors[..], META_LBA, Image(records[..], generation), k))
      ensures !present ==> generation == 0 && disk.sectors[..] == old(disk.sectors[..])
      ensures present && rc == 0 ==> k == META_SECTORS
      ensures disk.reliable || rc == 0 ==>
                rc == 0 && State() == if readFailed then Reformatted(old(disk.sectors[..]), old(contents[..]))
                                      else Mounted(old(disk.sectors[..]), old(contents[..]), present)
    {
      ghost var before := disk.sectors[..];
      readFailed := false;
      Format();
      generation := 0;
      backed := present;
      if present {
        var ok, sector := disk.Read(META_LBA);
        readFailed := ok != 0;
        if ok == 0 && HasMagic(sector) {
          var done, all := LoadImage();
          readFailed := !done;
          if done {
            Decode(all);
            generation := ImageGeneration(all);
          }
        }
      }
      rc, k := Persist();
    }

    /** Only the root directory is in use. */
    method Format()
      requires records.Length == FILE_MAX
      modifies records
      ensures records[..] == Formatted()
    {
      var i := 0;
      while i < FILE_MAX
        invariant 0 <= i <= FILE_MAX
        invariant forall k :: 0 <= k < i ==> records[k] == ZERO
      {
        records[i] := ZERO;
        i := i + 1;
      }
      records[0] := Record("/", -1, DIRECTORY, 1, 0, 0);
    }

    /** Reads the eight record sectors. */
    method LoadImage() returns (done: bool, all: seq<Byte>)
      requires disk.Valid()
      ensures done ==> all == Get(disk.sectors[..], META_LBA)
      ensures disk.reliable ==> done
    {
      all := [];
      var i := 0;
      assert Get(disk.sectors[..], META_LBA)[..0] == [];
      while i < META_SECTORS
        invariant 0 <= i <= META_SECTORS
        invariant all == Get(disk.sectors[..], META_LBA)[..SECTOR * i]
      {
        var ok, sector := disk.Read(META_LBA + i);
        if ok != 0 {
          return false, all;
        }
        GetSector(disk.sectors[..], META_LBA, i);
        all := all + sector;
        i := i + 1;
      }
      done := true;
    }

    /** Takes the records out of an image. */
    method Decode(all: seq<Byte>)
      requires records.Length == FILE_MAX && |all| == META_BYTES
      modifies records
      ensures records[..] == DecodeTable(all)
    {
      var i, pos := 0, 0;
      while i < FILE_MAX
        invariant 0 <= i <= FILE_MAX && pos == RECORD_BYTES * i
        invariant forall k :: 0 <= k < i ==> records[k] == DecodeTable(all)[k]
      {
        records[i] := DecodeRecord(all[HEADER + pos..HEADER + pos + RECORD_BYTES]);
        pos := pos + RECORD_BYTES;
        i := i + 1;
      }
    }
  }
}
