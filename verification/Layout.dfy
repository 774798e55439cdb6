/** How the record table is laid out in eight disk sectors, and what a crash between two of them leaves. */
module Layout {
  import opened CStrings
  import opened Paths
  import opened Table

  const MAGIC := 0x534F4E4D
  const SECTOR := 512
  const META_SECTORS := 8
  const META_BYTES := META_SECTORS * SECTOR
  const HEADER := 8
  const RECORD_BYTES := 44
  const NAME_BYTES := NAME_MAX + 1
  const WORD := 0x1_0000_0000

  // ---------- numbers ----------

  function U16(n: nat): (b: seq<Byte>)
    requires n < 0x1_0000
    ensures |b| == 2
  {
    [n % 256, n / 256]
  }

  function U32(n: nat): (b: seq<Byte>)
    requires n < WORD
    ensures |b| == 4
  {
    [n % 256, n / 256 % 256, n / 0x1_0000 % 256, n / 0x100_0000]
  }

  function FromU16(b: seq<Byte>): (n: nat)
    requires |b| == 2
    ensures n < 0x1_0000
  {
    b[0] as int + 256 * (b[1] as int)
  }

  function FromU32(b: seq<Byte>): (n: nat)
    requires |b| == 4
    ensures n < WORD
  {
    b[0] as int + 256 * (b[1] as int) + 0x1_0000 * (b[2] as int) + 0x100_0000 * (b[3] as int)
  }

  lemma SecondByte(n: nat)
    ensures n / 256 == 256 * (n / 0x1_0000) + n / 256 % 256
  {
    var q := n / 256 / 256;
    assert 0x1_0000 * q <= n < 0x1_0000 * q + 0x1_0000;
    assert q == n / 0x1_0000;
  }

  lemma ThirdByte(n: nat)
    ensures n / 0x1_0000 == 256 * (n / 0x100_0000) + n / 0x1_0000 % 256
  {
    var q := n / 0x1_0000 / 256;
    assert 0x100_0000 * q <= n < 0x100_0000 * q + 0x100_0000;
    assert q == n / 0x100_0000;
  }

  lemma U32RoundTrip(n: nat)
    requires n < WORD
    ensures FromU32(U32(n)) == n
  {
    SecondByte(n);
    ThirdByte(n);
  }

  // ---------- one record ----------

  /** A name in its fixed field: the characters, then zeros. */
  function NameField(name: string): (b: seq<Byte>)
    requires IsCString(name) && |name| <= NAME_MAX
    ensures |b| == NAME_BYTES && b[NAME_MAX] == 0
  {
    seq(NAME_BYTES, i requires 0 <= i < NAME_BYTES => if i < |name| then name[i] as int else 0)
  }

  function NameOf(b: seq<Byte>): (name: string)
    ensures IsCString(name) && |name| <= |b|
    ensures forall i :: 0 <= i < |b| && b[i] == 0 ==> |name| <= i
  {
    if b == [] || b[0] == 0 then [] else [b[0] as char] + NameOf(b[1..])
  }

  /** The bytes of struct vfs_record, in the order of its fields; nothing is padded. */
  function EncodeRecord(r: Record): (b: seq<Byte>)
    requires WellFormed(r)
    ensures |b| == RECORD_BYTES
  {
    NameField(r.name) + U16(r.parent % 0x1_0000) + [r.kind, r.used] + U32(r.size) + U32(r.lba)
  }

  function DecodeRecord(b: seq<Byte>): Record
    requires |b| == RECORD_BYTES
  {
    var parent := FromU16(b[32..34]);
    Record(NameOf(b[..32]), if parent < 0x8000 then parent else parent - 0x1_0000, b[34], b[35], FromU32(b[36..40]), FromU32(b[40..44]))
  }

  /** A number in four bytes from a position on, the lowest first. */
  predicate Little(b: seq<Byte>, at: nat, n: nat)
    requires at + 4 <= |b|
  {
    n == b[at] as int + 256 * (b[at + 1] as int) + 0x1_0000 * (b[at + 2] as int) + 0x100_0000 * (b[at + 3] as int)
  }

  lemma LittleU32(b: seq<Byte>, at: nat, n: nat)
    requires at + 4 <= |b| && n < WORD && b[at..at + 4] == U32(n)
    ensures Little(b, at, n)
  {
    U32RoundTrip(n);
    assert b[at..at + 4][0] == b[at] && b[at..at + 4][1] == b[at + 1] && b[at..at + 4][2] == b[at + 2] && b[at..at + 4][3] == b[at + 3];
  }

  /** Where the fields of a record are: name, parent, kind, use, size and sector. */
  lemma RecordFields(r: Record)
    requires WellFormed(r)
    ensures var b := EncodeRecord(r);
            && (forall i :: 0 <= i < 32 ==> b[i] == if i < |r.name| then r.name[i] as int else 0)
            && (b[32] as int + 256 * (b[33] as int) - r.parent) % 0x1_0000 == 0
            && b[34] == r.kind && b[35] == r.used && Little(b, 36, r.size) && Little(b, 40, r.lba)
  {
    var b := EncodeRecord(r);
    assert b[36..40] == U32(r.size) && b[40..44] == U32(r.lba);
    LittleU32(b, 36, r.size);
    LittleU32(b, 40, r.lba);
    ParentBytes(r.parent);
  }

  lemma ParentBytes(parent: int)
    ensures var n := parent % 0x1_0000; (n % 256 + 256 * (n / 256) - parent) % 0x1_0000 == 0
  {
    var n := parent % 0x1_0000;
    assert n % 256 + 256 * (n / 256) == n;
    assert n - parent == -(parent / 0x1_0000) * 0x1_0000;
    MultipleOf(-(parent / 0x1_0000));
  }

  lemma MultipleOf(k: int)
    ensures k * 0x1_0000 % 0x1_0000 == 0
  {
  }

  lemma {:induction false} NameRoundTrip(b: seq<Byte>, name: string)
    requires IsCString(name) && |name| < |b|
    requires forall i :: 0 <= i < |b| ==> b[i] == if i < |name| then name[i] as int else 0
    ensures NameOf(b) == name
  {
    if name != [] {
      NameRoundTrip(b[1..], name[1..]);
    }
  }

  lemma RecordRoundTrip(r: Record)
    requires WellFormed(r)
    ensures DecodeRecord(EncodeRecord(r)) == r
  {
    var b := EncodeRecord(r);
    assert b[..32] == NameField(r.name);
    NameRoundTrip(NameField(r.name), r.name);
    assert b[32..34] == U16(r.parent % 0x1_0000);
    assert b[36..40] == U32(r.size) && b[40..44] == U32(r.lba);
    U32RoundTrip(r.size);
    U32RoundTrip(r.lba);
  }

  /** Any 44 bytes whose name field is terminated decode to a well-formed record. */
  lemma DecodeWellFormed(b: seq<Byte>)
    requires |b| == RECORD_BYTES && b[NAME_MAX] == 0
    ensures WellFormed(DecodeRecord(b))
  {
    assert b[..32][31] == 0;
  }

  // ---------- the whole table ----------

  ghost function ImageByte(t: Table, generation: nat, k: nat): Byte
    requires Encodable(t) && generation < WORD
  {
    if k < 4 then U32(MAGIC)[k]
    else if k < HEADER then U32(generation)[k - 4]
    else if k < HEADER + RECORD_BYTES * FILE_MAX then EncodeRecord(t[(k - HEADER) / RECORD_BYTES])[(k - HEADER) % RECORD_BYTES]
    else 0
  }

  /** The 4096 bytes that persist() builds. */
  ghost function Image(t: Table, generation: nat): (b: seq<Byte>)
    requires Encodable(t) && generation < WORD
    ensures |b| == META_BYTES
  {
    seq(META_BYTES, k requires 0 <= k < META_BYTES => ImageByte(t, generation, k))
  }

  function RecordBytes(image: seq<Byte>, j: nat): (b: seq<Byte>)
    requires |image| == META_BYTES && j < FILE_MAX
    ensures |b| == RECORD_BYTES
  {
    image[HEADER + RECORD_BYTES * j..HEADER + RECORD_BYTES * j + RECORD_BYTES]
  }

  /** The table that vfs_init() reads back. */
  function DecodeTable(image: seq<Byte>): Table
    requires |image| == META_BYTES
  {
    seq(FILE_MAX, j requires 0 <= j < FILE_MAX => DecodeRecord(RecordBytes(image, j)))
  }

  function ImageGeneration(image: seq<Byte>): (g: nat)
    requires |image| == META_BYTES
    ensures g < WORD
  {
    FromU32(image[4..8])
  }

  function HasMagic(image: seq<Byte>): bool
    requires |image| >= SECTOR
  {
    FromU32(image[..4]) == MAGIC
  }

  lemma ImageRecord(t: Table, generation: nat, j: nat)
    requires Encodable(t) && generation < WORD && j < FILE_MAX
    ensures RecordBytes(Image(t, generation), j) == EncodeRecord(t[j])
  {
    var b := RecordBytes(Image(t, generation), j);
    forall x | 0 <= x < RECORD_BYTES
      ensures b[x] == EncodeRecord(t[j])[x]
    {
      assert (RECORD_BYTES * j + x) / RECORD_BYTES == j && (RECORD_BYTES * j + x) % RECORD_BYTES == x;
    }
  }

  /** Where everything is in the record area: the magic number, the generation, the records, and zeros. */
  lemma ImageFields(t: Table, generation: nat, j: nat, x: nat)
    requires Encodable(t) && generation < WORD && j < FILE_MAX
    ensures var b := Image(t, generation);
            && b[..4] == [0x4D, 0x4E, 0x4F, 0x53] && Little(b, 4, generation)
            && b[8 + 44 * j..8 + 44 * j + 44] == EncodeRecord(t[j])
            && (8 + 44 * 64 <= x < 4096 ==> b[x] == 0)
  {
    var b := Image(t, generation);
    assert b[4..8] == U32(generation);
    LittleU32(b, 4, generation);
    ImageRecord(t, generation, j);
  }

  /** Mounting what was persisted restores the table and the generation. */
  lemma ImageRoundTrip(t: Table, generation: nat)
    requires Encodable(t) && generation < WORD
    ensures DecodeTable(Image(t, generation)) == t
    ensures ImageGeneration(Image(t, generation)) == generation && HasMagic(Image(t, generation))
  {
    var image := Image(t, generation);
    forall j | 0 <= j < FILE_MAX
      ensures DecodeTable(image)[j] == t[j]
    {
      ImageRecord(t, generation, j);
      RecordRoundTrip(t[j]);
    }
    assert image[4..8] == U32(generation) && image[..4] == U32(MAGIC);
    U32RoundTrip(generation);
    U32RoundTrip(MAGIC);
  }

  // ---------- sectors ----------

  type Sector = s: seq<Byte> | |s| == SECTOR witness seq(SECTOR, _ => 0)

  /** The first k sectors of a 4096-byte block, written at lba. */
  function Put(disk: seq<Sector>, lba: nat, block: seq<Byte>, k: nat): (d: seq<Sector>)
    requires |block| == META_BYTES && k <= META_SECTORS && lba + META_SECTORS <= |disk|
    ensures |d| == |disk|
    ensures forall i :: 0 <= i < |disk| && !(lba <= i < lba + k) ==> d[i] == disk[i]
    ensures forall i :: 0 <= i < k ==> d[lba + i] == block[SECTOR * i..SECTOR * i + SECTOR]
  {
    if k == 0 then disk
    else
      var d := Put(disk, lba, block, k - 1);
      d[lba + k - 1 := block[SECTOR * (k - 1)..SECTOR * (k - 1) + SECTOR]]
  }

  /** The eight sectors at lba, as one block. */
  function Get(disk: seq<Sector>, lba: nat): (b: seq<Byte>)
    requires lba + META_SECTORS <= |disk|
    ensures |b| == META_BYTES
    ensures forall x :: 0 <= x < META_BYTES ==> b[x] == disk[lba + x / SECTOR][x % SECTOR]
  {
    seq(META_BYTES, x requires 0 <= x < META_BYTES => disk[lba + x / SECTOR][x % SECTOR])
  }

  /** A write that stops after k sectors leaves the new bytes in front of the old ones. */
  lemma GetPut(disk: seq<Sector>, lba: nat, block: seq<Byte>, k: nat)
    requires |block| == META_BYTES && k <= META_SECTORS && lba + META_SECTORS <= |disk|
    ensures Get(Put(disk, lba, block, k), lba) == block[..SECTOR * k] + Get(disk, lba)[SECTOR * k..]
  {
    var d := Put(disk, lba, block, k);
    forall x | 0 <= x < META_BYTES
      ensures Get(d, lba)[x] == (block[..SECTOR * k] + Get(disk, lba)[SECTOR * k..])[x]
    {
      var i, o := x / SECTOR, x % SECTOR;
      assert x == SECTOR * i + o;
      if i < k {
        assert d[lba + i][o] == block[SECTOR * i..SECTOR * i + SECTOR][o];
      }
    }
  }

  /** Writes to one block do not reach another. */
  lemma GetPutOther(disk: seq<Sector>, lba: nat, block: seq<Byte>, k: nat, other: nat)
    requires |block| == META_BYTES && k <= META_SECTORS && lba + META_SECTORS <= |disk|
    requires other + META_SECTORS <= |disk| && (other + META_SECTORS <= lba || lba + META_SECTORS <= other)
    ensures Get(Put(disk, lba, block, k), other) == Get(disk, other)
  {
  }

  // ---------- a crash between sectors ----------

  /** The bytes of an interrupted write. */
  function Torn(new_: seq<Byte>, old_: seq<Byte>, k: nat): (b: seq<Byte>)
    requires |new_| == |old_| == META_BYTES && k <= META_SECTORS
    ensures |b| == META_BYTES
  {
    new_[..SECTOR * k] + old_[SECTOR * k..]
  }

  /** The sector boundary falls strictly inside record j. */
  predicate Straddles(j: nat, k: nat) {
    HEADER + RECORD_BYTES * j < SECTOR * k < HEADER + RECORD_BYTES * j + RECORD_BYTES
  }

  /** Only four of the records straddle a sector boundary, and none is cut behind its name field. */
  lemma StraddlersKnown(j: nat, k: nat)
    requires j < FILE_MAX && k <= META_SECTORS && Straddles(j, k)
    ensures (j, k) in {(11, 1), (23, 2), (34, 3), (46, 4)}
    ensures SECTOR * k - (HEADER + RECORD_BYTES * j) <= NAME_BYTES
  {
    assert k == 1 || k == 2 || k == 3 || k == 4 || k == 5 || k == 6 || k == 7 || k == 8;
  }

  /** Every record of a torn image is cut at one point: new bytes in front of it, old ones behind. */
  lemma TornRecord(new_: seq<Byte>, old_: seq<Byte>, k: nat, j: nat)
    requires |new_| == |old_| == META_BYTES && k <= META_SECTORS && j < FILE_MAX
    ensures var b := RecordBytes(Torn(new_, old_, k), j);
            var at := SECTOR * k - (HEADER + RECORD_BYTES * j);
            && (at <= 0 ==> b == RecordBytes(old_, j))
            && (at >= RECORD_BYTES ==> b == RecordBytes(new_, j))
            && (Straddles(j, k) ==> b == RecordBytes(new_, j)[..at] + RecordBytes(old_, j)[at..])
  {
  }

  /**
   * After any k of the eight sector writes: a record the update did not touch is unchanged,
   * and every record is wholly old or wholly new unless it straddles the boundary.
   */
  lemma CrashBetweenSectors(t: Table, t': Table, g: nat, g': nat, k: nat, j: nat)
    requires Encodable(t) && Encodable(t') && g < WORD && g' < WORD
    requires k <= META_SECTORS && j < FILE_MAX
    ensures var c := DecodeTable(Torn(Image(t', g'), Image(t, g), k));
            && (t[j] == t'[j] ==> c[j] == t[j])
            && (!Straddles(j, k) ==> c[j] == t[j] || c[j] == t'[j])
            && (SECTOR * k <= HEADER + RECORD_BYTES * j ==> c[j] == t[j])
            && (HEADER + RECORD_BYTES * (j + 1) <= SECTOR * k ==> c[j] == t'[j])
  {
    TornRecord(Image(t', g'), Image(t, g), k, j);
    ImageRecord(t, g, j);
    ImageRecord(t', g', j);
    RecordRoundTrip(t[j]);
    RecordRoundTrip(t'[j]);
    if t[j] == t'[j] && Straddles(j, k) {
      var at := SECTOR * k - (HEADER + RECORD_BYTES * j);
      assert EncodeRecord(t[j])[..at] + EncodeRecord(t[j])[at..] == EncodeRecord(t[j]);
    }
  }

  /** The same live records. */
  ghost predicate SameLive(a: Table, b: Table) {
    forall i :: 0 <= i < FILE_MAX ==> (Live(a, i) <==> Live(b, i)) && (Live(a, i) ==> a[i] == b[i])
  }

  /** The updates that an operation makes before it persists: fill a free slot, free a slot, or resize. */
  ghost predicate OneUpdate(t: Table, t': Table) {
    exists s :: 0 <= s < FILE_MAX && UpdateAt(t, t', s)
  }

  predicate UpdateAt(t: Table, t': Table, s: nat)
    requires s < FILE_MAX
  {
    && (forall j :: 0 <= j < FILE_MAX && j != s ==> t[j] == t'[j])
    && (t[s].used == 0 || t'[s] == t[s].(used := 0) || t'[s] == t[s].(size := t'[s].size))
  }

  /** The part of the record that decides whether it is live is never cut off from its size. */
  lemma TornUpdate(t: Table, t': Table, g: nat, g': nat, k: nat, s: nat)
    requires Encodable(t) && Encodable(t') && g < WORD && g' < WORD
    requires k <= META_SECTORS && s < FILE_MAX && UpdateAt(t, t', s) && Straddles(s, k)
    ensures var c := DecodeTable(Torn(Image(t', g'), Image(t, g), k))[s];
            WellFormed(c) && c.used == t[s].used && (t[s].used != 0 ==> c == t[s])
  {
    StraddlersKnown(s, k);
    TornRecord(Image(t', g'), Image(t, g), k, s);
    ImageRecord(t, g, s);
    ImageRecord(t', g', s);
    TornBytes(t[s], t'[s], SECTOR * k - (HEADER + RECORD_BYTES * s));
  }

  lemma TornBytes(r: Record, r': Record, at: nat)
    requires WellFormed(r) && WellFormed(r') && at <= NAME_BYTES
    requires r.used == 0 || r'.name == r.name
    ensures var c := DecodeRecord(EncodeRecord(r')[..at] + EncodeRecord(r)[at..]);
            WellFormed(c) && c.used == r.used && (r.used != 0 ==> c == r)
  {
    EncodedParts(r);
    EncodedParts(r');
    CutInsideName(EncodeRecord(r), EncodeRecord(r'), at);
    DecodeWellFormed(EncodeRecord(r')[..at] + EncodeRecord(r)[at..]);
    RecordRoundTrip(r);
  }

  lemma EncodedParts(r: Record)
    requires WellFormed(r)
    ensures var b := EncodeRecord(r); b[..NAME_BYTES] == NameField(r.name) && b[NAME_MAX] == 0 && b[35] == r.used
  {
  }

  /** Cutting inside the name field takes everything behind the name from the old bytes. */
  lemma CutInsideName(a: seq<Byte>, b: seq<Byte>, at: nat)
    requires |a| == |b| == RECORD_BYTES && at <= NAME_BYTES && a[NAME_MAX] == b[NAME_MAX] == 0
    ensures var c := b[..at] + a[at..];
            c[NAME_MAX] == 0 && c[35] == a[35] && (a[..NAME_BYTES] == b[..NAME_BYTES] ==> c == a)
  {
    if a[..NAME_BYTES] == b[..NAME_BYTES] {
      assert forall x :: 0 <= x < at ==> b[x] == b[..NAME_BYTES][x] && a[x] == a[..NAME_BYTES][x];
    }
  }

  /**
   * Metadata updates are atomic: wherever a crash falls between the eight sector writes, the
   * live records found by the next mount are those before the update or those after it.
   */
  lemma UpdateIsCrashAtomic(t: Table, t': Table, g: nat, g': nat, k: nat)
    requires Encodable(t) && Encodable(t') && OneUpdate(t, t') && g < WORD && g' < WORD
    requires k <= META_SECTORS
    ensures var c := DecodeTable(Torn(Image(t', g'), Image(t, g), k));
            Encodable(c) && (SameLive(c, t) || SameLive(c, t'))
  {
    var s :| 0 <= s < FILE_MAX && UpdateAt(t, t', s);
    var c := DecodeTable(Torn(Image(t', g'), Image(t, g), k));
    forall j | 0 <= j < FILE_MAX
      ensures j != s ==> c[j] == t[j] && WellFormed(c[j])
      ensures j == s && !Straddles(s, k) ==> (c[j] == t[j] || c[j] == t'[j]) && WellFormed(c[j])
    {
      CrashBetweenSectors(t, t', g, g', k, j);
    }
    if Straddles(s, k) {
      TornUpdate(t, t', g, g', k, s);
      assert SameLive(c, t);
    } else if c[s] == t[s] {
      assert SameLive(c, t);
    } else {
      assert SameLive(c, t');
    }
  }

  /** Tables with the same live records have the same tree. */
  lemma SameLiveSameTree(c: Table, t: Table)
    requires Encodable(c) && TreeInv(t) && SameLive(c, t)
    ensures TreeInv(c)
    ensures forall i :: 0 <= i < FILE_MAX && Live(t, i) ==> Live(c, i) && PathOf(c, i) == PathOf(t, i)
    ensures forall q :: Lookup(c, q) == Lookup(t, q)
  {
    NoNegativeParent(t);
    forall i | 0 <= i < FILE_MAX && Live(t, i)
      ensures Reaches(c, i, DEPTH_MAX) && PathOf(c, i) == PathOf(t, i)
      ensures i != 0 ==> GoodRecord(c, i)
    {
      LiveFacts(t, i);
      ChainFrame(t, c, -2, i, DEPTH_MAX);
    }
    forall i, j | 0 < i < j < FILE_MAX && Live(c, i) && Live(c, j)
      ensures NoClash(c, i, j)
    {
      assert Live(t, i) && Live(t, j) ==> NoClash(t, i, j);
    }
    assert TreeInv(c);
    forall q
      ensures Lookup(c, q) == Lookup(t, q)
    {
      LookupCorrect(c, q);
      LookupCorrect(t, q);
    }
  }

  /** The disk areas: records, then one extent a slot; slot 63's extent starts where the image ends. */
  lemma ExtentsDisjoint(i: nat, j: nat)
    requires i < j < FILE_MAX
    ensures SlotLba(i) + 8 <= SlotLba(j)
    ensures META_LBA + META_SECTORS <= SlotLba(i)
    ensures SlotLba(i) + 8 <= 65536 <==> i <= 62
    ensures SlotLba(63) == 65536
  {
  }
}
