/** The boot disk: a FAT16 volume with one file, as the image tool writes it and as firmware reads it. */
module Fat16 {
  import opened CStrings
  import opened Paths
  import opened Layout

  const CLUSTER := 4 * SECTOR
  const IMAGE_SECTORS := 65536
  const VFS_SECTORS := 8 + 63 * 8
  const FAT_SECTORS := IMAGE_SECTORS - VFS_SECTORS
  const RESERVED_SECTORS := 4
  const SECTORS_PER_FAT := 64
  const FAT_BYTES := SECTORS_PER_FAT * SECTOR
  const ROOT_ENTRIES := 512
  const ROOT_BYTES := ROOT_ENTRIES * 32
  const DATA_START := RESERVED_SECTORS * SECTOR + 2 * FAT_BYTES + ROOT_BYTES
  const FIRST_FILE_CLUSTER := 4
  /** The clusters of the volume that are left for the file. */
  const MAX_CLUSTERS := 16213
  /** The entries of the allocation table that are left for the file. */
  const TABLE_CLUSTERS := 16380

  // ---------- bytes ----------

  function Zeros(n: nat): (b: seq<Byte>)
    ensures |b| == n && forall i :: 0 <= i < n ==> b[i] == 0
  {
    seq(n, _ => 0)
  }

  /** b with the given bytes written at a position. */
  function Patch(b: seq<Byte>, at: nat, bytes: seq<Byte>): (r: seq<Byte>)
    requires at + |bytes| <= |b|
    ensures |r| == |b|
    ensures forall i :: 0 <= i < |b| ==> r[i] == if at <= i < at + |bytes| then bytes[i - at] else b[i]
  {
    b[..at] + bytes + b[at + |bytes|..]
  }

  function Ascii(s: string): (b: seq<Byte>)
    requires IsCString(s)
    ensures |b| == |s|
  {
    seq(|s|, i requires 0 <= i < |s| => s[i] as int)
  }

  /** A text cut or filled with spaces to n bytes. */
  function Padded(s: string, n: nat): (b: seq<Byte>)
    requires IsCString(s)
    ensures |b| == n
    ensures forall i :: 0 <= i < n ==> b[i] == if i < |s| then s[i] as int else 32
  {
    seq(n, i requires 0 <= i < n => if i < |s| then s[i] as int else 32)
  }

  function Clusters(size: nat): nat { (size + CLUSTER - 1) / CLUSTER }

  // ---------- what the tool writes ----------

  /** make_dir_entry() */
  function DirEntry(name: string, ext: string, attr: Byte, cluster: nat, size: nat): (e: seq<Byte>)
    requires IsCString(name) && IsCString(ext) && cluster < 0x1_0000 && size < WORD
    ensures |e| == 32
  {
    Padded(name, 8) + Padded(ext, 3) + [attr] + Zeros(10) + U16(0x5800) + U16(0x5D33) + U16(cluster) + U32(size)
  }

  /** Bytes 0 to 18: jump, maker's name, sector and cluster size, reserved sectors, tables, root entries. */
  function Geometry(): (b: seq<Byte>)
    ensures |b| == 19
  {
    [0xEB, 0x3C, 0x90] + Ascii("MINOS1.0") + U16(SECTOR) + [4] + U16(RESERVED_SECTORS) + [2] + U16(ROOT_ENTRIES)
  }

  /** Bytes 19 to 35: no 16-bit size, medium, table size, disk geometry, hidden sectors, size in sectors. */
  function Sizes(): (b: seq<Byte>)
    ensures |b| == 17
  {
    U16(0) + [0xF8] + U16(SECTORS_PER_FAT) + U16(63) + U16(255) + U32(0) + U32(FAT_SECTORS)
  }

  /** Bytes 36 to 61: drive, boot signature, volume number, volume name, file system name. */
  function Labels(): (b: seq<Byte>)
    ensures |b| == 26
  {
    [0x80] + [0] + [0x29] + U32(0x19940520) + Ascii("MINOS BOOT ") + Ascii("FAT16   ")
  }

  /** The boot sector, field by field, with the signature in its last two bytes. */
  function BootSector(): (b: seq<Byte>)
    ensures |b| == SECTOR
  {
    Geometry() + Sizes() + Labels() + Zeros(448) + [0x55, 0xAA]
  }

  /** The allocation table entry of cluster c once the first `done` of n file clusters are linked. */
  function TableEntry(n: nat, done: nat, c: nat): (e: nat)
    requires done <= n <= TABLE_CLUSTERS
    ensures e < 0x1_0000
  {
    if c == 0 then 0xFFF8
    else if c < FIRST_FILE_CLUSTER then 0xFFFF
    else if c < FIRST_FILE_CLUSTER + done then (if c == FIRST_FILE_CLUSTER + n - 1 then 0xFFFF else c + 1)
    else 0
  }

  function Table(n: nat, done: nat): (b: seq<Byte>)
    requires done <= n <= TABLE_CLUSTERS
    ensures |b| == FAT_BYTES
  {
    seq(FAT_BYTES, k requires 0 <= k < FAT_BYTES => U16(TableEntry(n, done, k / 2))[k % 2])
  }

  function RootDirectory(): (b: seq<Byte>)
    ensures |b| == ROOT_BYTES
  {
    DirEntry("MINOS BOOT", "", 0x08, 0, 0) + DirEntry("EFI", "", 0x10, 2, 0) + Zeros(ROOT_BYTES - 64)
  }

  function EfiDirectory(): (b: seq<Byte>)
    ensures |b| == CLUSTER
  {
    DirEntry(".", "", 0x10, 2, 0) + DirEntry("..", "", 0x10, 0, 0) + DirEntry("BOOT", "", 0x10, 3, 0) + Zeros(CLUSTER - 96)
  }

  function BootDirectory(size: nat): (b: seq<Byte>)
    requires size < WORD
    ensures |b| == CLUSTER
  {
    DirEntry(".", "", 0x10, 3, 0) + DirEntry("..", "", 0x10, 2, 0)
    + DirEntry("BOOTX64", "EFI", 0x20, FIRST_FILE_CLUSTER, size) + Zeros(CLUSTER - 96)
  }

  /** The file's bytes, filled up to whole clusters. */
  function FileArea(data: seq<Byte>): (b: seq<Byte>)
    ensures |b| == Clusters(|data|) * CLUSTER
  {
    data + Zeros(Clusters(|data|) * CLUSTER - |data|)
  }

  function Front(n: nat, size: nat): (b: seq<Byte>)
    requires n <= TABLE_CLUSTERS && size < WORD
    ensures |b| == DATA_START + 2 * CLUSTER
  {
    BootSector() + Zeros((RESERVED_SECTORS - 1) * SECTOR) + Table(n, n) + Table(n, n) + RootDirectory() + EfiDirectory() + BootDirectory(size)
  }

  /** create_fat16_image(): the bytes of the image; None when the table has no entry for a cluster. */
  function Image(data: seq<Byte>): Option<seq<Byte>> {
    var n := Clusters(|data|);
    if n > TABLE_CLUSTERS then None
    else
      var written := Front(n, |data|) + FileArea(data);
      Some(written + Zeros(if |written| < IMAGE_SECTORS * SECTOR then IMAGE_SECTORS * SECTOR - |written| else 0))
  }

  // ---------- what firmware reads ----------

  function Word(img: seq<Byte>, at: nat): nat {
    if at + 2 <= |img| then FromU16(img[at..at + 2]) else 0
  }

  function Long(img: seq<Byte>, at: nat): nat {
    if at + 4 <= |img| then FromU32(img[at..at + 4]) else 0
  }

  /** The fields of the parameter block that locate everything else. */
  datatype Volume = Volume(bytesPerSector: nat, sectorsPerCluster: nat, reserved: nat, tables: nat, rootEntries: nat,
                           sectorsPerTable: nat, sectors: nat)
  {
    function RootStart(): nat { (reserved + tables * sectorsPerTable) * bytesPerSector }

    function RootBytes(): nat { rootEntries * 32 }

    function DataSector(): nat {
      reserved + tables * sectorsPerTable + (if bytesPerSector > 0 then (RootBytes() + bytesPerSector - 1) / bytesPerSector else 0)
    }

    function ClusterCount(): nat {
      if sectorsPerCluster > 0 && sectors >= DataSector() then (sectors - DataSector()) / sectorsPerCluster else 0
    }

    predicate HasCluster(c: nat) { 2 <= c < ClusterCount() + 2 }

    function ClusterBytes(): nat { sectorsPerCluster * bytesPerSector }

    function ClusterStart(c: nat): nat
      requires c >= 2
    {
      (DataSector() + (c - 2) * sectorsPerCluster) * bytesPerSector
    }
  }

  function ParameterBlock(img: seq<Byte>): Volume
    requires |img| >= SECTOR
  {
    var small := Word(img, 19);
    Volume(Word(img, 11), img[13], Word(img, 14), img[16], Word(img, 17), Word(img, 22), if small != 0 then small else Long(img, 32))
  }

  function Slice(img: seq<Byte>, at: nat, n: nat): Option<seq<Byte>> {
    if at + n <= |img| then Some(img[at..at + n]) else None
  }

  /** The cluster chain from c to its end mark, through clusters of the volume only. */
  function Chain(img: seq<Byte>, v: Volume, c: nat, fuel: nat): Option<seq<nat>>
    decreases fuel, |img|
  {
    if !v.HasCluster(c) then None
    else
      var next := Word(img, v.reserved * v.bytesPerSector + 2 * c);
      if next >= 0xFFF8 then Some([c])
      else if fuel == 0 then None
      else
        match Chain(img, v, next, fuel - 1)
        case None => None
        case Some(rest) => Some([c] + rest)
  }

  /** The bytes of the clusters of a chain, one after the other. */
  function ChainBytes(img: seq<Byte>, v: Volume, chain: seq<nat>): Option<seq<Byte>>
    requires forall i :: 0 <= i < |chain| ==> chain[i] >= 2
  {
    if chain == [] then Some([])
    else
      match (ChainBytes(img, v, chain[..|chain| - 1]), Slice(img, v.ClusterStart(chain[|chain| - 1]), v.ClusterBytes()))
      case (Some(a), Some(b)) => Some(a + b)
      case _ => None
  }

  /** Bit 3 marks the volume's label, bit 4 a directory. */
  predicate IsLabel(attr: Byte) { attr / 8 % 2 == 1 }

  predicate IsFolder(attr: Byte) { attr / 16 % 2 == 1 }

  /** The entry with an eleven-byte name, up to the end mark. */
  function FindEntry(dir: seq<Byte>, name: seq<Byte>, i: nat): (e: Option<seq<Byte>>)
    ensures e.Some? ==> |e.value| == 32
    decreases |dir| - 32 * i
  {
    if 32 * (i + 1) > |dir| then None
    else
      var e := dir[32 * i..32 * (i + 1)];
      if e[0] == 0 then None
      else if e[..11] == name && !IsLabel(e[11]) then Some(e)
      else FindEntry(dir, name, i + 1)
  }

  function EntryCluster(e: seq<Byte>): nat { Word(e, 26) }

  function EntrySize(e: seq<Byte>): nat { Long(e, 28) }

  lemma {:induction false} ChainInVolume(img: seq<Byte>, v: Volume, c: nat, fuel: nat)
    ensures Chain(img, v, c, fuel).Some? ==> forall i :: 0 <= i < |Chain(img, v, c, fuel).value| ==> v.HasCluster(Chain(img, v, c, fuel).value[i])
    decreases fuel
  {
    if v.HasCluster(c) && fuel > 0 {
      ChainInVolume(img, v, Word(img, v.reserved * v.bytesPerSector + 2 * c), fuel - 1);
    }
  }

  /** Everything the chain from a cluster holds. */
  function Contents(img: seq<Byte>, v: Volume, c: nat): Option<seq<Byte>> {
    ChainInVolume(img, v, c, v.ClusterCount());
    match Chain(img, v, c, v.ClusterCount())
    case None => None
    case Some(chain) => ChainBytes(img, v, chain)
  }

  /** The directory that an entry of another directory leads to. */
  function Enter(img: seq<Byte>, v: Volume, dir: Option<seq<Byte>>, name: seq<Byte>): Option<seq<Byte>> {
    match dir
    case None => None
    case Some(bytes) =>
      match FindEntry(bytes, name, 0)
      case None => None
      case Some(e) => if IsFolder(e[11]) then Contents(img, v, EntryCluster(e)) else None
  }

  /** The bytes of BOOTX64.EFI in a directory. */
  function OpenFile(img: seq<Byte>, v: Volume, dir: Option<seq<Byte>>): Option<seq<Byte>> {
    match dir
    case None => None
    case Some(bytes) =>
      match FindEntry(bytes, Padded("BOOTX64", 8) + Padded("EFI", 3), 0)
      case None => None
      case Some(file) => if IsFolder(file[11]) then None else FileBytes(img, v, EntryCluster(file), EntrySize(file))
  }

  /** Follows root, EFI and BOOT to the file. */
  function ReadFrom(img: seq<Byte>, v: Volume): Option<seq<Byte>> {
    var efi := Enter(img, v, Slice(img, v.RootStart(), v.RootBytes()), Padded("EFI", 11));
    OpenFile(img, v, Enter(img, v, efi, Padded("BOOT", 11)))
  }

  function ReadBootFile(img: seq<Byte>): Option<seq<Byte>>
    requires |img| >= SECTOR
  {
    ReadFrom(img, ParameterBlock(img))
  }

  /** A file of size zero has no chain. */
  function FileBytes(img: seq<Byte>, v: Volume, c: nat, size: nat): Option<seq<Byte>> {
    if size == 0 then Some([])
    else
      match Contents(img, v, c)
      case None => None
      case Some(bytes) => if size <= |bytes| then Some(bytes[..size]) else None
  }

  // ---------- the reader finds what the tool wrote ----------

  const BOOT_VOLUME := Volume(SECTOR, 4, RESERVED_SECTORS, 2, ROOT_ENTRIES, SECTORS_PER_FAT, FAT_SECTORS)

  lemma BootVolumeLayout(c: nat)
    requires c >= 2
    ensures BOOT_VOLUME.RootStart() == RESERVED_SECTORS * SECTOR + 2 * FAT_BYTES && BOOT_VOLUME.RootBytes() == ROOT_BYTES
    ensures BOOT_VOLUME.ClusterCount() == MAX_CLUSTERS + 2 && BOOT_VOLUME.ClusterBytes() == CLUSTER
    ensures BOOT_VOLUME.ClusterStart(c) == DATA_START + (c - 2) * CLUSTER
  {
  }

  lemma GeometryFields()
    ensures var b := Geometry();
            && b[11..13] == U16(SECTOR) && b[13] == 4 && b[14..16] == U16(RESERVED_SECTORS) && b[16] == 2
            && b[17..19] == U16(ROOT_ENTRIES) && b[0..3] == [0xEB, 0x3C, 0x90] && b[3..11] == Ascii("MINOS1.0")
  {
  }

  lemma SizesFields()
    ensures var b := Sizes();
            && b[0..2] == U16(0) && b[2] == 0xF8 && b[3..5] == U16(SECTORS_PER_FAT) && b[5..7] == U16(63) && b[7..9] == U16(255)
            && b[9..13] == U32(0) && b[13..17] == U32(FAT_SECTORS)
  {
  }

  lemma BootSectorParts()
    ensures BootSector()[0..19] == Geometry() && BootSector()[19..36] == Sizes()
  {
  }

  lemma U16RoundTrip(n: nat)
    requires n < 0x1_0000
    ensures FromU16(U16(n)) == n
  {
  }

  lemma SubSlice(s: seq<Byte>, at: nat, end: nat, i: nat, j: nat)
    requires at <= end <= |s| && i <= j <= end - at
    ensures s[at..end][i..j] == s[at + i..at + j]
  {
    var a, b := s[at..end][i..j], s[at + i..at + j];
    forall x | 0 <= x < j - i
      ensures a[x] == b[x]
    {
    }
  }

  /** A sector that starts with the two parts of the parameter block has the boot volume's geometry. */
  lemma ParameterBlockParts(img: seq<Byte>)
    requires |img| >= SECTOR && img[0..19] == Geometry() && img[19..36] == Sizes()
    ensures ParameterBlock(img) == BOOT_VOLUME
  {
    GeometryFields();
    SizesFields();
    SubSlice(img, 0, 19, 11, 13);
    SubSlice(img, 0, 19, 14, 16);
    SubSlice(img, 0, 19, 17, 19);
    SubSlice(img, 19, 36, 0, 2);
    SubSlice(img, 19, 36, 3, 5);
    SubSlice(img, 19, 36, 13, 17);
    assert img[0..19][13] == img[13] && img[0..19][16] == img[16];
    U16RoundTrip(SECTOR);
    U16RoundTrip(RESERVED_SECTORS);
    U16RoundTrip(ROOT_ENTRIES);
    U16RoundTrip(0);
    U16RoundTrip(SECTORS_PER_FAT);
    U32RoundTrip(FAT_SECTORS);
  }

  lemma ParameterBlockRead(img: seq<Byte>)
    requires |img| >= SECTOR && img[..SECTOR] == BootSector()
    ensures ParameterBlock(img) == BOOT_VOLUME
  {
    BootSectorParts();
    SubSlice(img, 0, SECTOR, 0, 19);
    SubSlice(img, 0, SECTOR, 19, 36);
    assert img[0..SECTOR] == img[..SECTOR];
    ParameterBlockParts(img);
  }

  /** The parts of the image, by position. */
  ghost predicate Laid(img: seq<Byte>, data: seq<Byte>) {
    var n := Clusters(|data|);
    && n <= TABLE_CLUSTERS && |data| < WORD && |img| >= DATA_START + (n + 2) * CLUSTER
    && img[..SECTOR] == BootSector()
    && img[RESERVED_SECTORS * SECTOR..RESERVED_SECTORS * SECTOR + FAT_BYTES] == Table(n, n)
    && img[RESERVED_SECTORS * SECTOR + FAT_BYTES..RESERVED_SECTORS * SECTOR + 2 * FAT_BYTES] == Table(n, n)
    && img[RESERVED_SECTORS * SECTOR + 2 * FAT_BYTES..DATA_START] == RootDirectory()
    && img[DATA_START..DATA_START + CLUSTER] == EfiDirectory()
    && img[DATA_START + CLUSTER..DATA_START + 2 * CLUSTER] == BootDirectory(|data|)
    && img[DATA_START + 2 * CLUSTER..DATA_START + 2 * CLUSTER + n * CLUSTER] == FileArea(data)
  }

  lemma ClusterBounds(size: nat)
    ensures (Clusters(size) - 1) * CLUSTER < size || size == 0
    ensures size <= Clusters(size) * CLUSTER
    ensures Clusters(size) <= TABLE_CLUSTERS ==> size < WORD
    ensures Clusters(size) == 0 <==> size == 0
  {
  }

  lemma SlicePart(front: seq<Byte>, part: seq<Byte>, rest: seq<Byte>)
    ensures (front + part + rest)[|front|..|front| + |part|] == part
  {
  }

  lemma FrontLaid(n: nat, size: nat, rest: seq<Byte>)
    requires n <= TABLE_CLUSTERS && size < WORD
    ensures var img := Front(n, size) + rest;
            && img[..SECTOR] == BootSector()
            && img[RESERVED_SECTORS * SECTOR..RESERVED_SECTORS * SECTOR + FAT_BYTES] == Table(n, n)
            && img[RESERVED_SECTORS * SECTOR + FAT_BYTES..RESERVED_SECTORS * SECTOR + 2 * FAT_BYTES] == Table(n, n)
            && img[RESERVED_SECTORS * SECTOR + 2 * FAT_BYTES..DATA_START] == RootDirectory()
            && img[DATA_START..DATA_START + CLUSTER] == EfiDirectory()
            && img[DATA_START + CLUSTER..DATA_START + 2 * CLUSTER] == BootDirectory(size)
  {
  }

  lemma ImageLaid(data: seq<Byte>)
    requires Clusters(|data|) <= TABLE_CLUSTERS
    ensures Laid(Image(data).value, data)
  {
    ClusterBounds(|data|);
    var n := Clusters(|data|);
    var front, area, img := Front(n, |data|), FileArea(data), Image(data).value;
    var tail := img[|front| + |area|..];
    assert img == front + area + tail;
    SlicePart(front, area, tail);
    assert img == front + (area + tail);
    FrontLaid(n, |data|, area + tail);
  }

  // ---------- directories ----------

  function Time(hour: nat, minute: nat, second: nat): nat { hour * 2048 + minute * 32 + second / 2 }

  function Date(year: nat, month: nat, day: nat): nat
    requires year >= 1980
  {
    (year - 1980) * 512 + month * 32 + day
  }

  lemma DirEntryFields(name: string, ext: string, attr: Byte, cluster: nat, size: nat)
    requires IsCString(name) && IsCString(ext) && cluster < 0x1_0000 && size < WORD
    ensures var e := DirEntry(name, ext, attr, cluster, size);
            && e[..11] == Padded(name, 8) + Padded(ext, 3) && e[11] == attr
            && EntryCluster(e) == cluster && EntrySize(e) == size
            && Word(e, 22) == Time(11, 0, 0) && Word(e, 24) == Date(2026, 9, 19)
  {
    var e := DirEntry(name, ext, attr, cluster, size);
    assert e[26..28] == U16(cluster) && e[28..32] == U32(size) && e[22..24] == U16(0x5800) && e[24..26] == U16(0x5D33);
    U16RoundTrip(0x5800);
    U16RoundTrip(0x5D33);
    U16RoundTrip(cluster);
    U32RoundTrip(size);
  }

  lemma FindInRoot()
    ensures FindEntry(RootDirectory(), Padded("EFI", 11), 0) == Some(DirEntry("EFI", "", 0x10, 2, 0))
  {
    var dir, volumeLabel, e := RootDirectory(), DirEntry("MINOS BOOT", "", 0x08, 0, 0), DirEntry("EFI", "", 0x10, 2, 0);
    DirEntryFields("MINOS BOOT", "", 0x08, 0, 0);
    DirEntryFields("EFI", "", 0x10, 2, 0);
    assert dir[0..32] == volumeLabel && dir[32..64] == e;
    assert volumeLabel[..11][0] == 'M' as int && e[..11][0] == 'E' as int;
    assert Padded("EFI", 8) + Padded("", 3) == Padded("EFI", 11);
    assert FindEntry(dir, Padded("EFI", 11), 1) == Some(e);
  }

  /** The third entry of a directory that starts with the two dot entries. */
  lemma FindThird(dir: seq<Byte>, self: nat, up: nat, e: seq<Byte>, name: seq<Byte>)
    requires self < 0x1_0000 && up < 0x1_0000 && |dir| == CLUSTER && |e| == 32 && |name| == 11
    requires dir[0..32] == DirEntry(".", "", 0x10, self, 0) && dir[32..64] == DirEntry("..", "", 0x10, up, 0) && dir[64..96] == e
    requires e[..11] == name && name[0] == 'B' as int && !IsLabel(e[11])
    ensures FindEntry(dir, name, 0) == Some(e)
  {
    DirEntryFields(".", "", 0x10, self, 0);
    DirEntryFields("..", "", 0x10, up, 0);
    assert dir[0..32][..11][0] == '.' as int && dir[32..64][..11][0] == '.' as int && e[..11][0] == 'B' as int;
    assert FindEntry(dir, name, 2) == Some(e);
    assert FindEntry(dir, name, 1) == Some(e);
  }

  lemma FindInEfi()
    ensures FindEntry(EfiDirectory(), Padded("BOOT", 11), 0) == Some(DirEntry("BOOT", "", 0x10, 3, 0))
  {
    var dir, e := EfiDirectory(), DirEntry("BOOT", "", 0x10, 3, 0);
    DirEntryFields("BOOT", "", 0x10, 3, 0);
    assert dir[0..32] == DirEntry(".", "", 0x10, 2, 0) && dir[32..64] == DirEntry("..", "", 0x10, 0, 0) && dir[64..96] == e;
    assert Padded("BOOT", 8) + Padded("", 3) == Padded("BOOT", 11);
    FindThird(dir, 2, 0, e, Padded("BOOT", 11));
  }

  lemma FindInBoot(size: nat)
    requires size < WORD
    ensures FindEntry(BootDirectory(size), Padded("BOOTX64", 8) + Padded("EFI", 3), 0) ==
            Some(DirEntry("BOOTX64", "EFI", 0x20, FIRST_FILE_CLUSTER, size))
  {
    var dir, e := BootDirectory(size), DirEntry("BOOTX64", "EFI", 0x20, FIRST_FILE_CLUSTER, size);
    DirEntryFields("BOOTX64", "EFI", 0x20, FIRST_FILE_CLUSTER, size);
    assert dir[0..32] == DirEntry(".", "", 0x10, 3, 0) && dir[32..64] == DirEntry("..", "", 0x10, 2, 0) && dir[64..96] == e;
    FindThird(dir, 3, 2, e, Padded("BOOTX64", 8) + Padded("EFI", 3));
  }

  // ---------- chains ----------

  /** The table in the image, entry by entry. */
  lemma TableRead(img: seq<Byte>, data: seq<Byte>, c: nat)
    requires Laid(img, data) && 2 * c + 2 <= FAT_BYTES
    ensures Word(img, RESERVED_SECTORS * SECTOR + 2 * c) == TableEntry(Clusters(|data|), Clusters(|data|), c)
  {
    var n, at := Clusters(|data|), RESERVED_SECTORS * SECTOR;
    SubSlice(img, at, at + FAT_BYTES, 2 * c, 2 * c + 2);
    TableSlice(n, c);
    U16RoundTrip(TableEntry(n, n, c));
  }

  lemma TableSlice(n: nat, c: nat)
    requires n <= TABLE_CLUSTERS && 2 * c + 2 <= FAT_BYTES
    ensures Table(n, n)[2 * c..2 * c + 2] == U16(TableEntry(n, n, c))
  {
  }

  function Numbers(from: nat, n: nat): (s: seq<nat>)
    ensures |s| == n && forall i :: 0 <= i < n ==> s[i] == from + i
  {
    seq(n, i requires 0 <= i => from + i)
  }

  /** One link of a chain. */
  lemma ChainLink(img: seq<Byte>, c: nat, fuel: nat)
    ensures Chain(img, BOOT_VOLUME, c, fuel) ==
            if !(2 <= c < MAX_CLUSTERS + 4) then None
            else
              var next := Word(img, RESERVED_SECTORS * SECTOR + 2 * c);
              if next >= 0xFFF8 then Some([c])
              else if fuel == 0 then None
              else match Chain(img, BOOT_VOLUME, next, fuel - 1) case None => None case Some(rest) => Some([c] + rest)
  {
  }

  /** The file's chain runs through consecutive clusters to its end mark, if they all belong to the volume. */
  lemma {:induction false} FileChain(img: seq<Byte>, n: nat, i: nat, fuel: nat)
    requires i < n <= TABLE_CLUSTERS && fuel >= MAX_CLUSTERS - i
    requires forall c :: FIRST_FILE_CLUSTER <= c < FIRST_FILE_CLUSTER + n ==>
               Word(img, RESERVED_SECTORS * SECTOR + 2 * c) == TableEntry(n, n, c)
    ensures Chain(img, BOOT_VOLUME, FIRST_FILE_CLUSTER + i, fuel) ==
            if n <= MAX_CLUSTERS then Some(Numbers(FIRST_FILE_CLUSTER + i, n - i)) else None
    decreases n - i
  {
    var c := FIRST_FILE_CLUSTER + i;
    ChainLink(img, c, fuel);
    assert Word(img, RESERVED_SECTORS * SECTOR + 2 * c) == TableEntry(n, n, c);
    if i + 1 == n {
      assert Numbers(c, 1) == [c];
    } else if fuel > 0 {
      FileChain(img, n, i + 1, fuel - 1);
      assert Numbers(c, n - i) == [c] + Numbers(c + 1, n - i - 1);
    }
  }

  lemma DirectoryChain(img: seq<Byte>, data: seq<Byte>, c: nat, fuel: nat)
    requires Laid(img, data) && 2 <= c <= 3
    ensures Chain(img, BOOT_VOLUME, c, fuel) == Some([c])
  {
    ChainLink(img, c, fuel);
    TableRead(img, data, c);
  }

  lemma DirectoryContents(img: seq<Byte>, data: seq<Byte>)
    requires Laid(img, data)
    ensures Contents(img, BOOT_VOLUME, 2) == Some(EfiDirectory())
    ensures Contents(img, BOOT_VOLUME, 3) == Some(BootDirectory(|data|))
  {
    DirectoryChain(img, data, 2, BOOT_VOLUME.ClusterCount());
    DirectoryChain(img, data, 3, BOOT_VOLUME.ClusterCount());
    BootVolumeLayout(2);
    BootVolumeLayout(3);
    OneCluster(img, 2);
    OneCluster(img, 3);
  }

  lemma OneCluster(img: seq<Byte>, c: nat)
    requires c >= 2 && BOOT_VOLUME.ClusterStart(c) + BOOT_VOLUME.ClusterBytes() <= |img|
    ensures ChainBytes(img, BOOT_VOLUME, [c]) ==
            Some(img[BOOT_VOLUME.ClusterStart(c)..BOOT_VOLUME.ClusterStart(c) + BOOT_VOLUME.ClusterBytes()])
  {
    assert [c][..0] == [];
    var part := img[BOOT_VOLUME.ClusterStart(c)..BOOT_VOLUME.ClusterStart(c) + BOOT_VOLUME.ClusterBytes()];
    assert [] + part == part;
  }

  lemma ChainBytesStep(img: seq<Byte>, v: Volume, chain: seq<nat>, c: nat, a: seq<Byte>, at: nat, end: nat)
    requires (forall i :: 0 <= i < |chain| ==> chain[i] >= 2) && c >= 2 && ChainBytes(img, v, chain) == Some(a)
    requires at == v.ClusterStart(c) && end == at + v.ClusterBytes() <= |img|
    ensures ChainBytes(img, v, chain + [c]) == Some(a + img[at..end])
  {
    assert (chain + [c])[..|chain|] == chain;
  }

  const FILE_START := DATA_START + 2 * CLUSTER

  lemma JoinSlices(img: seq<Byte>, a: nat, b: nat, c: nat)
    requires a <= b <= c <= |img|
    ensures img[a..b] + img[b..c] == img[a..c]
  {
  }

  /** The clusters of the file follow each other in the image. */
  lemma {:induction false} FileClusters(img: seq<Byte>, k: nat, end: nat)
    requires end == FILE_START + k * CLUSTER <= |img|
    ensures ChainBytes(img, BOOT_VOLUME, Numbers(FIRST_FILE_CLUSTER, k)) == Some(img[FILE_START..end])
  {
    if k > 0 {
      var before, front := end - CLUSTER, Numbers(FIRST_FILE_CLUSTER, k - 1);
      FileClusters(img, k - 1, before);
      assert Numbers(FIRST_FILE_CLUSTER, k) == front + [k + 3];
      BootVolumeLayout(k + 3);
      ChainBytesStep(img, BOOT_VOLUME, front, k + 3, img[FILE_START..before], before, end);
      JoinSlices(img, FILE_START, before, end);
    } else {
      assert Numbers(FIRST_FILE_CLUSTER, 0) == [] && img[FILE_START..end] == [];
      assert ChainBytes(img, BOOT_VOLUME, []) == Some([]);
    }
  }

  /** The table links the file's clusters. */
  lemma FileLinks(img: seq<Byte>, data: seq<Byte>, n: nat)
    requires Laid(img, data) && n == Clusters(|data|)
    ensures forall c :: FIRST_FILE_CLUSTER <= c < FIRST_FILE_CLUSTER + n ==>
              Word(img, RESERVED_SECTORS * SECTOR + 2 * c) == TableEntry(n, n, c)
  {
    forall c | FIRST_FILE_CLUSTER <= c < FIRST_FILE_CLUSTER + n
      ensures Word(img, RESERVED_SECTORS * SECTOR + 2 * c) == TableEntry(n, n, c)
    {
      TableRead(img, data, c);
    }
  }

  lemma FileContents(img: seq<Byte>, data: seq<Byte>)
    requires Laid(img, data) && data != []
    ensures Contents(img, BOOT_VOLUME, FIRST_FILE_CLUSTER) == if Clusters(|data|) <= MAX_CLUSTERS then Some(FileArea(data)) else None
  {
    var n := Clusters(|data|);
    ClusterBounds(|data|);
    FileLinks(img, data, n);
    VolumeFuel();
    FileChain(img, n, 0, MAX_CLUSTERS + 2);
    FileClusters(img, n, FILE_START + n * CLUSTER);
  }

  lemma VolumeFuel()
    ensures BOOT_VOLUME.ClusterCount() == MAX_CLUSTERS + 2
  {
  }

  /** Any disk that still has the parts of the image in place reads back the file, or a broken chain. */
  lemma LaidReads(img: seq<Byte>, data: seq<Byte>)
    requires Laid(img, data)
    ensures |img| >= SECTOR && ReadBootFile(img) == if Clusters(|data|) <= MAX_CLUSTERS then Some(data) else None
  {
    ClusterBounds(|data|);
    ParameterBlockRead(img);
    WalkToFile(img, data);
    if data != [] {
      FileContents(img, data);
      assert FileArea(data)[..|data|] == data;
    }
  }

  /**
   * Firmware reads back exactly the bytes that went into the image when they fit the 16213 file
   * clusters of the volume, and finds a broken chain when they do not.
   */
  lemma ImageRoundTrip(data: seq<Byte>)
    requires Clusters(|data|) <= TABLE_CLUSTERS
    ensures Image(data).Some? && |Image(data).value| >= SECTOR
    ensures ReadBootFile(Image(data).value) == if Clusters(|data|) <= MAX_CLUSTERS then Some(data) else None
  {
    ImageLaid(data);
    LaidReads(Image(data).value, data);
  }

  /** Root, EFI and BOOT lead to the file's entry. */
  lemma WalkToFile(img: seq<Byte>, data: seq<Byte>)
    requires Laid(img, data)
    ensures ReadFrom(img, BOOT_VOLUME) == FileBytes(img, BOOT_VOLUME, FIRST_FILE_CLUSTER, |data|)
  {
    RootLaid(img, data);
    EnterDirectories(img, data);
    OpenFileRead(img, |data|);
  }

  lemma RootLaid(img: seq<Byte>, data: seq<Byte>)
    requires Laid(img, data)
    ensures Slice(img, BOOT_VOLUME.RootStart(), BOOT_VOLUME.RootBytes()) == Some(RootDirectory())
  {
  }

  lemma OpenFileRead(img: seq<Byte>, size: nat)
    requires size < WORD
    ensures OpenFile(img, BOOT_VOLUME, Some(BootDirectory(size))) == FileBytes(img, BOOT_VOLUME, FIRST_FILE_CLUSTER, size)
  {
    FindInBoot(size);
    DirEntryFields("BOOTX64", "EFI", 0x20, FIRST_FILE_CLUSTER, size);
  }

  lemma EnterDirectories(img: seq<Byte>, data: seq<Byte>)
    requires Laid(img, data)
    ensures Enter(img, BOOT_VOLUME, Some(RootDirectory()), Padded("EFI", 11)) == Some(EfiDirectory())
    ensures Enter(img, BOOT_VOLUME, Some(EfiDirectory()), Padded("BOOT", 11)) == Some(BootDirectory(|data|))
  {
    FindInRoot();
    FindInEfi();
    DirEntryFields("EFI", "", 0x10, 2, 0);
    DirEntryFields("BOOT", "", 0x10, 3, 0);
    DirectoryContents(img, data);
    EnterOne(img, RootDirectory(), Padded("EFI", 11), DirEntry("EFI", "", 0x10, 2, 0), 2);
    EnterOne(img, EfiDirectory(), Padded("BOOT", 11), DirEntry("BOOT", "", 0x10, 3, 0), 3);
  }

  lemma EnterOne(img: seq<Byte>, dir: seq<Byte>, name: seq<Byte>, e: seq<Byte>, c: nat)
    requires FindEntry(dir, name, 0) == Some(e) && |e| == 32 && e[11] == 0x10 && EntryCluster(e) == c
    ensures Enter(img, BOOT_VOLUME, Some(dir), name) == Contents(img, BOOT_VOLUME, c)
  {
  }

  // ---------- what other tools expect of a volume ----------

  /** The entry of cluster c in the table with the given number. */
  function TableWord(img: seq<Byte>, v: Volume, table: nat, c: nat): nat {
    Word(img, (v.reserved + table * v.sectorsPerTable) * v.bytesPerSector + 2 * c)
  }

  /** Every table that the parameter block announces says the same of every cluster. */
  ghost predicate TablesAgree(img: seq<Byte>, v: Volume) {
    forall table, c :: 0 <= table < v.tables && 0 <= 2 * c && 2 * c + 2 <= v.sectorsPerTable * v.bytesPerSector ==>
      TableWord(img, v, table, c) == TableWord(img, v, 0, c)
  }

  lemma SecondTableRead(img: seq<Byte>, data: seq<Byte>, c: nat)
    requires Laid(img, data) && 2 * c + 2 <= FAT_BYTES
    ensures Word(img, RESERVED_SECTORS * SECTOR + FAT_BYTES + 2 * c) == TableEntry(Clusters(|data|), Clusters(|data|), c)
  {
    var n, at := Clusters(|data|), RESERVED_SECTORS * SECTOR + FAT_BYTES;
    SubSlice(img, at, at + FAT_BYTES, 2 * c, 2 * c + 2);
    TableSlice(n, c);
    U16RoundTrip(TableEntry(n, n, c));
  }

  lemma LaidTablesAgree(img: seq<Byte>, data: seq<Byte>)
    requires Laid(img, data)
    ensures TablesAgree(img, BOOT_VOLUME)
  {
    forall table, c | 0 <= table < BOOT_VOLUME.tables && 0 <= 2 * c && 2 * c + 2 <= FAT_BYTES
      ensures TableWord(img, BOOT_VOLUME, table, c) == TableWord(img, BOOT_VOLUME, 0, c)
    {
      TableRead(img, data, c);
      SecondTableRead(img, data, c);
      assert table == 0 || table == 1;
    }
  }

  /** The first two entries of a directory lead to itself and to the directory above, 0 standing for the root. */
  ghost predicate Dots(dir: Option<seq<Byte>>, self: nat, up: nat) {
    && dir.Some?
    && (match FindEntry(dir.value, Padded(".", 11), 0) case None => false case Some(e) => IsFolder(e[11]) && EntryCluster(e) == self)
    && (match FindEntry(dir.value, Padded("..", 11), 0) case None => false case Some(e) => IsFolder(e[11]) && EntryCluster(e) == up)
  }

  lemma FindDots(dir: seq<Byte>, self: nat, up: nat)
    requires self < 0x1_0000 && up < 0x1_0000 && |dir| == CLUSTER
    requires dir[0..32] == DirEntry(".", "", 0x10, self, 0) && dir[32..64] == DirEntry("..", "", 0x10, up, 0)
    ensures Dots(Some(dir), self, up)
  {
    DirEntryFields(".", "", 0x10, self, 0);
    DirEntryFields("..", "", 0x10, up, 0);
    assert Padded(".", 8) + Padded("", 3) == Padded(".", 11) && Padded("..", 8) + Padded("", 3) == Padded("..", 11);
    assert Padded(".", 11)[1] == 32 && Padded("..", 11)[1] == '.' as int;
    assert FindEntry(dir, Padded("..", 11), 1) == Some(dir[32..64]);
  }

  lemma DirectoryDots(size: nat)
    requires size < WORD
    ensures Dots(Some(EfiDirectory()), 2, 0) && Dots(Some(BootDirectory(size)), 3, 2)
  {
    var efi, boot := EfiDirectory(), BootDirectory(size);
    assert efi[0..32] == DirEntry(".", "", 0x10, 2, 0) && efi[32..64] == DirEntry("..", "", 0x10, 0, 0);
    assert boot[0..32] == DirEntry(".", "", 0x10, 3, 0) && boot[32..64] == DirEntry("..", "", 0x10, 2, 0);
    FindDots(efi, 2, 0);
    FindDots(boot, 3, 2);
  }

  /** A volume as other tools expect it: equal tables that start with the medium, dot entries that lead home, and the signature. */
  ghost predicate Sound(img: seq<Byte>)
    requires |img| >= SECTOR
  {
    var v := ParameterBlock(img);
    && TablesAgree(img, v) && TableWord(img, v, 0, 0) - 0xFF00 == img[21] && TableWord(img, v, 0, 1) == 0xFFFF
    && Dots(Contents(img, v, 2), 2, 0) && Dots(Contents(img, v, 3), 3, 2)
    && img[510..512] == [0x55, 0xAA]
  }

  lemma SectorFields(img: seq<Byte>)
    requires |img| >= SECTOR && img[..SECTOR] == BootSector()
    ensures img[21] == 0xF8 && img[510..512] == [0x55, 0xAA]
  {
    BootSectorParts();
    SizesFields();
    assert img[21] == img[..SECTOR][21] == BootSector()[19..36][2];
    assert img[..SECTOR][510..512] == [0x55, 0xAA];
  }

  lemma FirstEntries(img: seq<Byte>, data: seq<Byte>)
    requires Laid(img, data)
    ensures TableWord(img, BOOT_VOLUME, 0, 0) == 0xFFF8 && TableWord(img, BOOT_VOLUME, 0, 1) == 0xFFFF
  {
    TableRead(img, data, 0);
    TableRead(img, data, 1);
  }

  lemma SoundParts(img: seq<Byte>, v: Volume, efi: seq<Byte>, boot: seq<Byte>)
    requires |img| >= SECTOR && v == ParameterBlock(img) && TablesAgree(img, v)
    requires TableWord(img, v, 0, 0) - 0xFF00 == img[21] && TableWord(img, v, 0, 1) == 0xFFFF && img[510..512] == [0x55, 0xAA]
    requires Contents(img, v, 2) == Some(efi) && Dots(Some(efi), 2, 0) && Contents(img, v, 3) == Some(boot) && Dots(Some(boot), 3, 2)
    ensures Sound(img)
  {
  }

  lemma LaidSound(img: seq<Byte>, data: seq<Byte>)
    requires Laid(img, data)
    ensures |img| >= SECTOR && Sound(img)
  {
    DirectoryContents(img, data);
    DirectoryDots(|data|);
    LaidTablesAgree(img, data);
    FirstEntries(img, data);
    SectorFields(img);
    ParameterBlockRead(img);
    SoundParts(img, BOOT_VOLUME, EfiDirectory(), BootDirectory(|data|));
  }

  /** Every image is such a volume. */
  lemma ImageSound(data: seq<Byte>)
    requires Clusters(|data|) <= TABLE_CLUSTERS
    ensures |Image(data).value| >= SECTOR && Sound(Image(data).value)
  {
    ImageLaid(data);
    LaidSound(Image(data).value, data);
  }

  // ---------- the tail that belongs to the kernel's file system ----------

  /**
   * Up to 16213 clusters the image has its full size and nothing but zeros in the tail behind the FAT
   * volume; from one cluster more on, the tail starts with bytes of the file's clusters.
   */
  lemma TailUntouched(data: seq<Byte>)
    requires Clusters(|data|) <= TABLE_CLUSTERS
    ensures var n, img, tail := Clusters(|data|), Image(data).value, FAT_SECTORS * SECTOR;
            if n <= MAX_CLUSTERS then
              |img| == IMAGE_SECTORS * SECTOR && forall x :: tail <= x < IMAGE_SECTORS * SECTOR ==> img[x] == 0
            else
              && tail < FILE_START + n * CLUSTER <= |img|
              && forall x :: tail <= x < FILE_START + n * CLUSTER ==> img[x] == FileArea(data)[x - FILE_START]
  {
    var n, img := Clusters(|data|), Image(data).value;
    ClusterBounds(|data|);
    if n > MAX_CLUSTERS {
      ImageLaid(data);
      forall x | FAT_SECTORS * SECTOR <= x < FILE_START + n * CLUSTER
        ensures img[x] == FileArea(data)[x - FILE_START]
      {
        assert img[FILE_START..FILE_START + n * CLUSTER][x - FILE_START] == img[x];
      }
    }
  }

  // ---------- the tool ----------

  /** Writes bytes into a buffer at a position, as slice assignment and pack_into do. */
  method PutBytes(buffer: array<Byte>, at: nat, bytes: seq<Byte>)
    requires at + |bytes| <= buffer.Length
    modifies buffer
    ensures buffer[..] == Patch(old(buffer[..]), at, bytes)
  {
    ghost var before := buffer[..];
    var i := 0;
    while i < |bytes|
      invariant 0 <= i <= |bytes|
      invariant forall k :: 0 <= k < buffer.Length ==> buffer[k] == if at <= k < at + i then bytes[k - at] else before[k]
    {
      buffer[at + i] := bytes[i];
      i := i + 1;
    }
    assert buffer[..] == Patch(before, at, bytes);
  }

  /** A field written behind what has been filled so far extends it; what is skipped stays zero. */
  method PutField(buffer: array<Byte>, ghost front: seq<Byte>, at: nat, bytes: seq<Byte>) returns (ghost filled: seq<Byte>)
    requires |front| <= at && at + |bytes| <= buffer.Length && buffer[..] == front + Zeros(buffer.Length - |front|)
    modifies buffer
    ensures filled == front + Zeros(at - |front|) + bytes
    ensures buffer[..] == filled + Zeros(buffer.Length - |filled|)
  {
    PatchAppends(front, buffer.Length - |front|, at, bytes);
    filled := front + Zeros(at - |front|) + bytes;
    PutBytes(buffer, at, bytes);
  }

  lemma PatchAppends(front: seq<Byte>, n: nat, at: nat, bytes: seq<Byte>)
    requires |front| <= at && at + |bytes| <= |front| + n
    ensures var filled := front + Zeros(at - |front|) + bytes;
            Patch(front + Zeros(n), at, bytes) == filled + Zeros(|front| + n - |filled|)
  {
  }

  /** The same without a gap. */
  method PutNext(buffer: array<Byte>, ghost front: seq<Byte>, at: nat, bytes: seq<Byte>) returns (ghost filled: seq<Byte>)
    requires |front| == at && at + |bytes| <= buffer.Length && buffer[..] == front + Zeros(buffer.Length - at)
    modifies buffer
    ensures filled == front + bytes && buffer[..] == filled + Zeros(buffer.Length - |filled|)
  {
    filled := PutField(buffer, front, at, bytes);
    assert filled == front + bytes;
  }

  method MakeDirEntry(name: string, ext: string, attr: Byte, cluster: nat, size: nat) returns (e: seq<Byte>)
    requires IsCString(name) && IsCString(ext) && cluster < 0x1_0000 && size < WORD
    ensures e == DirEntry(name, ext, attr, cluster, size)
  {
    var entry := new Byte[32](_ => 0);
    ghost var f := PutName(entry, name, ext, attr);
    f := PutNumbers(entry, f, cluster, size);
    e := entry[..];
    assert e == f + Zeros(0) == f;
  }

  method PutName(entry: array<Byte>, name: string, ext: string, attr: Byte) returns (ghost f: seq<Byte>)
    requires entry.Length == 32 && entry[..] == Zeros(32) && IsCString(name) && IsCString(ext)
    modifies entry
    ensures f == Padded(name, 8) + Padded(ext, 3) + [attr] && entry[..] == f + Zeros(20)
  {
    assert entry[..] == [] + Zeros(32);
    f := PutNext(entry, [], 0, Padded(name, 8));
    assert f == Padded(name, 8);
    f := PutNext(entry, f, 8, Padded(ext, 3));
    f := PutNext(entry, f, 11, [attr]);
  }

  method PutNumbers(entry: array<Byte>, ghost front: seq<Byte>, cluster: nat, size: nat) returns (ghost f: seq<Byte>)
    requires entry.Length == 32 && |front| == 12 && entry[..] == front + Zeros(20) && cluster < 0x1_0000 && size < WORD
    modifies entry
    ensures f == front + Zeros(10) + U16(0x5800) + U16(0x5D33) + U16(cluster) + U32(size)
    ensures entry[..] == f + Zeros(0)
  {
    f := PutField(entry, front, 22, U16(0x5800));
    f := PutNext(entry, f, 24, U16(0x5D33));
    f := PutNext(entry, f, 26, U16(cluster));
    f := PutNext(entry, f, 28, U32(size));
  }

  /** The packed boot sector: its parameter block reads back as the volume, and it carries the signature. */
  method MakeBootSector() returns (b: seq<Byte>)
    ensures b == BootSector() && ParameterBlock(b) == BOOT_VOLUME
    ensures b[0..3] == [0xEB, 0x3C, 0x90] && b[3..11] == Ascii("MINOS1.0") && b[21] == 0xF8
    ensures Word(b, 24) == 63 && Word(b, 26) == 255 && Long(b, 28) == 0
    ensures b[36] == 0x80 && b[38] == 0x29 && Long(b, 39) == 0x1994_0520
    ensures b[43..54] == Ascii("MINOS BOOT ") && b[54..62] == Ascii("FAT16   ") && b[510..] == [0x55, 0xAA]
  {
    var s := new Byte[SECTOR](_ => 0);
    assert s[..] == [] + Zeros(SECTOR);
    PutGeometry(s);
    PutSizes(s);
    PutLabels(s);
    ghost var f := PutField(s, Geometry() + Sizes() + Labels(), 510, [0x55, 0xAA]);
    b := s[..];
    assert b == BootSector();
    assert b[..SECTOR] == b;
    ParameterBlockRead(b);
    OtherFields(b);
  }

  lemma LabelsFields()
    ensures var l := Labels();
            l[0] == 0x80 && l[2] == 0x29 && l[3..7] == U32(0x1994_0520) && l[7..18] == Ascii("MINOS BOOT ") && l[18..26] == Ascii("FAT16   ")
  {
  }

  /** The fields that the reader does not use. */
  lemma OtherFields(b: seq<Byte>)
    requires b == BootSector()
    ensures b[0..3] == [0xEB, 0x3C, 0x90] && b[3..11] == Ascii("MINOS1.0") && b[21] == 0xF8
    ensures Word(b, 24) == 63 && Word(b, 26) == 255 && Long(b, 28) == 0
    ensures b[36] == 0x80 && b[38] == 0x29 && Long(b, 39) == 0x1994_0520
    ensures b[43..54] == Ascii("MINOS BOOT ") && b[54..62] == Ascii("FAT16   ") && b[510..] == [0x55, 0xAA]
  {
    BootSectorParts();
    GeometryFields();
    SizesFields();
    LabelsFields();
    assert b[36..62] == Labels();
    SubSlice(b, 0, 19, 0, 3);
    SubSlice(b, 0, 19, 3, 11);
    SubSlice(b, 19, 36, 5, 7);
    SubSlice(b, 19, 36, 7, 9);
    SubSlice(b, 19, 36, 9, 13);
    SubSlice(b, 36, 62, 3, 7);
    SubSlice(b, 36, 62, 7, 18);
    SubSlice(b, 36, 62, 18, 26);
    assert b[19..36][2] == b[21] && b[36..62][0] == b[36] && b[36..62][2] == b[38];
    U16RoundTrip(63);
    U16RoundTrip(255);
    U32RoundTrip(0);
    U32RoundTrip(0x1994_0520);
  }

  method PutGeometry(s: array<Byte>)
    requires s.Length == SECTOR && s[..] == Zeros(SECTOR)
    modifies s
    ensures s[..] == Geometry() + Zeros(SECTOR - 19)
  {
    ghost var f := PutMaker(s);
    f := PutNext(s, f, 13, [4]);
    f := PutNext(s, f, 14, U16(RESERVED_SECTORS));
    f := PutNext(s, f, 16, [2]);
    f := PutNext(s, f, 17, U16(ROOT_ENTRIES));
    assert f == Geometry();
  }

  method PutMaker(s: array<Byte>) returns (ghost f: seq<Byte>)
    requires s.Length == SECTOR && s[..] == Zeros(SECTOR)
    modifies s
    ensures f == [0xEB, 0x3C, 0x90] + Ascii("MINOS1.0") + U16(SECTOR) && s[..] == f + Zeros(SECTOR - 13)
  {
    assert s[..] == [] + Zeros(SECTOR);
    f := PutNext(s, [], 0, [0xEB, 0x3C, 0x90]);
    assert f == [0xEB, 0x3C, 0x90];
    f := PutNext(s, f, 3, Ascii("MINOS1.0"));
    f := PutNext(s, f, 11, U16(SECTOR));
  }

  method PutSizes(s: array<Byte>)
    requires s.Length == SECTOR && s[..] == Geometry() + Zeros(SECTOR - 19)
    modifies s
    ensures s[..] == Geometry() + Sizes() + Zeros(SECTOR - 36)
  {
    ghost var f := PutMedium(s, Geometry());
    f := PutNext(s, f, 24, U16(63));
    f := PutNext(s, f, 26, U16(255));
    f := PutNext(s, f, 28, U32(0));
    f := PutNext(s, f, 32, U32(FAT_SECTORS));
    assert f == Geometry() + Sizes();
  }

  method PutMedium(s: array<Byte>, ghost front: seq<Byte>) returns (ghost f: seq<Byte>)
    requires s.Length == SECTOR && |front| == 19 && s[..] == front + Zeros(SECTOR - 19)
    modifies s
    ensures f == front + U16(0) + [0xF8] + U16(SECTORS_PER_FAT) && s[..] == f + Zeros(SECTOR - 24)
  {
    f := PutNext(s, front, 19, U16(0));
    f := PutNext(s, f, 21, [0xF8]);
    f := PutNext(s, f, 22, U16(SECTORS_PER_FAT));
  }

  method PutLabels(s: array<Byte>)
    requires s.Length == SECTOR && s[..] == Geometry() + Sizes() + Zeros(SECTOR - 36)
    modifies s
    ensures s[..] == Geometry() + Sizes() + Labels() + Zeros(SECTOR - 62)
  {
    ghost var f := PutDrive(s, Geometry() + Sizes());
    f := PutNext(s, f, 43, Ascii("MINOS BOOT "));
    f := PutNext(s, f, 54, Ascii("FAT16   "));
    assert f == Geometry() + Sizes() + Labels();
  }

  method PutDrive(s: array<Byte>, ghost front: seq<Byte>) returns (ghost f: seq<Byte>)
    requires s.Length == SECTOR && |front| == 36 && s[..] == front + Zeros(SECTOR - 36)
    modifies s
    ensures f == front + [0x80] + [0] + [0x29] + U32(0x19940520) && s[..] == f + Zeros(SECTOR - 43)
  {
    f := PutNext(s, front, 36, [0x80]);
    f := PutField(s, f, 38, [0x29]);
    f := PutNext(s, f, 39, U32(0x19940520));
  }

  /** Links the file's clusters in the allocation table. */
  method MakeTable(n: nat) returns (t: seq<Byte>)
    requires n <= TABLE_CLUSTERS
    ensures t == Table(n, n)
  {
    var fat := new Byte[FAT_BYTES](_ => 0);
    PutReserved(fat, n);
    var i := 0;
    while i < n
      invariant 0 <= i <= n
      invariant fat[..] == Table(n, i)
    {
      var c := FIRST_FILE_CLUSTER + i;
      TableStep(n, i);
      PutBytes(fat, c * 2, if i == n - 1 then U16(0xFFFF) else U16(c + 1));
      i := i + 1;
    }
    t := fat[..];
  }

  /** The media entry, the end mark, and the two directory clusters. */
  method PutReserved(fat: array<Byte>, n: nat)
    requires fat.Length == FAT_BYTES && n <= TABLE_CLUSTERS && fat[..] == Zeros(FAT_BYTES)
    modifies fat
    ensures fat[..] == Table(n, 0)
  {
    ReservedEntries(n);
    PutBytes(fat, 0, U16(0xFFF8));
    PutBytes(fat, 2, U16(0xFFFF));
    PutBytes(fat, 2 * 2, U16(0xFFFF));
    PutBytes(fat, 3 * 2, U16(0xFFFF));
  }

  lemma ReservedEntries(n: nat)
    requires n <= TABLE_CLUSTERS
    ensures Table(n, 0) == Patch(Patch(Patch(Patch(Zeros(FAT_BYTES), 0, U16(0xFFF8)), 2, U16(0xFFFF)), 4, U16(0xFFFF)), 6, U16(0xFFFF))
  {
  }

  lemma TableStep(n: nat, i: nat)
    requires i < n <= TABLE_CLUSTERS
    ensures var c := FIRST_FILE_CLUSTER + i;
            Table(n, i + 1) == Patch(Table(n, i), c * 2, U16(if i == n - 1 then 0xFFFF else c + 1))
  {
  }

  /** create_fat16_image(), with the image file as a growing sequence of bytes; None when a table entry is out of range. */
  method CreateImage(data: seq<Byte>) returns (img: Option<seq<Byte>>)
    ensures img == Image(data)
  {
    var n := (|data| + CLUSTER - 1) / CLUSTER;
    ClusterBounds(|data|);
    if n > TABLE_CLUSTERS {
      return None;
    }
    var boot := MakeBootSector();
    var fat := MakeTable(n);
    var root := MakeRoot();
    var efi := MakeEfi();
    var bootDir := MakeBoot(|data|);
    var out := boot;
    out := out + Zeros(SECTOR * (RESERVED_SECTORS - 1));
    out := out + fat;
    out := out + fat;
    out := out + root;
    out := out + efi;
    out := out + bootDir;
    out := out + (data + Zeros(n * CLUSTER - |data|));
    if |out| < IMAGE_SECTORS * SECTOR {
      out := out + Zeros(IMAGE_SECTORS * SECTOR - |out|);
    } else {
      assert out + Zeros(0) == out;
    }
    img := Some(out);
  }

  method MakeRoot() returns (b: seq<Byte>)
    ensures b == RootDirectory()
  {
    var volumeName := MakeDirEntry("MINOS BOOT", "", 0x08, 0, 0);
    var efi := MakeDirEntry("EFI", "", 0x10, 2, 0);
    b := volumeName + efi + Zeros(ROOT_BYTES - 64);
  }

  method MakeEfi() returns (b: seq<Byte>)
    ensures b == EfiDirectory()
  {
    var self := MakeDirEntry(".", "", 0x10, 2, 0);
    var up := MakeDirEntry("..", "", 0x10, 0, 0);
    var boot := MakeDirEntry("BOOT", "", 0x10, 3, 0);
    b := self + up + boot + Zeros(CLUSTER - 96);
  }

  method MakeBoot(size: nat) returns (b: seq<Byte>)
    requires size < WORD
    ensures b == BootDirectory(size)
  {
    var self := MakeDirEntry(".", "", 0x10, 3, 0);
    var up := MakeDirEntry("..", "", 0x10, 2, 0);
    var file := MakeDirEntry("BOOTX64", "EFI", 0x20, FIRST_FILE_CLUSTER, size);
    b := self + up + file + Zeros(CLUSTER - 96);
  }
}
