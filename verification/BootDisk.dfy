/**
 * The boot disk over its life: the image tool writes it, firmware boots from its FAT volume, and the
 * kernel mounts the tail behind the volume and works on files there.
 */
module BootDisk {
  import opened CStrings
  import opened Paths
  import opened Table
  import opened Layout
  import opened FileSystem
  import opened Recovery
  import Fat16

  const VOLUME_BYTES := META_LBA * SECTOR

  /** A disk image, sector by sector. */
  function Sectors(img: seq<Byte>): (disk: seq<Sector>)
    requires |img| == DISK_SECTORS * SECTOR
    ensures |disk| == DISK_SECTORS
    ensures forall k :: 0 <= k < DISK_SECTORS ==> disk[k] == img[k * SECTOR..k * SECTOR + SECTOR]
  {
    seq(DISK_SECTORS, k requires 0 <= k < DISK_SECTORS => img[k * SECTOR..k * SECTOR + SECTOR])
  }

  /** The bytes of a disk, in order. */
  function Flat(disk: seq<Sector>): (img: seq<Byte>)
    requires |disk| == DISK_SECTORS
    ensures |img| == DISK_SECTORS * SECTOR
    ensures forall x :: 0 <= x < |img| ==> img[x] == disk[x / SECTOR][x % SECTOR]
  {
    seq(DISK_SECTORS * SECTOR, x requires 0 <= x < DISK_SECTORS * SECTOR => disk[x / SECTOR][x % SECTOR])
  }

  lemma SameVolume(img: seq<Byte>, disk: seq<Sector>)
    requires |img| == DISK_SECTORS * SECTOR && |disk| == DISK_SECTORS
    requires forall k :: 0 <= k < META_LBA ==> disk[k] == Sectors(img)[k]
    ensures Flat(disk)[..VOLUME_BYTES] == img[..VOLUME_BYTES]
  {
    forall x | 0 <= x < VOLUME_BYTES
      ensures Flat(disk)[x] == img[x]
    {
      var k, o := x / SECTOR, x % SECTOR;
      assert x == k * SECTOR + o && disk[k][o] == img[k * SECTOR..k * SECTOR + SECTOR][o];
    }
  }

  lemma SlicePrefix(a: seq<Byte>, b: seq<Byte>, n: nat, i: nat, j: nat)
    requires i <= j <= n <= |a| && n <= |b| && a[..n] == b[..n]
    ensures a[i..j] == b[i..j]
  {
    assert a[i..j] == a[..n][i..j] && b[i..j] == b[..n][i..j];
  }

  /** The parts of the image lie inside the FAT volume. */
  lemma LaidInVolume(img: seq<Byte>, other: seq<Byte>, data: seq<Byte>)
    requires Fat16.Laid(img, data) && Fat16.Clusters(|data|) <= Fat16.MAX_CLUSTERS
    requires |img| >= VOLUME_BYTES && |other| >= VOLUME_BYTES && other[..VOLUME_BYTES] == img[..VOLUME_BYTES]
    ensures Fat16.Laid(other, data)
  {
    var tables, start, area := Fat16.RESERVED_SECTORS * SECTOR, Fat16.DATA_START, Fat16.DATA_START + 2 * Fat16.CLUSTER;
    SlicePrefix(img, other, VOLUME_BYTES, 0, SECTOR);
    SlicePrefix(img, other, VOLUME_BYTES, tables, tables + Fat16.FAT_BYTES);
    SlicePrefix(img, other, VOLUME_BYTES, tables + Fat16.FAT_BYTES, tables + 2 * Fat16.FAT_BYTES);
    SlicePrefix(img, other, VOLUME_BYTES, tables + 2 * Fat16.FAT_BYTES, start);
    SlicePrefix(img, other, VOLUME_BYTES, start, start + Fat16.CLUSTER);
    SlicePrefix(img, other, VOLUME_BYTES, start + Fat16.CLUSTER, area);
    SlicePrefix(img, other, VOLUME_BYTES, area, area + Fat16.Clusters(|data|) * Fat16.CLUSTER);
  }

  lemma EventLeavesVolume(s: State, e: Event, lba: nat)
    requires Valid(s) && Legal(e) && lba < META_LBA
    ensures EventS(s, e).Some? ==> EventS(s, e).value.1.disk[lba] == s.disk[lba]
  {
    if e.Call? {
      FatVolumeUntouched(s, e.op, lba);
    }
  }

  /** No history of calls and reboots writes to the FAT volume. */
  lemma {:induction false} HistoryLeavesVolume(s: State, events: seq<Event>, lba: nat)
    requires Valid(s) && AllLegal(events) && lba < META_LBA
    ensures History(s, events).Some? ==> History(s, events).value.1.disk[lba] == s.disk[lba]
    decreases |events|
  {
    if events != [] && EventS(s, events[0]).Some? {
      EventLeavesVolume(s, events[0], lba);
      HistoryLeavesVolume(EventS(s, events[0]).value.1, events[1..], lba);
    }
  }

  /** The tail of a new image carries no file system: the kernel formats it. */
  lemma NewDiskUnformatted(data: seq<Byte>)
    requires Fat16.Clusters(|data|) <= Fat16.MAX_CLUSTERS
    ensures |Fat16.Image(data).value| == DISK_SECTORS * SECTOR
    ensures !HasMagic(Sectors(Fat16.Image(data).value)[META_LBA])
  {
    Fat16.TailUntouched(data);
    var img := Fat16.Image(data).value;
    ZeroSector(Sectors(img)[META_LBA], img, META_LBA * SECTOR);
  }

  lemma ZeroSector(sector: Sector, img: seq<Byte>, at: nat)
    requires at + SECTOR <= |img| && sector == img[at..at + SECTOR]
    requires forall x :: at <= x < at + SECTOR ==> img[x] == 0
    ensures !HasMagic(sector)
  {
    assert sector[0] == img[at] && sector[1] == img[at + 1] && sector[2] == img[at + 2] && sector[3] == img[at + 3];
  }

  lemma VolumeStillBoots(data: seq<Byte>, img: seq<Byte>, disk: seq<Sector>)
    requires Fat16.Clusters(|data|) <= Fat16.MAX_CLUSTERS && Fat16.Image(data) == Some(img) && |img| == DISK_SECTORS * SECTOR
    requires |disk| == DISK_SECTORS && forall k :: 0 <= k < META_LBA ==> disk[k] == Sectors(img)[k]
    ensures Fat16.ReadBootFile(Flat(disk)) == Some(data)
  {
    SameVolume(img, disk);
    Fat16.ImageLaid(data);
    LaidInVolume(img, Flat(disk), data);
    Fat16.LaidReads(Flat(disk), data);
  }

  /** A disk without a file system is formatted when mounted, and everything before its tail stays. */
  lemma HistoryFromNewDisk(disk: seq<Sector>, ram: seq<Block>, events: seq<Event>)
    requires |disk| == DISK_SECTORS && |ram| == FILE_MAX && !HasMagic(disk[META_LBA])
    requires AllLegal(events) && HistoryFine(map[[] := Dir], {}, events)
    ensures Ready(Mounted(disk, ram, true), {})
    ensures var h := History(Mounted(disk, ram, true), events);
            && h.Some?
            && (h.value.0, Abs(h.value.1)) == HistoryTree(map[[] := Dir], events)
            && |h.value.1.disk| == DISK_SECTORS
            && forall k :: 0 <= k < META_LBA ==> h.value.1.disk[k] == disk[k]
  {
    var s := Mounted(disk, ram, true);
    FirstMountGood(disk, ram, true);
    var wraps := HistoryRefines(s, {}, events);
    forall k | 0 <= k < META_LBA
      ensures History(s, events).value.1.disk[k] == disk[k]
    {
      HistoryLeavesVolume(s, events, k);
    }
  }

  /**
   * From a new image on, whatever files the kernel creates and writes in any number of sessions with
   * reboots between them: firmware still reads the boot file the image was made with, and the file
   * system answers as an initially empty tree does.
   */
  lemma BootFileSurvives(data: seq<Byte>, ram: seq<Block>, events: seq<Event>)
    requires Fat16.Clusters(|data|) <= Fat16.MAX_CLUSTERS && |ram| == FILE_MAX
    requires AllLegal(events) && HistoryFine(map[[] := Dir], {}, events)
    ensures |Fat16.Image(data).value| == DISK_SECTORS * SECTOR
    ensures !HasMagic(Sectors(Fat16.Image(data).value)[META_LBA])
    ensures Valid(Mounted(Sectors(Fat16.Image(data).value), ram, true))
    ensures var h := History(Mounted(Sectors(Fat16.Image(data).value), ram, true), events);
            && h.Some?
            && (h.value.0, Abs(h.value.1)) == HistoryTree(map[[] := Dir], events)
            && Fat16.ReadBootFile(Flat(h.value.1.disk)) == Some(data)
  {
    NewDiskUnformatted(data);
    var disk := Sectors(Fat16.Image(data).value);
    HistoryFromNewDisk(disk, ram, events);
    VolumeStillBoots(data, Fat16.Image(data).value, History(Mounted(disk, ram, true), events).value.1.disk);
  }
}
