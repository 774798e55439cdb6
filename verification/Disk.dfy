/** The disk as the file system sees it: sectors written one at a time, each wholly or not at all. */
module Disk {
  import opened Layout
  import opened FileSystem

  class Drive {
    const sectors: array<Sector>
    /** No command times out. */
    const reliable: bool

    ghost predicate Valid() {
      sectors.Length == DISK_SECTORS
    }

    constructor (image: array<Sector>, reliable: bool)
      requires image.Length == DISK_SECTORS
      ensures Valid() && sectors == image && this.reliable == reliable
    {
      this.sectors := image;
      this.reliable := reliable;
    }

    /** Fails outside the disk, and at any time on a drive that is not reliable. */
    method Read(lba: nat) returns (rc: int, data: Sector)
      requires Valid()
      ensures rc == 0 || rc == -1
      ensures rc == 0 ==> lba < DISK_SECTORS && data == sectors[lba]
      ensures reliable && lba < DISK_SECTORS ==> rc == 0
    {
      data := seq(SECTOR, _ => 0);
      if lba >= DISK_SECTORS {
        return -1, data;
      }
      var timeout: bool := *;
      if timeout && !reliable {
        return -1, data;
      }
      return 0, sectors[lba];
    }

    /** A failing write may still have reached the sector: the cache flush is what timed out. */
    method Write(lba: nat, data: Sector) returns (rc: int)
      requires Valid()
      modifies sectors
      ensures rc == 0 || rc == -1
      ensures rc == 0 ==> lba < DISK_SECTORS && sectors[..] == old(sectors[..])[lba := data]
      ensures rc != 0 ==> sectors[..] == old(sectors[..]) || (lba < DISK_SECTORS && sectors[..] == old(sectors[..])[lba := data])
      ensures reliable && lba < DISK_SECTORS ==> rc == 0
    {
      if lba >= DISK_SECTORS {
        return -1;
      }
      var early: bool, late: bool := *, *;
      if early && !reliable {
        return -1;
      }
      sectors[lba] := data;
      if late && !reliable {
        return -1;
      }
      return 0;
    }
  }
}
