/** The disk behind the file system's sector buffer. Reading and writing sectors are plain copies. */
module Device {
  import opened Constants
  import opened FileSpec

  class Device {
    const disk: array<Byte>
    const fsbuf: array<Byte>

    constructor (disk: array<Byte>, fsbuf: array<Byte>)
      requires disk != fsbuf && fsbuf.Length == FSBUF_SECTORS * SECTOR_SIZE
      ensures this.disk == disk && this.fsbuf == fsbuf && Valid()
    {
      this.disk, this.fsbuf := disk, fsbuf;
    }

    ghost predicate Valid() {
      disk != fsbuf && fsbuf.Length == FSBUF_SECTORS * SECTOR_SIZE
    }

    /** Sectors from the disk into the buffer. */
    method ReadSectors(sect: nat, count: nat)
      requires Valid() && (sect + count) * SECTOR_SIZE <= disk.Length && count <= FSBUF_SECTORS
      modifies fsbuf
      ensures fsbuf[..count * SECTOR_SIZE] == disk[sect * SECTOR_SIZE..(sect + count) * SECTOR_SIZE]
    {
      forall i | 0 <= i < count * SECTOR_SIZE {
        fsbuf[i] := disk[sect * SECTOR_SIZE + i];
      }
    }

    /** Sectors from the buffer onto the disk. */
    method WriteSectors(sect: nat, count: nat)
      requires Valid() && (sect + count) * SECTOR_SIZE <= disk.Length && count <= FSBUF_SECTORS
      modifies disk
      ensures disk[..] == Store(old(disk[..]), sect * SECTOR_SIZE, fsbuf[..count * SECTOR_SIZE])
    {
      forall i | 0 <= i < count * SECTOR_SIZE {
        disk[sect * SECTOR_SIZE + i] := fsbuf[i];
      }
    }
  }
}
