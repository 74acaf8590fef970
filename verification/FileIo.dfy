/** Reading and writing regular files through a sector buffer. */
module FileIo {
  import opened Constants
  import opened FileSpec
  import opened Device

  const O_RDWR := 2

  /** A cached inode, with the record of it that is on the disk. */
  class Inode {
    var extent: Extent
    var onDisk: Extent

    constructor (x: Extent)
      ensures extent == onDisk == x
    {
      extent, onDisk := x, x;
    }

    method Sync()
      modifies this`onDisk
      ensures onDisk == extent
    {
      onDisk := extent;
    }
  }

  /** An open file. */
  class FileDesc {
    const mode: int
    const inode: Inode
    var pos: nat

    constructor (mode: int, inode: Inode)
      ensures this.mode == mode && this.inode == inode && pos == 0
    {
      this.mode, this.inode, pos := mode, inode, 0;
    }
  }

  /** A read or write of len bytes at the current position, between the file and buf[from..]. */
  method DoRdwt(dev: Device, fd: FileDesc, buf: array<Byte>, len: nat, isRead: bool) returns (count: nat)
    requires dev.Valid() && buf != dev.disk && buf != dev.fsbuf && len <= buf.Length
    requires OnDisk(dev.disk[..], fd.inode.extent)
    requires fd.pos <= Capacity(fd.inode.extent) && fd.inode.extent.size <= Capacity(fd.inode.extent)
    requires isRead ==> fd.pos <= fd.inode.extent.size
    modifies dev.disk, dev.fsbuf, buf, fd`pos, fd.inode
    ensures fd.pos == old(fd.pos) + count
    ensures (fd.mode / O_RDWR) % 2 == 0 ==>
      && count == 0 && dev.disk[..] == old(dev.disk[..]) && buf[..] == old(buf[..])
      && fd.inode.extent == old(fd.inode.extent)
    ensures (fd.mode / O_RDWR) % 2 != 0 && isRead ==>
      && count == ReadCount(old(fd.inode.extent), old(fd.pos), len)
      && count == (if len < old(fd.inode.extent.size - fd.pos) then len else old(fd.inode.extent.size - fd.pos))
      && dev.disk[..] == old(dev.disk[..]) && fd.inode.extent == old(fd.inode.extent)
      && buf[..] == Store(old(buf[..]), 0, Contents(old(dev.disk[..]), old(fd.inode.extent))[old(fd.pos)..][..count])
    ensures (fd.mode / O_RDWR) % 2 != 0 && !isRead ==>
      && count == WriteCount(old(fd.inode.extent), old(fd.pos), len)
      && (var room := old(fd.inode.extent.sects * 512 - fd.pos); count == if len < room then len else room)
      && fd.inode.extent == Written(old(fd.inode.extent), old(fd.pos), len)
      && dev.disk[..] == Store(old(dev.disk[..]), Base(old(fd.inode.extent)) + old(fd.pos), old(buf[..count]))
      && buf[..] == old(buf[..])
    ensures old(fd.inode.onDisk == fd.inode.extent) ==> fd.inode.onDisk == fd.inode.extent
  {
    if (fd.mode / O_RDWR) % 2 == 0 {
      return 0;
    }
    var inode := fd.inode;
    var x := inode.extent;
    var pos := fd.pos;
    if isRead {
      count := Transfer(dev, x, buf, pos, Min(pos + len, x.size), true);
    } else {
      count := Transfer(dev, x, buf, pos, Min(pos + len, Capacity(x)), false);
    }
    fd.pos := pos + count;
    if fd.pos > inode.extent.size {
      inode.extent := inode.extent.(size := fd.pos);
      inode.Sync();
    }
  }

  /** The chunk loop: bytes pos..posEnd of the file to or from buf. */
  method Transfer(dev: Device, x: Extent, buf: array<Byte>, pos: nat, posEnd: nat, isRead: bool) returns (bytesRw: nat)
    requires dev.Valid() && buf != dev.disk && buf != dev.fsbuf
    requires pos <= posEnd <= Capacity(x) && posEnd - pos <= buf.Length
    requires (x.start + x.sects + FSBUF_SECTORS) * SECTOR_SIZE <= dev.disk.Length
    modifies dev.disk, dev.fsbuf, buf
    ensures bytesRw == posEnd - pos
    ensures (dev.disk[..], buf[..]) == Moved(isRead, old((dev.disk[..], buf[..])), Base(x) + pos, 0, bytesRw)
  {
    hide Moved;
    var off: nat := pos % SECTOR_SIZE;
    var rwSectMin := x.start + pos / SECTOR_SIZE;
    var rwSectMax := x.start + posEnd / SECTOR_SIZE;
    var chunk := Min(rwSectMax - rwSectMin + 1, FSBUF_SECTORS);
    bytesRw := 0;
    var bytesLeft := posEnd - pos;
    var i := rwSectMin;
    ghost var before := (dev.disk[..], buf[..]);
    MovedNone(isRead, before, Base(x) + pos);
    FirstChunk(x, pos, posEnd);
    ghost var at := Base(x) + pos;
    assert at + (posEnd - pos) <= dev.disk.Length;
    while i <= rwSectMax
      invariant AtChunk(x, pos, posEnd, i, off, bytesRw) && bytesLeft == posEnd - pos - bytesRw
      invariant (dev.disk[..], buf[..]) == Moved(isRead, before, at, 0, bytesRw)
      decreases rwSectMax + chunk - i
    {
      NextChunk(x, pos, posEnd, i, off, bytesRw, chunk);
      var bytes := Min(bytesLeft, chunk * SECTOR_SIZE - off);
      MoveNext(dev, i, chunk, off, buf, bytesRw, bytes, isRead, before, at);
      off := 0;
      bytesRw := bytesRw + bytes;
      bytesLeft := bytesLeft - bytes;
      i := i + chunk;
    }
  }

  /** One chunk more, on top of the n bytes that have been moved since before. */
  method MoveNext(dev: Device, i: nat, chunk: nat, off: nat, buf: array<Byte>, n: nat, bytes: nat, isRead: bool,
                  ghost before: (seq<Byte>, seq<Byte>), ghost start: nat)
    requires dev.Valid() && buf != dev.disk && buf != dev.fsbuf && (i + chunk) * SECTOR_SIZE <= dev.disk.Length
    requires chunk <= FSBUF_SECTORS && off + bytes <= chunk * SECTOR_SIZE && n + bytes <= buf.Length
    requires |before.0| == dev.disk.Length && |before.1| == buf.Length && i * SECTOR_SIZE + off == start + n
    requires (dev.disk[..], buf[..]) == Moved(isRead, before, start, 0, n)
    modifies dev.disk, dev.fsbuf, buf
    ensures (dev.disk[..], buf[..]) == Moved(isRead, before, start, 0, n + bytes)
  {
    MoveChunk(dev, i, chunk, off, buf, n, bytes, isRead);
    MovedMore(isRead, before, start, n, bytes);
  }

  /** One chunk. Sectors are read also before a write, so that the bytes around it stay as they are. */
  method MoveChunk(dev: Device, i: nat, chunk: nat, off: nat, buf: array<Byte>, at: nat, bytes: nat, isRead: bool)
    requires dev.Valid() && buf != dev.disk && buf != dev.fsbuf && (i + chunk) * SECTOR_SIZE <= dev.disk.Length
    requires chunk <= FSBUF_SECTORS && off + bytes <= chunk * SECTOR_SIZE && at + bytes <= buf.Length
    modifies dev.disk, dev.fsbuf, buf
    ensures (dev.disk[..], buf[..]) == Moved(isRead, old((dev.disk[..], buf[..])), i * SECTOR_SIZE + off, at, bytes)
  {
    hide Store, Fetch;
    if isRead {
      ReadChunk(dev, i, chunk, off, buf, at, bytes);
    } else {
      WriteChunk(dev, i, chunk, off, buf, at, bytes);
    }
  }

  method ReadChunk(dev: Device, i: nat, chunk: nat, off: nat, buf: array<Byte>, at: nat, bytes: nat)
    requires dev.Valid() && buf != dev.disk && buf != dev.fsbuf && (i + chunk) * SECTOR_SIZE <= dev.disk.Length
    requires chunk <= FSBUF_SECTORS && off + bytes <= chunk * SECTOR_SIZE && at + bytes <= buf.Length
    modifies dev.fsbuf, buf
    ensures buf[..] == Store(old(buf[..]), at, Fetch(dev.disk[..], i * SECTOR_SIZE + off, bytes))
  {
    ghost var disk, base, len := dev.disk[..], i * SECTOR_SIZE, chunk * SECTOR_SIZE;
    dev.ReadSectors(i, chunk);
    assert dev.fsbuf[..len] == Fetch(disk, base, len);
    ghost var part := dev.fsbuf[off..off + bytes];
    PartOfFront(dev.fsbuf[..], len, off, bytes);
    PartOfFetched(disk, base, len, off, bytes);
    assert dev.fsbuf[..][..len] == dev.fsbuf[..len] && dev.fsbuf[..][off..off + bytes] == part;
    forall k | 0 <= k < bytes {
      buf[at + k] := dev.fsbuf[off + k];
    }
    assert buf[..] == Store(old(buf[..]), at, part);
  }

  method WriteChunk(dev: Device, i: nat, chunk: nat, off: nat, buf: array<Byte>, at: nat, bytes: nat)
    requires dev.Valid() && buf != dev.disk && buf != dev.fsbuf && (i + chunk) * SECTOR_SIZE <= dev.disk.Length
    requires chunk <= FSBUF_SECTORS && off + bytes <= chunk * SECTOR_SIZE && at + bytes <= buf.Length
    modifies dev.disk, dev.fsbuf
    ensures dev.disk[..] == Store(old(dev.disk[..]), i * SECTOR_SIZE + off, buf[at..at + bytes])
  {
    hide Store;
    ghost var disk, base, len := dev.disk[..], i * SECTOR_SIZE, chunk * SECTOR_SIZE;
    dev.ReadSectors(i, chunk);
    assert dev.fsbuf[..len] == Fetch(disk, base, len);
    forall k | 0 <= k < bytes {
      dev.fsbuf[off + k] := buf[at + k];
    }
    assert dev.fsbuf[..len] == Store(Fetch(disk, base, len), off, buf[at..at + bytes]);
    RewrittenInPart(disk, base, len, off, buf[at..at + bytes]);
    dev.WriteSectors(i, chunk);
  }
}
