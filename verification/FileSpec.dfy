/** Files as byte arrays: the disk is a flat sequence of bytes, a file a run of sectors with a size. */
module FileSpec {
  import opened Constants

  type Byte = bv8

  const FSBUF_SECTORS := 2048

  /** The fields of an inode that locate a file: i_size, i_start_sect, i_nr_sects. */
  datatype Extent = Extent(size: nat, start: nat, sects: nat)

  function Base(x: Extent): nat {
    x.start * SECTOR_SIZE
  }

  function Capacity(x: Extent): nat {
    x.sects * SECTOR_SIZE
  }

  function Min(a: int, b: int): int {
    if a < b then a else b
  }

  /** The sectors of the file, and one buffer more, are on the disk. */
  predicate OnDisk(disk: seq<Byte>, x: Extent) {
    (x.start + x.sects + FSBUF_SECTORS) * SECTOR_SIZE <= |disk|
  }

  function Fetch(disk: seq<Byte>, at: nat, n: nat): seq<Byte>
    requires at + n <= |disk|
  {
    disk[at..at + n]
  }

  function Store(disk: seq<Byte>, at: nat, data: seq<Byte>): (r: seq<Byte>)
    requires at + |data| <= |disk|
    ensures |r| == |disk|
    ensures forall i :: 0 <= i < |disk| ==> r[i] == if at <= i < at + |data| then data[i - at] else disk[i]
  {
    disk[..at] + data + disk[at + |data|..]
  }

  lemma PartOfFront(s: seq<Byte>, len: nat, off: nat, n: nat)
    requires off + n <= len <= |s|
    ensures s[..len][off..off + n] == s[off..off + n]
  {
    var a, b := s[..len][off..off + n], s[off..off + n];
    forall k | 0 <= k < n
      ensures a[k] == b[k]
    {
      assert a[k] == s[..len][off + k] == s[off + k] == b[k];
    }
  }

  lemma PartOfFetched(disk: seq<Byte>, base: nat, len: nat, off: nat, n: nat)
    requires base + len <= |disk| && off + n <= len
    ensures Fetch(disk, base, len)[off..off + n] == Fetch(disk, base + off, n)
  {
    var a, b := Fetch(disk, base, len)[off..off + n], Fetch(disk, base + off, n);
    forall k | 0 <= k < n
      ensures a[k] == b[k]
    {
      assert a[k] == Fetch(disk, base, len)[off + k] == disk[base + off + k] == b[k];
    }
  }

  /** Sectors read, changed in part and written back: only that part of the disk changes. */
  lemma RewrittenInPart(disk: seq<Byte>, base: nat, len: nat, off: nat, data: seq<Byte>)
    requires base + len <= |disk| && off + |data| <= len
    ensures Store(disk, base, Store(Fetch(disk, base, len), off, data)) == Store(disk, base + off, data)
  {
  }

  /** The bytes of the file. */
  function Contents(disk: seq<Byte>, x: Extent): seq<Byte>
    requires OnDisk(disk, x) && x.size <= Capacity(x)
  {
    Fetch(disk, Base(x), x.size)
  }

  /** How many bytes a read or a write of len bytes at pos transfers. */
  function ReadCount(x: Extent, pos: nat, len: nat): int {
    Min(pos + len, x.size) - pos
  }

  function WriteCount(x: Extent, pos: nat, len: nat): int {
    Min(pos + len, Capacity(x)) - pos
  }

  /** The file after data has been written at pos. */
  function Written(x: Extent, pos: nat, len: nat): Extent
    requires pos <= Capacity(x)
  {
    x.(size := if pos + WriteCount(x, pos, len) > x.size then pos + WriteCount(x, pos, len) else x.size)
  }

  /** A write replaces the bytes from pos on, extends the file if need be, and touches nothing else. */
  lemma WriteIsByteArray(disk: seq<Byte>, x: Extent, pos: nat, data: seq<Byte>)
    requires OnDisk(disk, x) && pos <= x.size <= Capacity(x)
    ensures var n := WriteCount(x, pos, |data|);
      var disk' := Store(disk, Base(x) + pos, data[..n]);
      var x' := Written(x, pos, |data|);
      && OnDisk(disk', x') && x'.size <= Capacity(x') && pos + n <= x'.size
      && n == (if pos + |data| <= x.sects * 512 then |data| else x.sects * 512 - pos)
      && Contents(disk', x') == Contents(disk, x)[..pos] + data[..n]
        + if pos + n < x.size then Contents(disk, x)[pos + n..] else []
  {
    var n := WriteCount(x, pos, |data|);
    var disk' := Store(disk, Base(x) + pos, data[..n]);
    var x' := Written(x, pos, |data|);
    var c := Contents(disk, x);
    var r := c[..pos] + data[..n] + if pos + n < x.size then c[pos + n..] else [];
    forall i | 0 <= i < |r|
      ensures Contents(disk', x')[i] == r[i]
    {
    }
  }

  /** What has been written can be read back at the same place. */
  lemma ReadAfterWrite(disk: seq<Byte>, x: Extent, pos: nat, data: seq<Byte>)
    requires OnDisk(disk, x) && pos <= x.size <= Capacity(x)
    ensures var n := WriteCount(x, pos, |data|);
      var disk' := Store(disk, Base(x) + pos, data[..n]);
      var x' := Written(x, pos, |data|);
      && 0 <= n <= |data| && n <= ReadCount(x', pos, |data|)
      && Fetch(disk', Base(x') + pos, n) == data[..n]
      && (|data| <= Capacity(x) - pos ==> n == |data| == ReadCount(x', pos, |data|))
  {
  }

  /** Files on other sectors are not affected. */
  lemma WriteLeavesOthers(disk: seq<Byte>, x: Extent, y: Extent, pos: nat, data: seq<Byte>)
    requires OnDisk(disk, x) && OnDisk(disk, y) && pos <= x.size <= Capacity(x) && y.size <= Capacity(y)
    requires x.start + x.sects <= y.start || y.start + y.sects <= x.start
    ensures Contents(Store(disk, Base(x) + pos, data[..WriteCount(x, pos, |data|)]), y) == Contents(disk, y)
  {
  }

  /** Where a transfer of pos..posEnd stands before the chunk that starts at sector i, n bytes having been moved. */
  ghost predicate AtChunk(x: Extent, pos: nat, posEnd: nat, i: nat, off: nat, n: nat) {
    && pos <= posEnd <= Capacity(x) && x.start + pos / SECTOR_SIZE <= i && off < SECTOR_SIZE && n <= posEnd - pos
    && if i <= x.start + posEnd / SECTOR_SIZE
       then i * SECTOR_SIZE + off == Base(x) + pos + n
       else n == posEnd - pos
  }

  lemma FirstChunk(x: Extent, pos: nat, posEnd: nat)
    requires pos <= posEnd <= Capacity(x)
    ensures AtChunk(x, pos, posEnd, x.start + pos / SECTOR_SIZE, pos % SECTOR_SIZE, 0)
  {
  }

  /** A chunk lies on the disk and takes what is left or fills up; after the last one nothing is left. */
  lemma NextChunk(x: Extent, pos: nat, posEnd: nat, i: nat, off: nat, n: nat, chunk: nat)
    requires AtChunk(x, pos, posEnd, i, off, n) && i <= x.start + posEnd / SECTOR_SIZE
    requires chunk == Min(posEnd / SECTOR_SIZE - pos / SECTOR_SIZE + 1, FSBUF_SECTORS)
    ensures var bytes := Min(posEnd - pos - n, chunk * SECTOR_SIZE - off);
      && 0 < chunk && 0 <= bytes && off + bytes <= chunk * SECTOR_SIZE
      && (i + chunk) * SECTOR_SIZE <= (x.start + x.sects + FSBUF_SECTORS) * SECTOR_SIZE
      && AtChunk(x, pos, posEnd, i + chunk, 0, n + bytes)
  {
  }

  /** Disk and caller's buffer after m bytes have been moved, between the disk from at on and the buffer
      from n on. */
  function Moved(isRead: bool, state: (seq<Byte>, seq<Byte>), at: nat, n: nat, m: nat): (r: (seq<Byte>, seq<Byte>))
    requires n + m <= |state.1| && at + m <= |state.0|
    ensures |r.0| == |state.0| && |r.1| == |state.1|
  {
    var (disk, buf) := state;
    if isRead then (disk, Store(buf, n, Fetch(disk, at, m)))
    else (Store(disk, at, buf[n..n + m]), buf)
  }

  lemma MovedNone(isRead: bool, state: (seq<Byte>, seq<Byte>), at: nat)
    requires at <= |state.0|
    ensures Moved(isRead, state, at, 0, 0) == state
  {
    var (disk, buf) := state;
    assert Store(buf, 0, Fetch(disk, at, 0)) == buf && Store(disk, at, buf[0..0]) == disk;
  }

  /** Adjacent chunks make one transfer. */
  lemma MovedMore(isRead: bool, state: (seq<Byte>, seq<Byte>), at: nat, n: nat, m: nat)
    requires n + m <= |state.1| && at + n + m <= |state.0|
    ensures Moved(isRead, Moved(isRead, state, at, 0, n), at + n, n, m) == Moved(isRead, state, at, 0, n + m)
  {
    var (d0, b0) := state;
    var (d1, b1) := Moved(isRead, state, at, 0, n);
    if isRead {
      assert Store(b1, n, Fetch(d0, at + n, m)) == Store(b0, 0, Fetch(d0, at, n + m));
    } else {
      assert Store(d1, at + n, b0[n..n + m]) == Store(d0, at, b0[0..n + m]);
    }
  }
}
