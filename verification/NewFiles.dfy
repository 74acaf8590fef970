/** Where the data of a new file goes: the sector map, the inode and the disk together. */
module NewFiles {
  import opened Constants
  import opened FileSpec
  import opened Bitmap
  import opened Extents
  import opened SectorMap
  import InodeSpec
  import InodeInvariant
  import InodeCalls
  import InodeResults

  /** Bit 1 of the map stands for the first data sector, which is where the root directory starts. */
  function SectorOf(sb: SuperBlock, bit: nat): int {
    sb.firstDataSect + bit - 1
  }

  /** Two runs of sectors have none in common. */
  predicate Apart(start: int, n: nat, start': int, n': nat) {
    start + n <= start' || start' + n' <= start
  }

  /** What alloc_smap_bit gives out is the sector of the first bit that was clear. */
  lemma FirstSector(bits: Bits, sb: SuperBlock, n: nat)
    requires 0 < n <= Clears(bits) && 1 < sb.firstDataSect
    ensures FirstClear(bits) + n <= |bits| && !bits[FirstClear(bits)]
    ensures FreeNr(0, sb.firstDataSect - 1, bits, n) == SectorOf(sb, FirstClear(bits))
  {
    hide Clears, FirstClear;
    RunIsMarked(bits, n);
    ClearsBeforeFirst(bits);
    FirstIsClear(bits);
  }

  lemma FirstIsClear(bits: Bits)
    ensures FirstClear(bits) < |bits| ==> !bits[FirstClear(bits)]
  {
  }

  /** The sectors of a new file belong to no other file exactly if the first n clear bits were next to each other. */
  lemma NewSectorsApartIff(bits: Bits, files: Live, sb: SuperBlock, n: nat)
    requires Exact(bits, files) && 0 < n <= Clears(bits) && 1 < sb.firstDataSect
    ensures var start := FreeNr(0, sb.firstDataSect - 1, bits, n);
      (forall t :: t in files ==> Apart(start, n, SectorOf(sb, t), files[t])) <==> Contiguous(bits, n)
  {
    hide Clears, FirstClear, FreeNr;
    FirstSector(bits, sb, n);
    var s := FirstClear(bits);
    if Contiguous(bits, n) {
      forall t | t in files
        ensures s + n <= t || t + files[t] <= s
      {
        FreeRunIsApart(bits, files, s, n, t);
      }
    } else {
      var i: nat :| s <= i < s + n && bits[i];
      assert Covered(files, i);
      var t :| t in files && t <= i < t + files[t];
      assert !Apart(SectorOf(sb, s), n, SectorOf(sb, t), files[t]);
    }
  }

  /** What is written to a file on the n sectors given out leaves the contents of every other file alone, and everything
      in front of the data sectors, if the first n clear bits were next to each other. */
  lemma WriteIsApart(bits: Bits, files: Live, sb: SuperBlock, n: nat, disk: seq<Byte>, size: nat, pos: nat,
                     data: seq<Byte>, t: nat, size': nat)
    requires Exact(bits, files) && |bits| > 0 && bits[0] && t in files && 1 < sb.firstDataSect
    requires 0 < n <= Clears(bits) && Contiguous(bits, n)
    requires (sb.firstDataSect + |bits| + FSBUF_SECTORS) * SECTOR_SIZE <= |disk|
    requires pos <= size <= n * SECTOR_SIZE && 0 < t && size' <= files[t] * SECTOR_SIZE
    ensures var x := Extent(size, FreeNr(0, sb.firstDataSect - 1, bits, n), n);
      var y := Extent(size', SectorOf(sb, t), files[t]);
      && OnDisk(disk, x) && OnDisk(disk, y) && size <= Capacity(x) && size' <= Capacity(y)
      && 0 <= WriteCount(x, pos, |data|) <= |data|
      && Base(x) + pos + WriteCount(x, pos, |data|) <= |disk|
      && var disk' := Store(disk, Base(x) + pos, data[..WriteCount(x, pos, |data|)]);
      && Contents(disk', y) == Contents(disk, y)
      && sb.firstDataSect <= x.start
      && disk'[..sb.firstDataSect * SECTOR_SIZE] == disk[..sb.firstDataSect * SECTOR_SIZE]
  {
    hide Clears, FirstClear, FreeNr, Contents, Contiguous, Store, OnDisk, WriteCount, Exact, Capacity;
    FirstSector(bits, sb, n);
    NewSectorsApartIff(bits, files, sb, n);
    var s := FirstClear(bits);
    RunInMap(bits, files, t);
    BothOnDisk(sb, |bits|, disk, s, n, size, pos, |data|);
    BothOnDisk(sb, |bits|, disk, t, files[t], size', 0, 0);
    var x, y := Extent(size, SectorOf(sb, s), n), Extent(size', SectorOf(sb, t), files[t]);
    WriteLeavesOthers(disk, x, y, pos, data);
    FrontIsSame(disk, sb.firstDataSect * SECTOR_SIZE, Base(x) + pos, data[..WriteCount(x, pos, |data|)]);
  }

  lemma RunInMap(bits: Bits, files: Live, t: nat)
    requires Exact(bits, files) && t in files
    ensures t + files[t] <= |bits|
  {
  }

  lemma BothOnDisk(sb: SuperBlock, bitCount: nat, disk: seq<Byte>, s: nat, n: nat, size: nat, pos: nat, len: nat)
    requires (sb.firstDataSect + bitCount + FSBUF_SECTORS) * SECTOR_SIZE <= |disk| && 0 < s && s + n <= bitCount
    requires pos <= size <= n * SECTOR_SIZE
    ensures var x := Extent(size, SectorOf(sb, s), n);
      && OnDisk(disk, x) && size <= Capacity(x) && 0 <= WriteCount(x, pos, len) <= len
      && Base(x) + pos + WriteCount(x, pos, len) <= |disk| && sb.firstDataSect * SECTOR_SIZE <= Base(x)
  {
  }

  lemma FrontIsSame(disk: seq<Byte>, n: nat, at: nat, data: seq<Byte>)
    requires n <= at && at + |data| <= |disk|
    ensures Store(disk, at, data)[..n] == disk[..n]
  {
  }

  /** open has made a file, with the sector the map gave out for 2048 of them. If the first 2048 clear bits were next to
      each other, the record on the disk names sectors of its own, and what is written to the new file, at any position,
      stays on them. */
  lemma NewFileIsApart(c: InodeSpec.Cache, p: nat, o: InodeCalls.ToOpen, bits: Bits, files: Live, sb: SuperBlock,
                       disk: seq<Byte>, size: nat, pos: nat, data: seq<Byte>, t: nat, size': nat)
    requires InodeSpec.CacheInv(c) && InodeCalls.CallOk(c, InodeCalls.Open(p, o)) && InodeResults.Wants(o)
    requires InodeCalls.Do(c, InodeCalls.Open(p, o)).r >= 0
    requires Exact(bits, files) && |bits| > 0 && bits[0] && t in files && 1 < sb.firstDataSect
    requires 2048 <= Clears(bits) && Contiguous(bits, 2048) && o.start == FreeNr(0, sb.firstDataSect - 1, bits, 2048)
    requires (sb.firstDataSect + |bits| + FSBUF_SECTORS) * SECTOR_SIZE <= |disk|
    requires pos <= size <= 2048 * SECTOR_SIZE && 0 < t && size' <= files[t] * SECTOR_SIZE
    ensures RecordIsApart(InodeCalls.Do(c, InodeCalls.Open(p, o)).c, o.newNum, sb, disk, size, pos, data,
                          Extent(size', SectorOf(sb, t), files[t]))
  {
    hide Clears, FirstClear, FreeNr, InodeSpec.CacheInv, InodeCalls.Do, InodeSpec.RecAt, Contents, Contiguous, Store,
      InodeResults.NowOpen, InodeCalls.CallOk, Exact, OnDisk;
    InodeResults.CreatedMeans(c, p, o);
    WriteIsApart(bits, files, sb, 2048, disk, size, pos, data, t, size');
  }

  /** Data written at pos to the file of inode num, when it has the given size, changes neither y nor what comes before
      the data sectors. */
  ghost predicate RecordIsApart(c: InodeSpec.Cache, num: nat, sb: SuperBlock, disk: seq<Byte>, size: nat, pos: nat,
                                data: seq<Byte>, y: Extent)
  {
    && InodeSpec.CacheShape(c) && InodeSpec.IsInodeNr(c, num) && OnDisk(disk, y) && y.size <= Capacity(y)
    && var rec := InodeSpec.RecAt(c.sects, num);
    && var x := Extent(size, rec.start, rec.sects);
    && OnDisk(disk, x) && size <= Capacity(x) && sb.firstDataSect <= x.start
    && 0 <= WriteCount(x, pos, |data|) <= |data| && Base(x) + pos + WriteCount(x, pos, |data|) <= |disk|
    && var disk' := Store(disk, Base(x) + pos, data[..WriteCount(x, pos, |data|)]);
    && Contents(disk', y) == Contents(disk, y)
    && sb.firstDataSect * SECTOR_SIZE <= |disk|
    && disk'[..sb.firstDataSect * SECTOR_SIZE] == disk[..sb.firstDataSect * SECTOR_SIZE]
  }
}
