/** The inode map, and what creating a file and unlinking it again do to both maps. */
module InodeMap {
  import opened Constants
  import opened FileSpec
  import opened Device
  import opened Bytes
  import opened Bitmap
  import opened Extents
  import opened SectorMap
  import opened FreeMap

  const IMAP_SECT := 2

  function ImapBits(disk: seq<Byte>): Bits
    requires (IMAP_SECT + 1) * SECTOR_SIZE <= |disk|
  {
    BitsOf(disk[IMAP_SECT * SECTOR_SIZE..(IMAP_SECT + 1) * SECTOR_SIZE])
  }

  /** The first clear bit of a byte that has one. */
  method FirstClearBit(b: Byte) returns (k: nat)
    requires b != 0xFF
    ensures k == FirstClear(ByteBits(b)) && k < 8
  {
    k := 0;
    hide Bit;
    if forall j :: 0 <= j < 8 ==> Bit(b, j) {
      AllBitsSet(b);
    }
    while Bit(b, k)
      invariant k < 8 && forall j :: 0 <= j < k ==> Bit(b, j)
      decreases 8 - k
    {
      k := k + 1;
    }
    FirstClearIs(ByteBits(b), k);
  }

  lemma FirstClearIs(bits: Bits, k: nat)
    requires k <= |bits| && (forall j :: 0 <= j < k ==> bits[j]) && (k < |bits| ==> !bits[k])
    ensures FirstClear(bits) == k
  {
  }

  /** Set the first clear bit of the first sector of the map; its number is the new inode's. Although the code
      loops over the sectors it returns after the first one, with 0 if that was full. */
  method AllocImapBit(dev: Device) returns (inodeNr: nat)
    requires dev.Valid() && (IMAP_SECT + 1) * SECTOR_SIZE <= dev.disk.Length
    modifies dev.disk, dev.fsbuf
    ensures var bits := ImapBits(old(dev.disk[..]));
      inodeNr == if FirstClear(bits) < |bits| then FirstClear(bits) else 0
    ensures ImapBits(dev.disk[..]) == Marked(ImapBits(old(dev.disk[..])), 1)
    ensures dev.disk[..IMAP_SECT * SECTOR_SIZE] == old(dev.disk[..IMAP_SECT * SECTOR_SIZE])
    ensures dev.disk[(IMAP_SECT + 1) * SECTOR_SIZE..] == old(dev.disk[(IMAP_SECT + 1) * SECTOR_SIZE..])
  {
    inodeNr := 0;
    dev.ReadSectors(IMAP_SECT, 1);
    ghost var bytes := dev.fsbuf[..SECTOR_SIZE];
    assert dev.disk[..][IMAP_SECT * SECTOR_SIZE..(IMAP_SECT + 1) * SECTOR_SIZE] == bytes;
    var j := 0;
    while j < SECTOR_SIZE && dev.fsbuf[j] == 0xFF
      invariant 0 <= j <= SECTOR_SIZE && forall i :: 0 <= i < j ==> bytes[i] == 0xFF
      decreases SECTOR_SIZE - j
    {
      j := j + 1;
    }
    FullBytes(bytes, j);
    if j < SECTOR_SIZE {
      var k := FirstClearBit(dev.fsbuf[j]);
      inodeNr := j * 8 + k;
      dev.fsbuf[j] := SetBit(dev.fsbuf[j], k);
      dev.WriteSectors(IMAP_SECT, 1);
      assert dev.disk[..][IMAP_SECT * SECTOR_SIZE..(IMAP_SECT + 1) * SECTOR_SIZE] == bytes[j := SetBit(bytes[j], k)];
      MarkFirst(bytes, j, k);
    }
  }

  /** Leading bytes without a clear bit. */
  lemma {:induction false} FullBytes(bytes: seq<Byte>, j: nat)
    requires j <= |bytes| && forall i :: 0 <= i < j ==> bytes[i] == 0xFF
    ensures FirstClear(BitsOf(bytes[..j])) == 8 * j && Marked(BitsOf(bytes[..j]), 1) == BitsOf(bytes[..j])
    ensures j == |bytes| ==> bytes[..j] == bytes
  {
    var bits := BitsOf(bytes[..j]);
    forall x | 0 <= x < |bits|
      ensures bits[x]
    {
      BitsOfAt(bytes[..j], x / 8, x % 8);
      assert 8 * (x / 8) + x % 8 == x;
      OnesBits(x % 8);
    }
    FirstClearIs(bits, |bits|);
    MarkedCount(bits, 1);
  }

  lemma OnesBits(k: nat)
    requires k < 8
    ensures Bit(0xFF, k)
  {
    ShiftCases(k);
  }

  lemma MarkFirst(bytes: seq<Byte>, j: nat, k: nat)
    requires j < |bytes| && forall i :: 0 <= i < j ==> bytes[i] == 0xFF
    requires k == FirstClear(ByteBits(bytes[j])) && k < 8
    ensures BitsOf(bytes[j := SetBit(bytes[j], k)]) == Marked(BitsOf(bytes), 1)
    ensures FirstClear(BitsOf(bytes)) == 8 * j + k
  {
    hide Bit, SetBit;
    var bits, f := BitsOf(bytes), 8 * j + k;
    forall x | 0 <= x <= f
      ensures bits[x] == (x < f)
    {
      BitsOfAt(bytes, x / 8, x % 8);
      assert 8 * (x / 8) + x % 8 == x;
      if x / 8 < j {
        OnesBits(x % 8);
      } else {
        BitAt(bytes[j], x % 8);
      }
    }
    FirstClearIs(bits, f);
    MarkOneOnly(bits, f);
    SetOne(bytes, j, k);
  }

  lemma SetOne(bytes: seq<Byte>, i: nat, k: nat)
    requires i < |bytes| && k < 8
    ensures BitsOf(bytes[i := SetBit(bytes[i], k)]) == BitsOf(bytes)[8 * i + k := true]
  {
    hide Bit, SetBit;
    var bytes' := bytes[i := SetBit(bytes[i], k)];
    forall x | 0 <= x < 8 * |bytes|
      ensures BitsOf(bytes')[x] == BitsOf(bytes)[8 * i + k := true][x]
    {
      BitsOfAt(bytes, x / 8, x % 8);
      BitsOfAt(bytes', x / 8, x % 8);
      assert 8 * (x / 8) + x % 8 == x;
      SetBitSets(bytes[i], k, x % 8);
    }
  }

  /** Marking one bit marks the first clear one. */
  lemma MarkOneOnly(bits: Bits, f: nat)
    requires f == FirstClear(bits) < |bits|
    ensures Marked(bits, 1) == bits[f := true]
  {
    ClearsBeforeFirst(bits);
    forall i | 0 <= i < |bits|
      ensures Marked(bits, 1)[i] == bits[f := true][i]
    {
      MarkedAt(bits, 1, i);
      if i <= f {
        assert bits[..i] == bits[..f][..i];
        AllSet(bits[..i]);
      } else {
        ClearsWithin(bits, f, f + 1);
        ClearsWithin(bits, f + 1, i);
      }
    }
  }

  /** Clear the bit of an inode that is being removed. */
  method FreeImapBit(dev: Device, inodeNr: nat)
    requires dev.Valid() && (IMAP_SECT + 1) * SECTOR_SIZE <= dev.disk.Length
    requires inodeNr / 8 < SECTOR_SIZE && ImapBits(dev.disk[..])[inodeNr]
    modifies dev.disk, dev.fsbuf
    ensures ImapBits(dev.disk[..]) == Cleared(ImapBits(old(dev.disk[..])), inodeNr, 1)
    ensures dev.disk[..IMAP_SECT * SECTOR_SIZE] == old(dev.disk[..IMAP_SECT * SECTOR_SIZE])
    ensures dev.disk[(IMAP_SECT + 1) * SECTOR_SIZE..] == old(dev.disk[(IMAP_SECT + 1) * SECTOR_SIZE..])
  {
    var byteIdx, bitIdx := inodeNr / 8, inodeNr % 8;
    dev.ReadSectors(IMAP_SECT, 1);
    ghost var bytes := dev.fsbuf[..SECTOR_SIZE];
    assert dev.disk[..][IMAP_SECT * SECTOR_SIZE..(IMAP_SECT + 1) * SECTOR_SIZE] == bytes;
    BitsOfAt(bytes, byteIdx, bitIdx);
    assert 8 * byteIdx + bitIdx == inodeNr;
    assert Bit(dev.fsbuf[byteIdx], bitIdx);
    dev.fsbuf[byteIdx] := ClearBit(dev.fsbuf[byteIdx], bitIdx);
    dev.WriteSectors(IMAP_SECT, 1);
    assert dev.disk[..][IMAP_SECT * SECTOR_SIZE..(IMAP_SECT + 1) * SECTOR_SIZE]
      == bytes[byteIdx := ClearBit(bytes[byteIdx], bitIdx)];
    ClearOne(bytes, byteIdx, bitIdx);
  }

  lemma ClearOne(bytes: seq<Byte>, i: nat, k: nat)
    requires i < |bytes| && k < 8
    ensures BitsOf(bytes[i := ClearBit(bytes[i], k)]) == Cleared(BitsOf(bytes), 8 * i + k, 1)
  {
    hide Bit, ClearBit;
    var bytes' := bytes[i := ClearBit(bytes[i], k)];
    forall x | 0 <= x < 8 * |bytes|
      ensures BitsOf(bytes')[x] == Cleared(BitsOf(bytes), 8 * i + k, 1)[x]
    {
      BitsOfAt(bytes, x / 8, x % 8);
      BitsOfAt(bytes', x / 8, x % 8);
      assert 8 * (x / 8) + x % 8 == x;
      ClearBitClears(bytes[i], k, x % 8);
    }
  }

  /** The two maps are apart: what changes the sector map leaves the inode map alone, and the other way round. */
  lemma MapsApart(disk: seq<Byte>, disk': seq<Byte>, sb: SuperBlock)
    requires HasMap(disk, sb) && |disk'| == |disk| && 0 < sb.imapSects && (IMAP_SECT + 1) * SECTOR_SIZE <= |disk|
    ensures SameOutsideMap(disk, disk', sb) ==> ImapBits(disk') == ImapBits(disk)
    ensures disk'[(IMAP_SECT + 1) * SECTOR_SIZE..] == disk[(IMAP_SECT + 1) * SECTOR_SIZE..] ==>
      MapBytes(disk', sb) == MapBytes(disk, sb)
  {
    var b, n := (IMAP_SECT + 1) * SECTOR_SIZE, MapStart(sb) * SECTOR_SIZE;
    var m := (MapStart(sb) + sb.smapSects) * SECTOR_SIZE;
    if SameOutsideMap(disk, disk', sb) {
      SameSlice(disk, disk', 0, n, IMAP_SECT * SECTOR_SIZE, b);
    }
    if disk'[b..] == disk[b..] {
      SameSlice(disk, disk', b, |disk|, n, m);
    }
  }

  /** What is the same from lo to hi is the same on each part of that. */
  lemma SameSlice(x: seq<Byte>, y: seq<Byte>, lo: nat, hi: nat, a: nat, b: nat)
    requires |x| == |y| && lo <= a <= b <= hi <= |x| && x[lo..hi] == y[lo..hi]
    ensures x[a..b] == y[a..b]
  {
    forall k | a <= k < b
      ensures x[k] == y[k]
    {
      assert x[k] == x[lo..hi][k - lo] && y[k] == y[lo..hi][k - lo];
    }
  }

  // ---------- creating and unlinking ----------

  /** The bit of the first sector a file was given. */
  function StartBit(startSect: nat, sb: SuperBlock): int {
    startSect - sb.firstDataSect + 1
  }

  /** After a successful allocation the run that unlink will clear starts at the first bit that was free, lies
      inside the map and is set, so none of unlink's assertions can fail. */
  lemma AllocatedRun(disk0: seq<Byte>, disk1: seq<Byte>, sb: SuperBlock, n: nat)
    requires HasMap(disk0, sb) && SameOutsideMap(disk0, disk1, sb) && 0 < n
    requires BitsOf(MapBytes(disk1, sb)) == Marked(BitsOf(MapBytes(disk0, sb)), n)
    requires n <= Clears(BitsOf(MapBytes(disk0, sb)))
    ensures var bits := BitsOf(MapBytes(disk0, sb));
      var start := FreeNr(0, sb.firstDataSect - 1, bits, n);
      && StartBit(start, sb) == FirstClear(bits) && FirstClear(bits) + n <= sb.smapSects * SECTOR_BITS
      && RunSet(disk1, MapStart(sb) * SECTOR_SIZE, FirstClear(bits), n)
  {
    var bits := BitsOf(MapBytes(disk0, sb));
    var at := MapStart(sb) * SECTOR_SIZE;
    RunIsMarked(bits, n);
    forall q, k | 0 <= q < |disk1| && 0 <= k < 8 && FirstClear(bits) <= 8 * (q - at) + k < FirstClear(bits) + n
      ensures Bit(disk1[q], k)
    {
      hide Bit;
      BitsOfAt(MapBytes(disk1, sb), q - at, k);
      assert MapBytes(disk1, sb)[q - at] == disk1[q];
    }
  }

  /** Creating a file and unlinking it restores the sector map exactly when the first n free sectors were next
      to each other. (disk0, disk1 and disk2: before, after AllocSmapBit, after FreeSmapBits.) */
  lemma UnlinkRestoresMapIff(disk0: seq<Byte>, disk1: seq<Byte>, disk2: seq<Byte>, sb: SuperBlock, n: nat)
    requires HasMap(disk0, sb) && SameOutsideMap(disk0, disk1, sb) && 0 < n
    requires BitsOf(MapBytes(disk1, sb)) == Marked(BitsOf(MapBytes(disk0, sb)), n)
    requires n <= Clears(BitsOf(MapBytes(disk0, sb)))
    requires Freed(disk1, disk2, MapStart(sb) * SECTOR_SIZE, FirstClear(BitsOf(MapBytes(disk0, sb))), n)
    ensures disk2 == disk0 <==> Contiguous(BitsOf(MapBytes(disk0, sb)), n)
  {
    hide BitsOf, Marked, Clears, FirstClear, Contiguous, Freed, Cleared;
    var bits := BitsOf(MapBytes(disk0, sb));
    AllocatedRun(disk0, disk1, sb, n);
    FreedMap(disk1, disk2, sb, FirstClear(bits), n);
    AllocateThenFreeIff(bits, n);
    if BitsOf(MapBytes(disk2, sb)) == bits {
      SameBytes(MapBytes(disk2, sb), MapBytes(disk0, sb));
      SameDisk(disk0, disk1, disk2, sb);
    }
  }

  /** A disk is its map and what lies outside it. */
  lemma SameDisk(disk0: seq<Byte>, disk1: seq<Byte>, disk2: seq<Byte>, sb: SuperBlock)
    requires HasMap(disk0, sb) && SameOutsideMap(disk0, disk1, sb)
    requires HasMap(disk1, sb) && SameOutsideMap(disk1, disk2, sb)
    requires HasMap(disk2, sb) && MapBytes(disk2, sb) == MapBytes(disk0, sb)
    ensures disk2 == disk0
  {
    var a, b := MapStart(sb) * SECTOR_SIZE, (MapStart(sb) + sb.smapSects) * SECTOR_SIZE;
    assert disk2 == disk2[..a] + MapBytes(disk2, sb) + disk2[b..];
    assert disk0 == disk0[..a] + MapBytes(disk0, sb) + disk0[b..];
  }

  lemma SameBytes(a: seq<Byte>, b: seq<Byte>)
    requires |a| == |b| && BitsOf(a) == BitsOf(b)
    ensures a == b
  {
    forall i | 0 <= i < |a|
      ensures a[i] == b[i]
    {
      hide Bit;
      forall k | 0 <= k < 8
        ensures Bit(a[i], k) == Bit(b[i], k)
      {
        BitsOfAt(a, i, k);
        BitsOfAt(b, i, k);
      }
      SameBits(a[i], b[i]);
    }
  }
}
