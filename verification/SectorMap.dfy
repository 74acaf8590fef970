/** The sector map of the file system: allocating sectors for a file and freeing them again. */
module SectorMap {
  import opened Constants
  import opened FileSpec
  import opened Device
  import opened Bytes
  import opened Bitmap

  /** The number of the first sector allocated, given the bits from base on: free if there was one already. */
  function FreeNr(free: nat, base: nat, bits: Bits, n: nat): nat {
    if free != 0 || n == 0 || FirstClear(bits) == |bits| then free else base + FirstClear(bits)
  }

  lemma FreeNrAppend(free: nat, base: nat, a: Bits, b: Bits, n: nat)
    requires 0 < base
    ensures FreeNr(FreeNr(free, base, a, n), base + |a|, b, Left(a, n)) == FreeNr(free, base, a + b, n)
  {
    FirstClearAppend(a, b);
    if FirstClear(a) == |a| {
      AllSet(a);
    }
  }

  /** What one more bit does to the map, to the number of bits still to be set, and to the first number. */
  lemma MarkOneBit(bits: Bits, k: nat, n: nat, free: nat, base: nat)
    requires k < |bits| && 0 < base && 0 < Left(bits[..k], n)
    ensures Marked(bits[..k + 1], n) + bits[k + 1..] == (Marked(bits[..k], n) + bits[k..])[k := true]
    ensures Left(bits[..k + 1], n) == Left(bits[..k], n) - if bits[k] then 0 else 1
    ensures FreeNr(free, base, bits[..k + 1], n) ==
      if FreeNr(free, base, bits[..k], n) == 0 && !bits[k] then base + k else FreeNr(free, base, bits[..k], n)
  {
    assert bits[..k + 1] == bits[..k] + [bits[k]];
    MarkedAppend(bits[..k], [bits[k]], n);
    FreeNrAppend(free, base, bits[..k], [bits[k]], n);
    assert [bits[k]][..0] == [];
    assert Clears([bits[k]]) == if bits[k] then 0 else 1;
    assert Marked([bits[k]], Left(bits[..k], n)) == [true];
  }

  lemma MarkStart(n: nat, free: nat, base: nat)
    ensures Marked([], n) == [] && Left([], n) == n && FreeNr(free, base, [], n) == free && BitsOf([]) == []
  {
  }

  lemma BitAt(b: Byte, k: nat)
    requires k < 8
    ensures Bit(b, k) == ByteBits(b)[k]
  {
    hide Bit;
  }

  /** Nothing left to set: the rest stays as it is. */
  lemma MarkNoMore(bits: Bits, k: nat, n: nat, free: nat, base: nat)
    requires k <= |bits| && 0 < base && (Left(bits[..k], n) == 0 || k == |bits|)
    ensures Marked(bits, n) == Marked(bits[..k], n) + bits[k..]
    ensures Left(bits, n) == Left(bits[..k], n) && FreeNr(free, base, bits, n) == FreeNr(free, base, bits[..k], n)
  {
    assert bits[..k] + bits[k..] == bits;
    MarkedAppend(bits[..k], bits[k..], n);
    FreeNrAppend(free, base, bits[..k], bits[k..], n);
    MarkedNone(bits[k..]);
  }

  /** One byte: set its clear bits, but no more than n. */
  method MarkByte(b: Byte, n: nat, free: nat, base: nat) returns (b': Byte, left: nat, free': nat, dirty: bool)
    requires 0 < base
    ensures ByteBits(b') == Marked(ByteBits(b), n) && left == Left(ByteBits(b), n)
    ensures free' == FreeNr(free, base, ByteBits(b), n)
    ensures !dirty ==> b' == b
  {
    hide *;
    b', left, free', dirty := b, n, free, false;
    var k := 0;
    ghost var bits := ByteBits(b);
    MarkStart(n, free, base);
    assert bits[..0] == [] && [] + bits[0..] == bits;
    while k < 8 && left > 0
      invariant 0 <= k <= 8
      invariant ByteBits(b') == Marked(bits[..k], n) + bits[k..] && left == Left(bits[..k], n)
      invariant free' == FreeNr(free, base, bits[..k], n)
      invariant !dirty ==> b' == b
      decreases 8 - k
    {
      MarkOneBit(bits, k, n, free, base);
      BitAt(b', k);
      assert ByteBits(b')[k] == bits[k];
      if !Bit(b', k) {
        if free' == 0 {
          free' := base + k;
        }
        SetBitBits(b', k);
        b' := SetBit(b', k);
        dirty := true;
        left := left - 1;
      } else {
        assert ByteBits(b')[k := true] == ByteBits(b');
      }
      k := k + 1;
    }
    MarkNoMore(bits, k, n, free, base);
  }

  lemma SetBitBits(b: Byte, k: nat)
    requires k < 8
    ensures ByteBits(SetBit(b, k)) == ByteBits(b)[k := true]
  {
    hide Bit, SetBit;
    forall j | 0 <= j < 8
      ensures ByteBits(SetBit(b, k))[j] == ByteBits(b)[k := true][j]
    {
      SetBitSets(b, k, j);
    }
  }

  /** Two pieces marked one after the other are one piece marked. */
  lemma MarkTwo(a: Bits, b: Bits, n: nat, free: nat, base: nat)
    requires 0 < base
    ensures Marked(a + b, n) == Marked(a, n) + Marked(b, Left(a, n))
    ensures Left(a + b, n) == Left(b, Left(a, n))
    ensures FreeNr(free, base, a + b, n) == FreeNr(FreeNr(free, base, a, n), base + |a|, b, Left(a, n))
  {
    MarkedAppend(a, b, n);
    FreeNrAppend(free, base, a, b, n);
  }

  /** The bytes from j to k have been marked, too. */
  lemma MarkOnePiece(bytes: seq<Byte>, j: nat, k: nat, done: seq<Byte>, piece: seq<Byte>, n: nat, free: nat, base: nat)
    requires j <= k <= |bytes| && 0 < base && |done| == j
    requires BitsOf(done) == Marked(BitsOf(bytes[..j]), n)
    requires BitsOf(piece) == Marked(BitsOf(bytes[j..k]), Left(BitsOf(bytes[..j]), n))
    ensures BitsOf(done + piece) == Marked(BitsOf(bytes[..k]), n)
    ensures Left(BitsOf(bytes[..k]), n) == Left(BitsOf(bytes[j..k]), Left(BitsOf(bytes[..j]), n))
    ensures FreeNr(free, base, BitsOf(bytes[..k]), n) ==
      FreeNr(FreeNr(free, base, BitsOf(bytes[..j]), n), base + 8 * j, BitsOf(bytes[j..k]), Left(BitsOf(bytes[..j]), n))
  {
    assert bytes[..k] == bytes[..j] + bytes[j..k];
    BitsOfAppend(bytes[..j], bytes[j..k]);
    BitsOfAppend(done, piece);
    MarkTwo(BitsOf(bytes[..j]), BitsOf(bytes[j..k]), n, free, base);
  }

  lemma MarkOneByte(bytes: seq<Byte>, j: nat, done: seq<Byte>, b: Byte, n: nat, free: nat, base: nat)
    requires j < |bytes| && 0 < base && |done| == j
    requires BitsOf(done) == Marked(BitsOf(bytes[..j]), n)
    requires ByteBits(b) == Marked(ByteBits(bytes[j]), Left(BitsOf(bytes[..j]), n))
    ensures BitsOf(done + [b]) == Marked(BitsOf(bytes[..j + 1]), n)
    ensures Left(BitsOf(bytes[..j + 1]), n) == Left(ByteBits(bytes[j]), Left(BitsOf(bytes[..j]), n))
    ensures FreeNr(free, base, BitsOf(bytes[..j + 1]), n) ==
      FreeNr(FreeNr(free, base, BitsOf(bytes[..j]), n), base + 8 * j, ByteBits(bytes[j]), Left(BitsOf(bytes[..j]), n))
  {
    assert bytes[j..j + 1] == [bytes[j]];
    OneByteBits(b);
    OneByteBits(bytes[j]);
    MarkOnePiece(bytes, j, j + 1, done, [b], n, free, base);
  }

  lemma OneByteBits(b: Byte)
    ensures BitsOf([b]) == ByteBits(b)
  {
    assert [b][..0] == [];
  }

  /** The bytes behind the ones that have been marked stay as they are. */
  lemma MarkNoMoreBytes(bytes: seq<Byte>, j: nat, done: seq<Byte>, n: nat, free: nat, base: nat)
    requires j <= |bytes| && 0 < base && |done| == j
    requires Left(BitsOf(bytes[..j]), n) == 0 || j == |bytes|
    requires BitsOf(done) == Marked(BitsOf(bytes[..j]), n)
    ensures BitsOf(done + bytes[j..]) == Marked(BitsOf(bytes), n)
    ensures Left(BitsOf(bytes), n) == Left(BitsOf(bytes[..j]), n)
    ensures FreeNr(free, base, BitsOf(bytes), n) == FreeNr(free, base, BitsOf(bytes[..j]), n)
  {
    BitsOfAppend(bytes[..j], bytes[j..]);
    BitsOfAppend(done, bytes[j..]);
    assert bytes[..j] + bytes[j..] == bytes;
    MarkNoMore(BitsOf(bytes), 8 * j, n, free, base);
    assert BitsOf(bytes)[..8 * j] == BitsOf(bytes[..j]);
  }

  lemma BufferRoom(dev: Device)
    requires dev.Valid()
    ensures 0 < SECTOR_SIZE <= dev.fsbuf.Length && dev.fsbuf != dev.disk
  {
  }

  /** The sector in the buffer: go through its bytes as long as something is left to set. */
  method MarkSector(dev: Device, n: nat, free: nat, base: nat) returns (left: nat, free': nat, dirty: bool)
    requires dev.Valid() && 0 < base
    modifies dev.fsbuf
    ensures BitsOf(dev.fsbuf[..SECTOR_SIZE]) == Marked(old(BitsOf(dev.fsbuf[..SECTOR_SIZE])), n)
    ensures left == Left(old(BitsOf(dev.fsbuf[..SECTOR_SIZE])), n)
    ensures free' == FreeNr(free, base, old(BitsOf(dev.fsbuf[..SECTOR_SIZE])), n)
    ensures !dirty ==> dev.fsbuf[..] == old(dev.fsbuf[..])
  {
    hide *;
    BufferRoom(dev);
    left, free', dirty := n, free, false;
    var j := 0;
    ghost var bytes := dev.fsbuf[..SECTOR_SIZE];
    MarkStart(n, free, base);
    assert bytes[..0] == [] && dev.fsbuf[..0] == [];
    while j < SECTOR_SIZE && left > 0
      invariant 0 <= j <= SECTOR_SIZE
      invariant BitsOf(dev.fsbuf[..j]) == Marked(BitsOf(bytes[..j]), n) && left == Left(BitsOf(bytes[..j]), n)
      invariant free' == FreeNr(free, base, BitsOf(bytes[..j]), n)
      invariant forall i :: j <= i < SECTOR_SIZE ==> dev.fsbuf[i] == bytes[i]
      invariant !dirty ==> dev.fsbuf[..] == old(dev.fsbuf[..])
      decreases SECTOR_SIZE - j
    {
      var b, d;
      ghost var done := dev.fsbuf[..j];
      b, left, free', d := MarkByte(dev.fsbuf[j], left, free', base + 8 * j);
      dev.fsbuf[j] := b;
      dirty := dirty || d;
      assert dev.fsbuf[..j + 1] == done + [b];
      MarkOneByte(bytes, j, done, b, n, free, base);
      j := j + 1;
    }
    MarkNoMoreBytes(bytes, j, dev.fsbuf[..j], n, free, base);
    assert dev.fsbuf[..j] + bytes[j..] == dev.fsbuf[..SECTOR_SIZE];
  }

  // ---------- the map on the disk ----------

  /** The fields of the super block that locate the sector map and the data sectors. */
  datatype SuperBlock = SuperBlock(imapSects: nat, smapSects: nat, firstDataSect: nat)

  function MapStart(sb: SuperBlock): nat {
    2 + sb.imapSects
  }

  predicate HasMap(disk: seq<Byte>, sb: SuperBlock) {
    (MapStart(sb) + sb.smapSects) * SECTOR_SIZE <= |disk| && 1 < sb.firstDataSect
  }

  function MapBytes(disk: seq<Byte>, sb: SuperBlock): seq<Byte>
    requires HasMap(disk, sb)
  {
    disk[MapStart(sb) * SECTOR_SIZE..(MapStart(sb) + sb.smapSects) * SECTOR_SIZE]
  }

  /** Nothing outside the sector map differs. */
  predicate SameOutsideMap(disk: seq<Byte>, disk': seq<Byte>, sb: SuperBlock)
    requires HasMap(disk, sb)
  {
    && |disk'| == |disk|
    && disk'[..MapStart(sb) * SECTOR_SIZE] == disk[..MapStart(sb) * SECTOR_SIZE]
    && disk'[(MapStart(sb) + sb.smapSects) * SECTOR_SIZE..] == disk[(MapStart(sb) + sb.smapSects) * SECTOR_SIZE..]
  }

  /** Set the first n clear bits of the map. Bit b stands for data sector b - 1. ok says that there were n. */
  method AllocSmapBit(dev: Device, sb: SuperBlock, n: nat) returns (freeSect: nat, ok: bool)
    requires dev.Valid() && HasMap(dev.disk[..], sb)
    modifies dev.disk, dev.fsbuf
    ensures SameOutsideMap(old(dev.disk[..]), dev.disk[..], sb)
    ensures BitsOf(MapBytes(dev.disk[..], sb)) == Marked(old(BitsOf(MapBytes(dev.disk[..], sb))), n)
    ensures ok <==> n <= Clears(old(BitsOf(MapBytes(dev.disk[..], sb))))
    ensures freeSect == FreeNr(0, sb.firstDataSect - 1, old(BitsOf(MapBytes(dev.disk[..], sb))), n)
  {
    ghost var disk0 := dev.disk[..];
    ghost var bytes := MapBytes(disk0, sb);
    ghost var base := sb.firstDataSect - 1;
    var left := n;
    var i := 0;
    freeSect := 0;
    ghost var done: seq<Byte> := [];
    assert BitsOf(bytes[..0]) == [] && Marked([], n) == [] && Left([], n) == n && FreeNr(0, base, [], n) == 0;
    hide Marked, Left, FreeNr, FirstClear, Clears, BitsOf;
    while i < sb.smapSects
      invariant 0 <= i <= sb.smapSects && |done| == i * SECTOR_SIZE
      invariant dev.disk[..] == Store(disk0, MapStart(sb) * SECTOR_SIZE, done)
      invariant BitsOf(done) == Marked(BitsOf(bytes[..|done|]), n)
      invariant left == Left(BitsOf(bytes[..|done|]), n) && freeSect == FreeNr(0, base, BitsOf(bytes[..|done|]), n)
    {
      ghost var piece;
      left, freeSect, piece := AllocInSector(dev, sb, i, left, freeSect, disk0, done);
      MarkOnePiece(bytes, i * SECTOR_SIZE, (i + 1) * SECTOR_SIZE, done, piece, n, 0, base);
      done := done + piece;
      i := i + 1;
      if left == 0 {
        break;
      }
    }
    MarkNoMoreBytes(bytes, |done|, done, n, 0, base);
    StoreInMap(disk0, sb, done);
    ok := left == 0;
    LeftIsZero(BitsOf(bytes), n);
  }

  lemma StoreInMap(disk: seq<Byte>, sb: SuperBlock, done: seq<Byte>)
    requires HasMap(disk, sb) && |done| <= sb.smapSects * SECTOR_SIZE
    ensures var disk' := Store(disk, MapStart(sb) * SECTOR_SIZE, done);
      SameOutsideMap(disk, disk', sb) && MapBytes(disk', sb) == done + MapBytes(disk, sb)[|done|..]
  {
  }

  lemma LeftIsZero(bits: Bits, n: nat)
    ensures Left(bits, n) == 0 <==> n <= Clears(bits)
  {
  }

  /** Sector i of the map: read it, go through it, write it back if it has changed. */
  method AllocInSector(dev: Device, sb: SuperBlock, i: nat, n: nat, free: nat,
                       ghost disk0: seq<Byte>, ghost done: seq<Byte>)
      returns (left: nat, free': nat, ghost piece: seq<Byte>)
    requires dev.Valid() && HasMap(disk0, sb) && i < sb.smapSects && |done| == i * SECTOR_SIZE
    requires |disk0| == dev.disk.Length && dev.disk[..] == Store(disk0, MapStart(sb) * SECTOR_SIZE, done)
    modifies dev.disk, dev.fsbuf
    ensures |piece| == SECTOR_SIZE && dev.disk[..] == Store(disk0, MapStart(sb) * SECTOR_SIZE, done + piece)
    ensures var bits := BitsOf(MapBytes(disk0, sb)[i * SECTOR_SIZE..(i + 1) * SECTOR_SIZE]);
      && BitsOf(piece) == Marked(bits, n) && left == Left(bits, n)
      && free' == FreeNr(free, sb.firstDataSect - 1 + 8 * (i * SECTOR_SIZE), bits, n)
  {
    hide Marked, Left, FreeNr, FirstClear, Clears, BitsOf, Store, MapBytes;
    var s := MapStart(sb) + i;
    MapSector(disk0, sb, i, done);
    dev.ReadSectors(s, 1);
    assert dev.disk[s * SECTOR_SIZE..(s + 1) * SECTOR_SIZE] == dev.disk[..][s * SECTOR_SIZE..(s + 1) * SECTOR_SIZE];
    ghost var before := dev.fsbuf[..SECTOR_SIZE];
    var dirty;
    left, free', dirty := MarkSector(dev, n, free, i * SECTOR_BITS + sb.firstDataSect - 1);
    piece := dev.fsbuf[..SECTOR_SIZE];
    StoredMore(disk0, MapStart(sb) * SECTOR_SIZE, done, piece);
    if dirty {
      dev.WriteSectors(s, 1);
    }
  }

  lemma MapSector(disk0: seq<Byte>, sb: SuperBlock, i: nat, done: seq<Byte>)
    requires HasMap(disk0, sb) && i < sb.smapSects && |done| == i * SECTOR_SIZE
    ensures (i + 1) * SECTOR_SIZE <= |MapBytes(disk0, sb)| && (MapStart(sb) + i + 1) * SECTOR_SIZE <= |disk0|
    ensures Store(disk0, MapStart(sb) * SECTOR_SIZE, done)
              [(MapStart(sb) + i) * SECTOR_SIZE..(MapStart(sb) + i + 1) * SECTOR_SIZE]
      == MapBytes(disk0, sb)[i * SECTOR_SIZE..(i + 1) * SECTOR_SIZE]
  {
    var at := MapStart(sb) * SECTOR_SIZE;
    var a := Store(disk0, at, done)[at + i * SECTOR_SIZE..at + (i + 1) * SECTOR_SIZE];
    var b := MapBytes(disk0, sb)[i * SECTOR_SIZE..(i + 1) * SECTOR_SIZE];
    assert |a| == |b| == SECTOR_SIZE;
    forall k | 0 <= k < SECTOR_SIZE
      ensures a[k] == b[k]
    {
      assert a[k] == disk0[at + i * SECTOR_SIZE + k];
      assert b[k] == MapBytes(disk0, sb)[i * SECTOR_SIZE + k];
    }
  }

  /** What follows the part stored: writing it there, or finding it there already. */
  lemma StoredMore(disk0: seq<Byte>, at: nat, done: seq<Byte>, piece: seq<Byte>)
    requires at + |done| + |piece| <= |disk0|
    ensures Store(Store(disk0, at, done), at + |done|, piece) == Store(disk0, at, done + piece)
    ensures Store(disk0, at, done)[at + |done|..at + |done| + |piece|] == piece ==>
              Store(disk0, at, done + piece) == Store(disk0, at, done)
  {
    var stored := Store(disk0, at, done);
    if stored[at + |done|..at + |done| + |piece|] == piece {
      forall k | 0 <= k < |disk0|
        ensures Store(disk0, at, done + piece)[k] == stored[k]
      {
        if at + |done| <= k < at + |done| + |piece| {
          assert stored[at + |done|..at + |done| + |piece|][k - at - |done|] == stored[k];
        }
      }
    }
  }
}
