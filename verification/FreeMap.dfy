/** Freeing the sectors of a file: first byte bit by bit, whole bytes, then the low bits of the last byte. */
module FreeMap {
  import opened Constants
  import opened FileSpec
  import opened Device
  import opened Bytes
  import opened Bitmap
  import opened SectorMap

  // ---------- bytes ----------

  lemma AllBitsSet(b: Byte)
    requires forall k :: 0 <= k < 8 ==> Bit(b, k)
    ensures b == 0xFF
  {
    assert Bit(b, 0) && Bit(b, 1) && Bit(b, 2) && Bit(b, 3) && Bit(b, 4) && Bit(b, 5) && Bit(b, 6) && Bit(b, 7);
  }

  lemma SameBits(b: Byte, c: Byte)
    requires forall k :: 0 <= k < 8 ==> Bit(b, k) == Bit(c, k)
    ensures b == c
  {
    assert Bit(b, 0) == Bit(c, 0) && Bit(b, 1) == Bit(c, 1) && Bit(b, 2) == Bit(c, 2) && Bit(b, 3) == Bit(c, 3);
    assert Bit(b, 4) == Bit(c, 4) && Bit(b, 5) == Bit(c, 5) && Bit(b, 6) == Bit(c, 6) && Bit(b, 7) == Bit(c, 7);
  }

  lemma ZeroBits(k: nat)
    requires k < 8
    ensures !Bit(0, k)
  {
    ShiftCases(k);
  }

  /** The byte without its m low bits. */
  function WithoutLow(b: Byte, m: nat): Byte
    requires m < 8
  {
    b & (0xFF << m)
  }

  lemma WithoutLowBits(b: Byte, m: nat, k: nat)
    requires m < 8 && k < 8
    ensures Bit(WithoutLow(b, m), k) == (Bit(b, k) && m <= k)
  {
    ShiftCases(m);
    ShiftCases(k);
  }

  /** The m low bits. */
  function LowMask(m: nat): Byte
    requires m < 8
  {
    !(0xFF << m)
  }

  lemma LowBitsSet(b: Byte, m: nat)
    requires m < 8 && forall k :: 0 <= k < m ==> Bit(b, k)
    ensures b & LowMask(m) == LowMask(m)
  {
    ShiftCases(m);
    assert forall k :: 0 <= k < m ==> Bit(b, k);
    if m > 0 { assert Bit(b, 0); }
    if m > 1 { assert Bit(b, 1); }
    if m > 2 { assert Bit(b, 2); }
    if m > 3 { assert Bit(b, 3); }
    if m > 4 { assert Bit(b, 4); }
    if m > 5 { assert Bit(b, 5); }
    if m > 6 { assert Bit(b, 6); }
  }

  // ---------- what has been freed ----------

  /** v is v0 with the m bits from bit s on cleared, bit 0 being the lowest bit of byte at. */
  ghost predicate Freed(v0: seq<Byte>, v: seq<Byte>, at: nat, s: nat, m: nat) {
    && |v| == |v0|
    && forall q, k :: 0 <= q < |v| && 0 <= k < 8 ==>
      Bit(v[q], k) == (Bit(v0[q], k) && !(s <= 8 * (q - at) + k < s + m))
  }

  lemma FreedOne(v0: seq<Byte>, v: seq<Byte>, at: nat, s: nat, m: nat, p: nat, k: nat)
    requires Freed(v0, v, at, s, m) && k < 8 && p < |v| && 8 * (p - at) + k == s + m
    ensures Freed(v0, v[p := ClearBit(v[p], k)], at, s, m + 1)
  {
    forall j | 0 <= j < 8
      ensures Bit(ClearBit(v[p], k), j) == (j != k && Bit(v[p], j))
    {
      ClearBitClears(v[p], k, j);
    }
    hide Bit, ClearBit;
  }

  lemma FreedByte(v0: seq<Byte>, v: seq<Byte>, at: nat, s: nat, m: nat, p: nat)
    requires Freed(v0, v, at, s, m) && p < |v| && 8 * (p - at) == s + m
    ensures Freed(v0, v[p := 0], at, s, m + 8)
  {
    forall j | 0 <= j < 8
      ensures !Bit(0, j)
    {
      ZeroBits(j);
    }
    hide Bit;
  }

  lemma FreedLow(v0: seq<Byte>, v: seq<Byte>, at: nat, s: nat, m: nat, p: nat, left: nat)
    requires Freed(v0, v, at, s, m) && p < |v| && left < 8 && (left == 0 || 8 * (p - at) == s + m)
    ensures Freed(v0, v[p := WithoutLow(v[p], left)], at, s, m + left)
  {
    forall j | 0 <= j < 8
      ensures Bit(WithoutLow(v[p], left), j) == (Bit(v[p], j) && left <= j)
    {
      WithoutLowBits(v[p], left, j);
    }
    hide Bit, WithoutLow;
  }

  // ---------- a window of one sector on the disk ----------

  /** The disk as it will be once the sector in the buffer has been written back to s. */
  ghost function Window(dev: Device, s: nat): (r: seq<Byte>)
    requires dev.Valid() && (s + 1) * SECTOR_SIZE <= dev.disk.Length
    reads dev.disk, dev.fsbuf
    ensures |r| == dev.disk.Length
  {
    Store(dev.disk[..], s * SECTOR_SIZE, dev.fsbuf[..SECTOR_SIZE])
  }

  method Open(dev: Device, s: nat)
    requires dev.Valid() && (s + 1) * SECTOR_SIZE <= dev.disk.Length
    modifies dev.fsbuf
    ensures Window(dev, s) == dev.disk[..]
  {
    dev.ReadSectors(s, 1);
    assert dev.disk[s * SECTOR_SIZE..(s + 1) * SECTOR_SIZE] == dev.disk[..][s * SECTOR_SIZE..(s + 1) * SECTOR_SIZE];
  }

  method Close(dev: Device, s: nat)
    requires dev.Valid() && (s + 1) * SECTOR_SIZE <= dev.disk.Length
    modifies dev.disk
    ensures dev.disk[..] == old(Window(dev, s))
  {
    dev.WriteSectors(s, 1);
  }

  /** Move the window to the next sector. */
  method Turn(dev: Device, s: nat)
    requires dev.Valid() && (s + 2) * SECTOR_SIZE <= dev.disk.Length
    modifies dev.disk, dev.fsbuf
    ensures Window(dev, s + 1) == old(Window(dev, s))
  {
    Close(dev, s);
    Open(dev, s + 1);
  }

  method Put(dev: Device, s: nat, i: nat, b: Byte)
    requires dev.Valid() && (s + 1) * SECTOR_SIZE <= dev.disk.Length && i < SECTOR_SIZE
    modifies dev.fsbuf
    ensures Window(dev, s) == old(Window(dev, s))[s * SECTOR_SIZE + i := b]
  {
    dev.fsbuf[i] := b;
  }

  lemma Seen(dev: Device, s: nat, i: nat)
    requires dev.Valid() && (s + 1) * SECTOR_SIZE <= dev.disk.Length && i < SECTOR_SIZE
    ensures Window(dev, s)[s * SECTOR_SIZE + i] == dev.fsbuf[i]
  {
  }

  // ---------- the three phases ----------

  /** C division, which truncates. */
  function TruncDiv(a: int, b: nat): int
    requires b > 0
  {
    if a >= 0 then a / b else -((-a) / b)
  }

  /** All bits from s on, n of them, are set. */
  ghost predicate RunSet(v: seq<Byte>, at: nat, s: nat, n: nat) {
    forall q, k :: 0 <= q < |v| && 0 <= k < 8 && s <= 8 * (q - at) + k < s + n ==> Bit(v[q], k)
  }

  /** All but left of the n bits from bitIdx on have been cleared, in the disk as seen through the window at s. */
  ghost predicate Progress(dev: Device, v0: seq<Byte>, s: nat, at: nat, bitIdx: nat, n: nat, left: nat)
    reads dev.disk, dev.fsbuf
  {
    && dev.Valid() && (s + 1) * SECTOR_SIZE <= dev.disk.Length
    && left <= n && RunSet(v0, at, bitIdx, n) && Freed(v0, Window(dev, s), at, bitIdx, n - left)
  }

  /** The byte the next bits to be cleared are in. */
  ghost predicate Points(s: nat, i: nat, at: nat, bitIdx: nat, n: nat, left: nat) {
    8 * (s * SECTOR_SIZE + i - at) == bitIdx + n - left
  }

  method FirstByte(dev: Device, s: nat, byteIdx: nat, bitIdx: nat, n: nat, ghost v0: seq<Byte>, ghost at: nat)
      returns (left: nat)
    requires byteIdx < SECTOR_SIZE && at % SECTOR_SIZE == 0 && s * SECTOR_SIZE + byteIdx == at + bitIdx / 8
    requires Progress(dev, v0, s, at, bitIdx, n, n)
    modifies dev.fsbuf
    ensures Progress(dev, v0, s, at, bitIdx, n, left)
    ensures left == if n < 8 - bitIdx % 8 then 0 else n - (8 - bitIdx % 8)
  {
    var i := bitIdx % 8;
    left := n;
    hide Bit, ClearBit, Window, Freed, RunSet;
    while i < 8 && left > 0
      invariant bitIdx % 8 <= i <= 8 && left == n - (i - bitIdx % 8)
      invariant Progress(dev, v0, s, at, bitIdx, n, left)
      decreases 8 - i
    {
      ghost var v, p := Window(dev, s), s * SECTOR_SIZE + byteIdx;
      NextIsSet(v0, v, at, bitIdx, n, left, p, i);
      Seen(dev, s, byteIdx);
      assert Bit(dev.fsbuf[byteIdx], i);
      FreedOne(v0, v, at, bitIdx, n - left, p, i);
      Put(dev, s, byteIdx, ClearBit(dev.fsbuf[byteIdx], i));
      i := i + 1;
      left := left - 1;
    }
  }

  lemma NextIsSet(v0: seq<Byte>, v: seq<Byte>, at: nat, bitIdx: nat, n: nat, left: nat, p: nat, k: nat)
    requires left <= n && RunSet(v0, at, bitIdx, n) && Freed(v0, v, at, bitIdx, n - left) && k < 8 && p < |v|
    requires bitIdx + (n - left) <= 8 * (p - at) + k < bitIdx + n
    ensures Bit(v[p], k)
  {
    hide Bit;
  }

  method WholeBytes(dev: Device, s0: nat, i0: nat, bitIdx: nat, n: nat, left0: nat, byteCnt: int,
                    ghost v0: seq<Byte>, ghost at: nat)
      returns (s: nat, i: nat, left: nat)
    requires i0 <= SECTOR_SIZE && Progress(dev, v0, s0, at, bitIdx, n, left0)
    requires byteCnt > 0 ==> Points(s0, i0, at, bitIdx, n, left0) && 8 * byteCnt <= left0
    requires bitIdx + n <= 8 * (dev.disk.Length - SECTOR_SIZE - at) && dev.disk.Length % SECTOR_SIZE == 0
    modifies dev.disk, dev.fsbuf
    ensures Progress(dev, v0, s, at, bitIdx, n, left) && i <= SECTOR_SIZE
    ensures left == left0 - 8 * if byteCnt > 0 then byteCnt else 0
    ensures s * SECTOR_SIZE + i == s0 * SECTOR_SIZE + i0 + if byteCnt > 0 then byteCnt else 0
  {
    s, i, left := s0, i0, left0;
    var k := 0;
    hide Bit, Window, Freed, RunSet;
    while k < byteCnt
      invariant 0 <= k && (byteCnt > 0 ==> k <= byteCnt) && (byteCnt <= 0 ==> k == 0)
      invariant i <= SECTOR_SIZE && s * SECTOR_SIZE + i == s0 * SECTOR_SIZE + i0 + k && left == left0 - 8 * k
      invariant Progress(dev, v0, s, at, bitIdx, n, left)
    {
      if i == SECTOR_SIZE {
        i := 0;
        Turn(dev, s);
        s := s + 1;
      }
      ClearByte(dev, s, i, bitIdx, n, left, v0, at);
      k := k + 1;
      i := i + 1;
      left := left - 8;
    }
  }

  method ClearByte(dev: Device, s: nat, i: nat, bitIdx: nat, n: nat, left: nat, ghost v0: seq<Byte>, ghost at: nat)
    requires i < SECTOR_SIZE && 8 <= left && Points(s, i, at, bitIdx, n, left)
    requires Progress(dev, v0, s, at, bitIdx, n, left)
    modifies dev.fsbuf
    ensures Progress(dev, v0, s, at, bitIdx, n, left - 8)
  {
    hide Bit, Window, Freed, RunSet;
    ghost var v, p := Window(dev, s), s * SECTOR_SIZE + i;
    forall k | 0 <= k < 8
      ensures Bit(v[p], k)
    {
      NextIsSet(v0, v, at, bitIdx, n, left, p, k);
    }
    AllBitsSet(v[p]);
    Seen(dev, s, i);
    assert dev.fsbuf[i] == 0xFF;
    FreedByte(v0, v, at, bitIdx, n - left, p);
    Put(dev, s, i, 0);
  }

  method LastByte(dev: Device, s0: nat, i0: nat, bitIdx: nat, n: nat, left: nat, ghost v0: seq<Byte>, ghost at: nat)
    requires i0 <= SECTOR_SIZE && left < 8 && (left == 0 || Points(s0, i0, at, bitIdx, n, left))
    requires Progress(dev, v0, s0, at, bitIdx, n, left)
    requires i0 == SECTOR_SIZE ==> (s0 + 2) * SECTOR_SIZE <= dev.disk.Length
    modifies dev.disk, dev.fsbuf
    ensures Freed(v0, dev.disk[..], at, bitIdx, n)
  {
    hide Bit, Window, Freed, RunSet, LowMask, WithoutLow;
    var s, i := s0, i0;
    if i == SECTOR_SIZE {
      i := 0;
      Turn(dev, s);
      s := s + 1;
    }
    ghost var v, p := Window(dev, s), s * SECTOR_SIZE + i;
    forall k | 0 <= k < left
      ensures Bit(v[p], k)
    {
      NextIsSet(v0, v, at, bitIdx, n, left, p, k);
    }
    LowBitsSet(v[p], left);
    Seen(dev, s, i);
    assert dev.fsbuf[i] & LowMask(left) == LowMask(left);
    FreedLow(v0, v, at, bitIdx, n - left, p, left);
    Put(dev, s, i, WithoutLow(dev.fsbuf[i], left));
    Close(dev, s);
  }

  /** The sector map part of unlink, for the n sectors whose first one has bit bitIdx. */
  method FreeSmapBits(dev: Device, sb: SuperBlock, bitIdx: nat, n: nat)
    requires dev.Valid() && HasMap(dev.disk[..], sb) && dev.disk.Length % SECTOR_SIZE == 0
    requires (MapStart(sb) + sb.smapSects + 1) * SECTOR_SIZE <= dev.disk.Length
    requires bitIdx < sb.smapSects * SECTOR_BITS && bitIdx + n <= sb.smapSects * SECTOR_BITS
    requires RunSet(dev.disk[..], MapStart(sb) * SECTOR_SIZE, bitIdx, n)
    modifies dev.disk, dev.fsbuf
    ensures Freed(old(dev.disk[..]), dev.disk[..], MapStart(sb) * SECTOR_SIZE, bitIdx, n)
  {
    ghost var v0, at := dev.disk[..], MapStart(sb) * SECTOR_SIZE;
    FreedNone(v0, at, bitIdx);
    hide Freed, RunSet, Window;
    var byteIdx := bitIdx / 8;
    var byteCnt := TruncDiv(n - (8 - bitIdx % 8), 8);
    var s := MapStart(sb) + byteIdx / SECTOR_SIZE;
    Open(dev, s);
    var left := FirstByte(dev, s, byteIdx % SECTOR_SIZE, bitIdx, n, v0, at);
    var i;
    s, i, left := WholeBytes(dev, s, byteIdx % SECTOR_SIZE + 1, bitIdx, n, left, byteCnt, v0, at);
    LastByte(dev, s, i, bitIdx, n, left, v0, at);
  }

  lemma FreedNone(v: seq<Byte>, at: nat, s: nat)
    ensures Freed(v, v, at, s, 0)
  {
  }

  /** Freed, said in bits of the sector map. */
  lemma FreedMap(disk: seq<Byte>, disk': seq<Byte>, sb: SuperBlock, s: nat, n: nat)
    requires HasMap(disk, sb) && Freed(disk, disk', MapStart(sb) * SECTOR_SIZE, s, n)
    requires s + n <= sb.smapSects * SECTOR_BITS
    ensures HasMap(disk', sb) && SameOutsideMap(disk, disk', sb)
    ensures BitsOf(MapBytes(disk', sb)) == Cleared(BitsOf(MapBytes(disk, sb)), s, n)
  {
    var at := MapStart(sb) * SECTOR_SIZE;
    forall q | 0 <= q < |disk| && (q < at || at + sb.smapSects * SECTOR_SIZE <= q)
      ensures disk'[q] == disk[q]
    {
      hide Bit;
      SameBits(disk'[q], disk[q]);
    }
    var b, b' := BitsOf(MapBytes(disk, sb)), BitsOf(MapBytes(disk', sb));
    forall x | 0 <= x < |b|
      ensures b'[x] == Cleared(b, s, n)[x]
    {
      hide Bit;
      BitsOfAt(MapBytes(disk, sb), x / 8, x % 8);
      BitsOfAt(MapBytes(disk', sb), x / 8, x % 8);
      assert 8 * (x / 8) + x % 8 == x;
      assert MapBytes(disk, sb)[x / 8] == disk[at + x / 8] && MapBytes(disk', sb)[x / 8] == disk'[at + x / 8];
    }
  }
}
