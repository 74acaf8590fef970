/** The memory manager's block maps, one row for each process, changed in place. */
module Heap {
  import opened FileSpec
  import opened Bytes
  import opened Bitmap
  import opened Extents
  import opened HeapSpec

  const NR_ROWS := 42
  const ROW_BYTES := 102
  const NR_PIDS := 40

  class BlockMaps {
    const bitmap: array2<Byte>
    ghost var live: seq<Live>   // what each process has been given and has not given back

    ghost predicate Valid() {
      bitmap.Length0 == NR_ROWS && bitmap.Length1 == ROW_BYTES
    }

    ghost predicate BitAt(pid: nat, i: nat)
      requires Valid() && pid < NR_ROWS && i < 8 * ROW_BYTES
      reads bitmap
    {
      Bit(bitmap[pid, i / 8], i % 8)
    }

    /** The blocks of one process. */
    ghost function Row(pid: nat): (r: Bits)
      requires Valid() && pid < NR_ROWS
      reads bitmap
      ensures |r| == TOTAL_BLOCKS && forall i: nat :: i < TOTAL_BLOCKS ==> r[i] == BitAt(pid, i)
    {
      seq(TOTAL_BLOCKS, i requires Valid() && 0 <= i < TOTAL_BLOCKS reads bitmap => BitAt(pid, i))
    }

    /** Every row shows exactly what its process has. */
    ghost predicate InStep()
      reads this, bitmap
    {
      Valid() && |live| == NR_ROWS && forall p: nat :: p < NR_ROWS ==> HeapInv(Row(p), live[p])
    }

    constructor ()
      ensures Valid() && InStep() && fresh(bitmap) && live == seq(NR_ROWS, p => map[])
      ensures forall p: nat :: p < NR_ROWS ==> Row(p) == seq(TOTAL_BLOCKS, i => false)
    {
      bitmap := new Byte[NR_ROWS, ROW_BYTES]((p, k) => 0);
      live := seq(NR_ROWS, p => map[]);
      new;
      ZeroByte();
      forall p: nat | p < NR_ROWS
        ensures Row(p) == seq(TOTAL_BLOCKS, i => false)
      {
        assert forall i: nat :: i < TOTAL_BLOCKS ==> !BitAt(p, i);
      }
    }

    method RunIsFree(pid: nat, s: nat, n: nat) returns (isFree: bool)
      requires Valid() && pid < NR_ROWS && s + n <= TOTAL_BLOCKS
      ensures isFree <==> RunFree(Row(pid), s, n)
    {
      isFree := true;
      var j := 0;
      while j < n
        invariant j <= n && forall i: nat :: s <= i < s + j ==> !BitAt(pid, i)
      {
        var bitIndex := s + j;
        if Bit(bitmap[pid, bitIndex / 8], bitIndex % 8) {
          assert BitAt(pid, bitIndex) && Row(pid)[bitIndex];
          isFree := false;
          break;
        }
        j := j + 1;
      }
    }

    method SetRun(pid: nat, s: nat, n: nat)
      requires Valid() && pid < NR_ROWS && s + n <= TOTAL_BLOCKS
      modifies bitmap
      ensures Row(pid) == Filled(old(Row(pid)), s, n)
      ensures forall p, k :: 0 <= p < NR_ROWS && 0 <= k < ROW_BYTES && (p != pid || 8 * k >= TOTAL_BLOCKS) ==>
        bitmap[p, k] == old(bitmap[p, k])
    {
      var j := 0;
      while j < n
        invariant j <= n
        invariant forall i: nat :: i < TOTAL_BLOCKS ==> BitAt(pid, i) == (old(BitAt(pid, i)) || s <= i < s + j)
        invariant forall p, k :: 0 <= p < NR_ROWS && 0 <= k < ROW_BYTES && (p != pid || 8 * k >= TOTAL_BLOCKS) ==>
          bitmap[p, k] == old(bitmap[p, k])
      {
        SetOne(pid, s + j);
        j := j + 1;
      }
    }

    method SetOne(pid: nat, bitIndex: nat)
      requires Valid() && pid < NR_ROWS && bitIndex < TOTAL_BLOCKS
      modifies bitmap
      ensures forall i: nat :: i < TOTAL_BLOCKS ==> BitAt(pid, i) == (old(BitAt(pid, i)) || i == bitIndex)
      ensures forall p, k :: 0 <= p < NR_ROWS && 0 <= k < ROW_BYTES && (p != pid || k != bitIndex / 8) ==>
        bitmap[p, k] == old(bitmap[p, k])
    {
      var b := bitmap[pid, bitIndex / 8];
      bitmap[pid, bitIndex / 8] := SetBit(b, bitIndex % 8);
      forall i: nat | i < TOTAL_BLOCKS
        ensures BitAt(pid, i) == (old(BitAt(pid, i)) || i == bitIndex)
      {
        SetBitSets(b, bitIndex % 8, i % 8);
      }
    }

    method ClearRun(pid: nat, s: nat, n: nat)
      requires Valid() && pid < NR_ROWS && s + n <= TOTAL_BLOCKS
      modifies bitmap
      ensures Row(pid) == Cleared(old(Row(pid)), s, n)
      ensures forall p, k :: 0 <= p < NR_ROWS && 0 <= k < ROW_BYTES && (p != pid || 8 * k >= TOTAL_BLOCKS) ==>
        bitmap[p, k] == old(bitmap[p, k])
    {
      var j := 0;
      while j < n
        invariant j <= n
        invariant forall i: nat :: i < TOTAL_BLOCKS ==> BitAt(pid, i) == (old(BitAt(pid, i)) && !(s <= i < s + j))
        invariant forall p, k :: 0 <= p < NR_ROWS && 0 <= k < ROW_BYTES && (p != pid || 8 * k >= TOTAL_BLOCKS) ==>
          bitmap[p, k] == old(bitmap[p, k])
      {
        ClearOne(pid, s + j);
        j := j + 1;
      }
    }

    method ClearOne(pid: nat, bitIndex: nat)
      requires Valid() && pid < NR_ROWS && bitIndex < TOTAL_BLOCKS
      modifies bitmap
      ensures forall i: nat :: i < TOTAL_BLOCKS ==> BitAt(pid, i) == (old(BitAt(pid, i)) && i != bitIndex)
      ensures forall p, k :: 0 <= p < NR_ROWS && 0 <= k < ROW_BYTES && (p != pid || k != bitIndex / 8) ==>
        bitmap[p, k] == old(bitmap[p, k])
    {
      var b := bitmap[pid, bitIndex / 8];
      bitmap[pid, bitIndex / 8] := ClearBit(b, bitIndex % 8);
      forall i: nat | i < TOTAL_BLOCKS
        ensures BitAt(pid, i) == (old(BitAt(pid, i)) && i != bitIndex)
      {
        ClearBitClears(b, bitIndex % 8, i % 8);
      }
    }

    /** What is asked of malloc and free fits the process's row. */
    predicate SizeOk(mode: int, size: int) {
      -31 < size && (mode == 1 ==> size <= TOTAL_BLOCKS * MALLOC_BLOCK_SIZE) && size < 0x8000_0000 - MALLOC_BLOCK_SIZE
    }

    /** The pointer and the size that free accepts. */
    predicate FreeOk(size: int, buf: nat) {
      && buf != 0 && size != 0
      && MALLOC_BASE_ADDR <= buf < MALLOC_END_ADDR && (buf - MALLOC_BASE_ADDR) % MALLOC_BLOCK_SIZE == 0
      && BlockOf(buf) + Blocks(size) <= TOTAL_BLOCKS
    }

    /** Mode 1 is malloc: the address of the lowest free run that is long enough, and its blocks are taken. Mode 0 is
        free: the blocks from buf on are given back. The result is 0 whenever nothing is to be returned. */
    method DoMallocFree(mode: int, pid: int, size: int, buf: nat) returns (r: nat)
      requires Valid() && SizeOk(mode, size)
      modifies bitmap
      ensures mode == 1 && 0 <= pid < NR_PIDS && size != 0 ==>
                var s := BlockOf(r);
                if r == 0 then
                  IsFirstFit(old(Row(pid)), Blocks(size), false, 0) && Row(pid) == old(Row(pid))
                else
                  && 0 <= s && r == AddressOf(s)
                  && IsFirstFit(old(Row(pid)), Blocks(size), true, s)
                  && Row(pid) == Filled(old(Row(pid)), s, Blocks(size))
      ensures mode == 0 && 0 <= pid < NR_PIDS ==>
                && r == 0
                && Row(pid) == if FreeOk(size, buf) then Cleared(old(Row(pid)), BlockOf(buf), Blocks(size))
                               else old(Row(pid))
      ensures !(0 <= pid < NR_PIDS) || (mode != 0 && mode != 1) || size == 0 ==>
                r == 0 && forall p, k :: 0 <= p < NR_ROWS && 0 <= k < ROW_BYTES ==> bitmap[p, k] == old(bitmap[p, k])
      ensures forall p, k :: 0 <= p < NR_ROWS && 0 <= k < ROW_BYTES && (p != pid || 8 * k >= TOTAL_BLOCKS) ==>
        bitmap[p, k] == old(bitmap[p, k])
    {
      if pid < 0 || pid >= NR_PIDS {
        return 0;
      }
      if mode == 1 {
        if size == 0 {
          return 0;
        }
        r := Malloc(pid, size);
      } else if mode == 0 {
        if buf == 0 || size == 0 {
          return 0;
        }
        if buf < MALLOC_BASE_ADDR || buf >= MALLOC_END_ADDR || (buf - MALLOC_BASE_ADDR) % MALLOC_BLOCK_SIZE != 0 {
          return 0;
        }
        var startBit := (buf - MALLOC_BASE_ADDR) / MALLOC_BLOCK_SIZE;
        var blocksToFree := Blocks(size);
        if startBit + blocksToFree > TOTAL_BLOCKS {
          return 0;
        }
        ClearRun(pid, startBit, blocksToFree);
        return 0;
      } else {
        return 0;
      }
    }

    /** The call as an event of the process's heap. */
    ghost function EventOf(mode: int, size: int, buf: nat, r: nat): Event
      requires size >= 0
    {
      if mode == 1 then Event.Malloc(size, r) else Free(buf, size)
    }

    /** A call by one of the processes, either malloc, or a free of what malloc gave it. */
    ghost predicate IsMatching(mode: int, pid: int, size: int, buf: nat)
      reads this
    {
      0 <= pid < NR_PIDS < |live| && 0 < size && (mode == 1 || (mode == 0 && Matches(live[pid], buf, size)))
    }

    /** DoMallocFree with the account of what is live. Whatever the calls, as long as each matches, every process's heap
        takes the steps of the runs, and every row shows exactly what its process has. */
    method Serve(mode: int, pid: int, size: int, buf: nat) returns (r: nat)
      requires InStep() && SizeOk(mode, size) && IsMatching(mode, pid, size, buf)
      modifies this`live, bitmap
      ensures InStep()
      ensures Step(old(Row(pid)), old(live[pid]), EventOf(mode, size, buf, r), Row(pid), live[pid])
      ensures forall p: nat :: p < NR_ROWS && p != pid ==> Row(p) == old(Row(p)) && live[p] == old(live[p])
    {
      ghost var bits, was: Live := Row(pid), live[pid];
      MatchingFreeOk(bits, was, buf, size);
      r := DoMallocFree(mode, pid, size, buf);
      ghost var now: Live := if mode == 0 then was - {BlockOf(buf)}
                       else if r != 0 then was[BlockOf(r) := Blocks(size)] else was;
      live := live[pid := now];
      assert Step(bits, was, EventOf(mode, size, buf, r), Row(pid), now);
      StepKeepsInv(bits, was, EventOf(mode, size, buf, r), Row(pid), now);
      forall p: nat | p < NR_ROWS && p != pid
        ensures Row(p) == old(Row(p))
      {
        assert forall i: nat :: i < TOTAL_BLOCKS ==> BitAt(p, i) == old(BitAt(p, i));
      }
    }

    /** free accepts what malloc gave. */
    lemma MatchingFreeOk(bits: Bits, live: Live, buf: nat, size: int)
      requires HeapInv(bits, live)
      ensures Matches(live, buf, size) ==> FreeOk(size, buf)
    {
    }

    /** free takes exactly the pointers to the start of a block in the heap, with sizes that do not reach behind it. */
    lemma FreeOkIff(size: int, buf: nat)
      requires 0 < size < 0x8000_0000 - MALLOC_BLOCK_SIZE
      ensures FreeOk(size, buf) <==> 0x1000 <= buf && buf % 16 == 0 && buf + size <= 0x4000
    {
      assert Blocks(size) == (size + 15) / 16;
    }

    method Malloc(pid: nat, size: int) returns (r: nat)
      requires Valid() && pid < NR_ROWS && -31 < size <= TOTAL_BLOCKS * MALLOC_BLOCK_SIZE
      modifies bitmap
      ensures r == 0 ==> IsFirstFit(old(Row(pid)), Blocks(size), false, 0) && Row(pid) == old(Row(pid))
      ensures r != 0 ==>
                && 0 <= BlockOf(r) && r == AddressOf(BlockOf(r))
                && IsFirstFit(old(Row(pid)), Blocks(size), true, BlockOf(r))
                && Row(pid) == Filled(old(Row(pid)), BlockOf(r), Blocks(size))
      ensures forall p, k :: 0 <= p < NR_ROWS && 0 <= k < ROW_BYTES && (p != pid || 8 * k >= TOTAL_BLOCKS) ==>
        bitmap[p, k] == old(bitmap[p, k])
    {
      var blocksNeeded := Blocks(size);
      ScanBoundIs(size);
      ScanInBoundsIff(size);
      var startBit := 0;
      while startBit <= ScanBound(size)
        invariant startBit <= ScanBound(size) + 1
        invariant forall t: nat :: t < startBit ==> !RunFree(Row(pid), t, blocksNeeded)
        invariant Row(pid) == old(Row(pid))
        invariant forall p, k :: 0 <= p < NR_ROWS && 0 <= k < ROW_BYTES && (p != pid || 8 * k >= TOTAL_BLOCKS) ==>
          bitmap[p, k] == old(bitmap[p, k])
      {
        var isFree := RunIsFree(pid, startBit, blocksNeeded);
        if isFree {
          SetRun(pid, startBit, blocksNeeded);
          return MALLOC_BASE_ADDR + startBit * MALLOC_BLOCK_SIZE;
        }
        startBit := startBit + 1;
      }
      return 0;
    }
  }

  lemma ZeroByte()
    ensures forall k :: 0 <= k < 8 ==> !Bit(0, k)
  {
    forall k | 0 <= k < 8
      ensures !Bit(0, k)
    {
      ShiftCases(k);
    }
  }
}
