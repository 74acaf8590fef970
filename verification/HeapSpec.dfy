/** The block allocator behind malloc and free, on one process's row of the block map. */
module HeapSpec {
  import opened Constants
  import opened Bitmap
  import opened Extents

  const MALLOC_BASE_ADDR := 0x1000
  const MALLOC_END_ADDR := 0x4000
  const MALLOC_BLOCK_SIZE := 0x10
  const TOTAL_BLOCKS := (MALLOC_END_ADDR - MALLOC_BASE_ADDR) / MALLOC_BLOCK_SIZE

  /** The number of blocks for a size: a signed division, which truncates, and then an unsigned number. */
  function Blocks(size: int): nat {
    var sum := size + MALLOC_BLOCK_SIZE - 1;
    if sum >= 0 then sum / MALLOC_BLOCK_SIZE % U32 else (-(-sum / MALLOC_BLOCK_SIZE)) % U32
  }

  /** Where the search for a free run stops, an unsigned difference. */
  function ScanBound(size: int): nat {
    (TOTAL_BLOCKS - Blocks(size)) % U32
  }

  /** Whole sizes up to the heap's are rounded up. */
  lemma BlocksRoundUp(size: int)
    requires 0 < size <= TOTAL_BLOCKS * MALLOC_BLOCK_SIZE
    ensures 1 <= Blocks(size) <= TOTAL_BLOCKS
    ensures (Blocks(size) - 1) * MALLOC_BLOCK_SIZE < size <= Blocks(size) * MALLOC_BLOCK_SIZE
  {
  }

  /** The search stays inside the heap's blocks exactly for these sizes. For any other the bound wraps around, and the
      search takes in bits behind them: the rest of the row, and then other rows. */
  lemma ScanInBoundsIff(size: int)
    requires -0x8000_0000 <= size < 0x8000_0000 - MALLOC_BLOCK_SIZE
    ensures ScanBound(size) + Blocks(size) <= TOTAL_BLOCKS <==> -31 < size <= TOTAL_BLOCKS * MALLOC_BLOCK_SIZE
  {
    ScanBoundIs(size);
    var sum := size + MALLOC_BLOCK_SIZE - 1;
    if sum >= 0 {
      assert Blocks(size) == sum / MALLOC_BLOCK_SIZE;
    } else if sum > -MALLOC_BLOCK_SIZE {
      assert Blocks(size) == 0;
    } else {
      var q := -sum / MALLOC_BLOCK_SIZE;
      assert 1 <= q <= 0x800_0000 && Blocks(size) == U32 - q;
    }
  }

  lemma ScanBoundIs(size: int)
    ensures 0 <= Blocks(size) < U32
    ensures ScanBound(size) == if Blocks(size) <= TOTAL_BLOCKS then TOTAL_BLOCKS - Blocks(size)
                               else TOTAL_BLOCKS - Blocks(size) + U32
  {
  }

  /** One byte too many, and the bound is near the largest number there is. */
  lemma OneByteTooMany()
    ensures ScanBound(TOTAL_BLOCKS * MALLOC_BLOCK_SIZE + 1) == U32 - 1
  {
  }

  /** s is what malloc gives: the lowest run of n free blocks, or nothing when there is none. */
  ghost predicate IsFirstFit(bits: Bits, n: nat, found: bool, s: nat) {
    if found then RunFree(bits, s, n) && forall t: nat :: t < s ==> !RunFree(bits, t, n)
    else forall t: nat :: !RunFree(bits, t, n)
  }

  const ROW_BITS := 816   // of a row of the block map

  /** What comes of that: on a row with nothing allocated, a request that is too large by up to 768 bytes is granted, at
      the start of the heap, and reaches behind the heap's end. */
  lemma TooLargeIsGranted(row: Bits, size: int)
    requires |row| == ROW_BITS && (forall i :: 0 <= i < |row| ==> !row[i])
    requires TOTAL_BLOCKS * MALLOC_BLOCK_SIZE < size <= ROW_BITS * MALLOC_BLOCK_SIZE
    ensures IsFirstFit(row, Blocks(size), true, 0) && 0 <= ScanBound(size)
    ensures AddressOf(0) + size > MALLOC_END_ADDR
  {
  }

  /** The map shows exactly what is live. */
  ghost predicate HeapInv(bits: Bits, live: Live) {
    |bits| == TOTAL_BLOCKS && Exact(bits, live)
  }

  // ---------- runs ----------

  /** A call, with what it returned. */
  datatype Event = Malloc(size: nat, addr: nat) | Free(addr: nat, size: nat)

  function BlockOf(addr: nat): int {
    (addr - MALLOC_BASE_ADDR) / MALLOC_BLOCK_SIZE
  }

  function AddressOf(s: nat): nat {
    MALLOC_BASE_ADDR + s * MALLOC_BLOCK_SIZE
  }

  /** One call takes bits to bits'. A free matches an allocation that is live. */
  ghost predicate Step(bits: Bits, live: Live, e: Event, bits': Bits, live': Live) {
    match e
    case Malloc(size, addr) =>
      && 0 < size <= TOTAL_BLOCKS * MALLOC_BLOCK_SIZE
      && if addr == 0 then IsFirstFit(bits, Blocks(size), false, 0) && bits' == bits && live' == live
         else exists s: nat :: IsFirstFit(bits, Blocks(size), true, s) && addr == AddressOf(s)
                               && bits' == Filled(bits, s, Blocks(size)) && live' == live[s := Blocks(size)]
    case Free(addr, size) =>
      && Matches(live, addr, size)
      && bits' == Cleared(bits, BlockOf(addr), Blocks(size)) && live' == live - {BlockOf(addr)}
  }

  /** A free gives back what was allocated at its address, all of it. */
  predicate Matches(live: Live, addr: nat, size: int) {
    && 0 < size && 0 <= BlockOf(addr) && addr == AddressOf(BlockOf(addr))
    && BlockOf(addr) in live && live[BlockOf(addr)] == Blocks(size)
  }

  /** A run of matching calls, through the given states. */
  ghost predicate IsRun(states: seq<(Bits, Live)>, events: seq<Event>) {
    && |states| == |events| + 1
    && states[0] == (seq(TOTAL_BLOCKS, i => false), map[])
    && forall k :: 0 <= k < |events| ==>
      Step(states[k].0, states[k].1, events[k], states[k + 1].0, states[k + 1].1)
  }

  lemma StepKeepsInv(bits: Bits, live: Live, e: Event, bits': Bits, live': Live)
    requires HeapInv(bits, live) && Step(bits, live, e, bits', live')
    ensures HeapInv(bits', live')
  {
    match e
    case Malloc(size, addr) =>
      if addr != 0 {
        var s: nat :| IsFirstFit(bits, Blocks(size), true, s) && addr == AddressOf(s)
                      && bits' == Filled(bits, s, Blocks(size)) && live' == live[s := Blocks(size)];
        BlocksRoundUp(size);
        AllocateKeepsExact(bits, live, s, Blocks(size));
      }
    case Free(addr, size) =>
      FreeKeepsExact(bits, live, BlockOf(addr));
  }

  /** At every point of every run the map shows exactly what is live, and what is live does not overlap. */
  lemma {:induction false} RunKeepsInv(states: seq<(Bits, Live)>, events: seq<Event>, k: nat)
    requires IsRun(states, events) && k <= |events|
    ensures HeapInv(states[k].0, states[k].1)
  {
    if k == 0 {
      assert forall i :: !Covered(map[], i);
    } else {
      RunKeepsInv(states, events, k - 1);
      StepKeepsInv(states[k - 1].0, states[k - 1].1, events[k - 1], states[k].0, states[k].1);
    }
  }

  /** In bytes: in every run, the memory that malloc gives lies in the heap, starts on a block, has room for what was
      asked, and overlaps nothing that is live. */
  lemma MallocGivesFreeMemory(states: seq<(Bits, Live)>, events: seq<Event>, k: nat, t: nat)
    requires IsRun(states, events) && k < |events| && events[k].Malloc? && events[k].addr != 0
    ensures MALLOC_BASE_ADDR <= events[k].addr && events[k].addr + events[k].size <= MALLOC_END_ADDR
    ensures events[k].addr % MALLOC_BLOCK_SIZE == 0
    ensures t in states[k].1 ==>
      events[k].addr + events[k].size <= AddressOf(t)
      || AddressOf(t) + states[k].1[t] * MALLOC_BLOCK_SIZE <= events[k].addr
  {
    RunKeepsInv(states, events, k);
    var (bits, live) := states[k];
    var (size, addr) := (events[k].size, events[k].addr);
    assert Step(states[k].0, states[k].1, events[k], states[k + 1].0, states[k + 1].1);
    var s: nat :| IsFirstFit(bits, Blocks(size), true, s) && addr == AddressOf(s);
    BlocksRoundUp(size);
    if t in live {
      FreeRunIsApart(bits, live, s, Blocks(size), t);
    }
  }

  /** Something live lies in the n blocks from s on. */
  ghost predicate Met(live: Live, s: nat, n: nat) {
    exists i: nat :: s <= i < s + n && Covered(live, i)
  }

  /** In every run, malloc fails exactly when every place in the heap that is large enough is met by something live. */
  lemma MallocFailsIff(states: seq<(Bits, Live)>, events: seq<Event>, k: nat)
    requires IsRun(states, events) && k < |events| && events[k].Malloc?
    ensures var n := Blocks(events[k].size);
      events[k].addr == 0 <==> forall s: nat :: s + n <= TOTAL_BLOCKS ==> Met(states[k].1, s, n)
  {
    RunKeepsInv(states, events, k);
    assert Step(states[k].0, states[k].1, events[k], states[k + 1].0, states[k + 1].1);
    var (bits, live) := states[k];
    var n := Blocks(events[k].size);
    forall s: nat | s + n <= TOTAL_BLOCKS
      ensures RunFree(bits, s, n) <==> !Met(live, s, n)
    {
      FreeIffNotMet(bits, live, s, n);
    }
    if events[k].addr != 0 {
      var s: nat :| IsFirstFit(bits, n, true, s);
      assert RunFree(bits, s, n) && !Met(live, s, n);
    } else {
      assert forall s: nat :: s + n <= TOTAL_BLOCKS ==> !RunFree(bits, s, n);
    }
  }

  lemma FreeIffNotMet(bits: Bits, live: Live, s: nat, n: nat)
    requires HeapInv(bits, live) && s + n <= TOTAL_BLOCKS
    ensures RunFree(bits, s, n) <==> !Met(live, s, n)
  {
    assert forall i: nat :: s <= i < s + n ==> (bits[i] <==> Covered(live, i));
  }
}
