/** Runs right after start-up in which unlink does less than it means to. */
module InodeCases {
  import opened Constants
  import opened InodeSpec
  import opened InodeInvariant
  import opened InodeCalls
  import opened InodeRuns

  const O_RDWR: bv32 := 2

  /** The tables after start-up: the root directory is cached in slot 0, and nothing is open. */
  function Started(procs: nat, sects: seq<seq<Rec>>, used: set<nat>): Cache
    requires Formatted(sects, used)
  {
    Got(Empty(procs, sects, used), ROOT_INODE, 0).(root := 0)
  }

  lemma StartedIs(procs: nat, sects: seq<seq<Rec>>, used: set<nat>)
    requires Formatted(sects, used)
    ensures var c := Started(procs, sects, used);
      && CacheInv(c) && AllPosOk(c) && c.root == 0 && c.sects == sects && c.inUse == used
      && c.slots[0] == Slot(RecAt(sects, ROOT_INODE), 1, ROOT_INODE)
      && (forall i :: 0 < i < NR_INODE ==> c.slots[i].cnt == 0) && (forall i :: 0 <= i < NR_INODE ==> c.leaks[i] == 0)
      && (forall d :: 0 <= d < NR_FILE_DESC ==> c.descs[d].inode == NULL)
      && |c.filp| == procs * NR_FILES && (forall f :: 0 <= f < |c.filp| ==> c.filp[f] == NULL)
  {
    StartKeepsInv(procs, sects, used);
  }

  /** The first slot that matches, when it is known. */
  lemma FirstSlotIs(c: Cache, num: nat, used: bool, k: nat)
    requires CacheShape(c) && k <= NR_INODE && (k < NR_INODE ==> SlotMatches(c.slots[k], num, used))
    requires forall i :: 0 <= i < k ==> !SlotMatches(c.slots[i], num, used)
    ensures FirstSlot(c, num, used, 0) == k
  {
  }

  /** Only slots 0 to k-1 are in use, and none for this inode. */
  lemma LookupIsNext(c: Cache, num: nat, k: nat)
    requires CacheShape(c) && k < NR_INODE && forall i :: k <= i < NR_INODE ==> c.slots[i].cnt == 0
    requires forall i :: 0 <= i < k ==> c.slots[i].cnt != 0 && c.slots[i].num != num
    ensures Lookup(c, num) == k
  {
    FirstSlotIs(c, num, true, NR_INODE);
    FirstSlotIs(c, num, false, k);
  }

  /** Unlinking a device file, right after start-up, is refused, and its slot keeps a reference for good. */
  lemma DeviceUnlinkLeaks(procs: nat, sects: seq<seq<Rec>>, used: set<nat>, num: nat)
    requires Formatted(sects, used) && 1 < num <= |sects| * RECS_PER_SECT && num in used
    requires RecAt(sects, num).mode != I_REGULAR
    ensures var c := Started(procs, sects, used);
      && CacheInv(c) && CallOk(c, Unlink(num, false, 0))
      && Do(c, Unlink(num, false, 0)).r == -1
      && Do(c, Unlink(num, false, 0)).c.leaks[1] == 1
      && Do(c, Unlink(num, false, 0)).c.slots[1].cnt == 1
  {
    StartedIs(procs, sects, used);
    var c := Started(procs, sects, used);
    LookupIsNext(c, num, 1);
    RemovableIff(c, num);
  }

  // ---------- a directory that is cut off below an open position ----------

  /** The root directory is open in file slot 0 of the first process, at pos, with the given size. */
  ghost predicate RootOpen(c: Cache, pos: nat, size: nat) {
    && CacheInv(c) && AllPosOk(c) && c.root == 0 && IsProc(c, 0) && (forall i :: 0 <= i < NR_INODE ==> c.leaks[i] == 0)
    && c.filp[0] == 0 && c.descs[0].inode == 0 && c.descs[0].pos == pos
    && c.slots[0].cnt == 2 && c.slots[0].num == ROOT_INODE && c.slots[0].rec.size == size
    && (forall i :: 2 <= i < NR_INODE ==> c.slots[i].cnt == 0)
    && (forall f :: 2 <= f < |c.filp| ==> c.filp[f] == NULL)
    && (forall d :: 2 <= d < NR_FILE_DESC ==> c.descs[d].inode == NULL)
  }

  /** Nothing else is open. */
  ghost predicate RootAlone(c: Cache, pos: nat, size: nat) {
    RootOpen(c, pos, size) && c.slots[1].cnt == 0 && c.filp[1] == NULL && c.descs[1].inode == NULL
  }

  /** The new file num is open in file slot 1. */
  ghost predicate FileToo(c: Cache, pos: nat, size: nat, num: nat) {
    && RootOpen(c, pos, size) && num != ROOT_INODE && num in c.inUse
    && c.filp[1] == 1 && c.descs[1].inode == 1 && c.descs[1].cnt == 1
    && c.slots[1].cnt == 1 && c.slots[1].num == num && c.slots[1].rec.mode == I_REGULAR
  }

  function OpenRoot(): Call {
    Open(0, ToOpen(O_RDWR, true, ROOT_INODE, 0, 0, 0))
  }

  function CreateFile(num: nat, start: nat, size: nat): Call {
    Open(0, ToOpen(O_CREAT | O_RDWR, true, 0, num, start, size + DIR_ENTRY_SIZE))
  }

  lemma FreeSlots(c: Cache, n: nat)
    requires CacheShape(c) && IsProc(c, 0) && n < NR_FILES && n < NR_FILE_DESC
    requires c.filp[n] == NULL && c.descs[n].inode == NULL
    requires forall k :: 0 <= k < n ==> c.filp[k] != NULL && c.descs[k].inode != NULL
    ensures FreeFile(c, 0, 0) == n && FreeDesc(c, 0) == n
  {
    hide FreeFile, FreeDesc, CacheShape;
    FirstFreeFile(c, n);
    FirstFreeDesc(c, n);
  }

  lemma FirstFreeFile(c: Cache, n: nat)
    requires IsProc(c, 0) && n < NR_FILES && c.filp[n] == NULL && forall k :: 0 <= k < n ==> c.filp[k] != NULL
    ensures FreeFile(c, 0, 0) == n
  {
    hide FreeFile;
    var fd := FreeFile(c, 0, 0);
    assert c.filp[FileOf(c, 0, n)] == NULL;
    assert fd < NR_FILES ==> c.filp[fd] == c.filp[FileOf(c, 0, fd)];
  }

  lemma FirstFreeDesc(c: Cache, n: nat)
    requires CacheShape(c) && n < NR_FILE_DESC && c.descs[n].inode == NULL
    requires forall k :: 0 <= k < n ==> c.descs[k].inode != NULL
    ensures FreeDesc(c, 0) == n
  {
    hide FreeDesc;
  }

  lemma OpenRootStep(procs: nat, sects: seq<seq<Rec>>, used: set<nat>)
    requires Formatted(sects, used) && 0 < procs
    ensures var c := Started(procs, sects, used);
      && CacheInv(c) && AllPosOk(c) && CallOk(c, OpenRoot()) && Do(c, OpenRoot()).r == 0
      && CacheInv(Do(c, OpenRoot()).c) && RootAlone(Do(c, OpenRoot()).c, 0, RecAt(sects, ROOT_INODE).size)
      && Do(c, OpenRoot()).c.inUse == used && Do(c, OpenRoot()).c.sects == sects
  {
    StartedIs(procs, sects, used);
    var c := Started(procs, sects, used);
    FirstSlotIs(c, ROOT_INODE, true, 0);
    FreeSlots(c, 0);
    assert O_RDWR & O_CREAT == 0;
    CallKeepsInv(c, OpenRoot());
    CallKeepsPosIff(c, OpenRoot());
  }

  lemma CreateStep(c: Cache, num: nat, start: nat, size: nat)
    requires CacheInv(c) && RootAlone(c, 0, size) && IsInodeNr(c, num) && num !in c.inUse && ROOT_INODE in c.inUse
    ensures CallOk(c, CreateFile(num, start, size)) && Do(c, CreateFile(num, start, size)).r == 1
    ensures CacheInv(Do(c, CreateFile(num, start, size)).c)
    ensures FileToo(Do(c, CreateFile(num, start, size)).c, 0, size + DIR_ENTRY_SIZE, num)
  {
    LookupIsNext(c, num, 1);
    FreeSlots(c, 1);
    assert (O_CREAT | O_RDWR) & O_CREAT != 0;
    CallKeepsInv(c, CreateFile(num, start, size));
    CallKeepsPosIff(c, CreateFile(num, start, size));
  }

  lemma ReadStep(c: Cache, size: nat, num: nat)
    requires CacheInv(c) && FileToo(c, 0, size, num)
    ensures CallOk(c, Write(0, 0, size)) && Do(c, Write(0, 0, size)).r == 0 && CacheInv(Do(c, Write(0, 0, size)).c)
    ensures FileToo(Do(c, Write(0, 0, size)).c, size, size, num)
  {
    CallKeepsInv(c, Write(0, 0, size));
    CallKeepsPosIff(c, Write(0, 0, size));
  }

  lemma CloseStep(c: Cache, size: nat, num: nat)
    requires CacheInv(c) && FileToo(c, size, size, num)
    ensures CallOk(c, Close(0, 1)) && Do(c, Close(0, 1)).r == 0 && CacheInv(Do(c, Close(0, 1)).c)
    ensures RootAlone(Do(c, Close(0, 1)).c, size, size)
    ensures var c' := Do(c, Close(0, 1)).c;
      num in c'.inUse && IsInodeNr(c', num) && RecAt(c'.sects, num).mode == I_REGULAR
  {
    assert Holds(c, 1);
    CallKeepsInv(c, Close(0, 1));
    CallKeepsPosIff(c, Close(0, 1));
  }

  lemma UnlinkStep(c: Cache, size: nat, left: nat, num: nat)
    requires CacheInv(c) && RootAlone(c, size, size) && left < size && num != ROOT_INODE && num in c.inUse
    requires IsInodeNr(c, num) && RecAt(c.sects, num).mode == I_REGULAR
    ensures CallOk(c, Unlink(num, true, left)) && Do(c, Unlink(num, true, left)).r == 0
    ensures CacheInv(Do(c, Unlink(num, true, left)).c)
    ensures CutsOpenDir(c, Unlink(num, true, left)) && !AllPosOk(Do(c, Unlink(num, true, left)).c)
  {
    LookupIsNext(c, num, 1);
    RemovableIff(c, num);
    assert SlotCounted(c, 1, NULL);
    CallKeepsInv(c, Unlink(num, true, left));
    CallKeepsPosIff(c, Unlink(num, true, left));
  }

  /** open "/", create a file, read the directory to its end, close the file and unlink it. */
  function CutRun(num: nat, start: nat, size: nat): seq<Call> {
    [OpenRoot(), CreateFile(num, start, size), Write(0, 0, size + DIR_ENTRY_SIZE), Close(0, 1), Unlink(num, true, size)]
  }

  /** A run from start-up after which a file position lies behind the end of its file. */
  lemma DirectoryCutRun(procs: nat, sects: seq<seq<Rec>>, used: set<nat>, num: nat, start: nat)
    requires Formatted(sects, used) && 0 < procs && 0 < num <= |sects| * RECS_PER_SECT && num !in used
    ensures var c, calls := Started(procs, sects, used), CutRun(num, start, RecAt(sects, ROOT_INODE).size);
      && CacheInv(c) && AllPosOk(c) && CanRun(c, calls)
      && !AllPosOk(Run(c, calls)) && !NeverCuts(c, calls)
  {
    hide CacheInv, AllPosOk, RootAlone, FileToo, Do, CanRun, Run, NeverCuts, CutsOpenDir, Started, RecAt, CallOk;
    var size := RecAt(sects, ROOT_INODE).size;
    var c0, calls := Started(procs, sects, used), CutRun(num, start, size);
    OpenRootStep(procs, sects, used);
    var c1 := Do(c0, calls[0]).c;
    CreateStep(c1, num, start, size);
    var c2 := Do(c1, calls[1]).c;
    ReadStep(c2, size + DIR_ENTRY_SIZE, num);
    var c3 := Do(c2, calls[2]).c;
    CloseStep(c3, size + DIR_ENTRY_SIZE, num);
    var c4 := Do(c3, calls[3]).c;
    UnlinkStep(c4, size + DIR_ENTRY_SIZE, size, num);
    var c5 := Do(c4, calls[4]).c;
    NoCall(c5);
    assert calls[4..][1..] == [] && calls[3..][1..] == calls[4..] && calls[2..][1..] == calls[3..];
    assert calls[1..][1..] == calls[2..];
    OneCall(c4, calls[4..]);
    OneCall(c3, calls[3..]);
    OneCall(c2, calls[2..]);
    OneCall(c1, calls[1..]);
    OneCall(c0, calls);
  }

  lemma NoCall(c: Cache)
    requires CacheInv(c)
    ensures CanRun(c, []) && Run(c, []) == c
  {
  }

  /** A run is its first call and the rest. */
  lemma OneCall(c: Cache, calls: seq<Call>)
    requires CacheInv(c) && calls != []
    requires CallOk(c, calls[0]) && Do(c, calls[0]).r != PANIC
    ensures CacheInv(Do(c, calls[0]).c)
    ensures CanRun(c, calls) <==> CanRun(Do(c, calls[0]).c, calls[1..])
    ensures CanRun(c, calls) ==> Run(c, calls) == Run(Do(c, calls[0]).c, calls[1..])
    ensures CanRun(c, calls) ==>
      (NeverCuts(c, calls) <==> !CutsOpenDir(c, calls[0]) && NeverCuts(Do(c, calls[0]).c, calls[1..]))
  {
    CallKeepsInv(c, calls[0]);
  }
}
