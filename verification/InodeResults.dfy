/** What each file system call means for file slots, open files and the inodes on the disk, field by field. */
module InodeResults {
  import opened Constants
  import opened InodeSpec
  import opened InodeInvariant
  import opened InodeCalls

  /** All records but those of num and of the root directory are the same on both disks. */
  ghost predicate OtherRecs(c: Cache, c': Cache, num: nat, root: nat) {
    && CacheShape(c) && CacheShape(c') && |c'.sects| == |c.sects|
    && forall n: nat :: IsInodeNr(c, n) && n != num && n != root ==> RecAt(c'.sects, n) == RecAt(c.sects, n)
  }

  // ---------- open ----------

  /** Process p has no file slot left, or nobody a descriptor. */
  ghost predicate NoRoom(c: Cache, p: nat)
    requires CacheShape(c) && IsProc(c, p)
  {
    (forall k: nat :: k < NR_FILES ==> c.filp[FileOf(c, p, k)] != NULL)
    || (forall d: nat :: d < NR_FILE_DESC ==> c.descs[d].inode != NULL)
  }

  /** num is in no slot of the cache, and none is free. */
  ghost predicate NoSlot(c: Cache, num: nat)
    requires CacheShape(c)
  {
    forall i: nat :: i < NR_INODE ==> c.slots[i].cnt != 0 && c.slots[i].num != num
  }

  lemma NoSlotIff(c: Cache, num: nat)
    requires CacheShape(c)
    ensures Lookup(c, num) == NR_INODE <==> NoSlot(c, num)
  {
    if Lookup(c, num) == NR_INODE {
      forall i: nat | i < NR_INODE
        ensures c.slots[i].cnt != 0 && c.slots[i].num != num
      {
        assert !SlotMatches(c.slots[i], num, true) && !SlotMatches(c.slots[i], num, false);
      }
    }
  }

  predicate Wants(o: ToOpen) {
    o.flags & O_CREAT != 0
  }

  /** The file is there and is to be created, or is neither there nor to be created, or cannot be created. */
  predicate Refused(o: ToOpen) {
    if Wants(o) then o.found != 0 || !o.pathOk else o.found == 0
  }

  function Target(o: ToOpen): nat {
    if Wants(o) then o.newNum else o.found
  }

  /** When open halts the system, when it refuses, and that it gives a file slot otherwise. */
  lemma OpenResultIff(c: Cache, p: nat, o: ToOpen)
    requires CacheInv(c) && CallOk(c, Open(p, o))
    ensures CacheShape(c)
    ensures var r := Do(c, Open(p, o)).r;
      && (r == PANIC <==> NoRoom(c, p) || (!Refused(o) && (Target(o) == 0 || NoSlot(c, Target(o)))))
      && (r == -1 <==> !NoRoom(c, p) && Refused(o))
      && (r == PANIC || r == -1 || 0 <= r < NR_FILES)
  {
    hide Lookup, OpenNew, OpenOld, DirSized, Refs, Coherent, NoSlot;
    InvShape(c);
    RootHolds(c);
    NoSlotIff(c, Target(o));
    NoRoomIff(c, p);
  }

  lemma NoRoomIff(c: Cache, p: nat)
    requires CacheShape(c) && IsProc(c, p)
    ensures NoRoom(c, p) <==> FreeFile(c, p, 0) == NR_FILES || FreeDesc(c, 0) == NR_FILE_DESC
  {
    hide FreeFile, FreeDesc;
    var fd, d := FreeFile(c, p, 0), FreeDesc(c, 0);
    assert fd < NR_FILES ==> c.filp[FileOf(c, p, fd)] == NULL;
    assert d < NR_FILE_DESC ==> c.descs[d].inode == NULL;
  }

  /** File slot r of p was free, and is the first that was. Now it is open on num at the start, with the mode given, and
      no other file slot has changed. */
  ghost predicate NowOpen(c: Cache, c': Cache, p: nat, r: int, num: nat, mode: bv32) {
    && CacheShape(c) && CacheShape(c') && IsProc(c, p) && 0 <= r < NR_FILES && |c'.filp| == |c.filp|
    && var f := FileOf(c, p, r);
    && c.filp[f] == NULL && (forall k: nat :: k < r ==> c.filp[FileOf(c, p, k)] != NULL)
    && (forall g :: 0 <= g < |c.filp| && g != f ==> c'.filp[g] == c.filp[g])
    && c'.filp[f] != NULL
    && var e := c'.descs[c'.filp[f]];
    && c.descs[c'.filp[f]].inode == NULL
    && e.mode == mode && e.pos == 0 && e.cnt == 1 && e.inode != NULL && c'.slots[e.inode].num == num
  }

  lemma AttachedIsOpen(c: Cache, c1: Cache, p: nat, i: nat, num: nat, mode: bv32)
    requires CacheShape(c) && CacheShape(c1) && IsProc(c, p) && c1.filp == c.filp && c1.descs == c.descs
    requires FreeFile(c, p, 0) < NR_FILES && FreeDesc(c, 0) < NR_FILE_DESC && i < NR_INODE && c1.slots[i].num == num
    ensures var fd := FreeFile(c, p, 0);
      NowOpen(c, Attached(c1, FileOf(c, p, fd), FreeDesc(c, 0), i, mode), p, fd, num, mode)
  {
    hide FreeFile, FreeDesc;
  }

  lemma SizedIsOpen(c: Cache, c1: Cache, size: nat, p: nat, r: int, num: nat, mode: bv32)
    requires NowOpen(c, c1, p, r, num, mode) && RootOk(c1)
    ensures NowOpen(c, DirSized(c1, size), p, r, num, mode)
  {
  }

  /** An open that finds the file opens it, and changes nothing on the disk. */
  lemma OpenedMeans(c: Cache, p: nat, o: ToOpen)
    requires CacheInv(c) && CallOk(c, Open(p, o)) && !Wants(o) && Do(c, Open(p, o)).r >= 0
    ensures var c', r := Do(c, Open(p, o)).c, Do(c, Open(p, o)).r;
      NowOpen(c, c', p, r, o.found, o.flags) && c'.sects == c.sects && c'.inUse == c.inUse
  {
    hide Lookup, Refs, Coherent, FreeFile, FreeDesc, NowOpen;
    InvShape(c);
    RootHolds(c);
    GotHolds(c, o.found);
    GotShape(c, o.found);
    AttachedIsOpen(c, Got(c, o.found, Lookup(c, o.found)), p, Lookup(c, o.found), o.found, o.flags);
  }

  /** An open that makes the file opens it. Its record on the disk, and its number in the map, are new: a regular file
      of size 0, with 2048 sectors from the first one on that was given out for it. The root directory gets its size,
      and all other records are as they were. */
  lemma CreatedMeans(c: Cache, p: nat, o: ToOpen)
    requires CacheInv(c) && CallOk(c, Open(p, o)) && Wants(o) && Do(c, Open(p, o)).r >= 0
    ensures var c', r := Do(c, Open(p, o)).c, Do(c, Open(p, o)).r;
      && NowOpen(c, c', p, r, o.newNum, o.flags)
      && o.newNum !in c.inUse && c'.inUse == c.inUse + {o.newNum}
      && RootOk(c) && IsInodeNr(c, o.newNum)
      && OtherRecs(c, c', o.newNum, c.slots[c.root].num)
      && var rec := RecAt(c'.sects, o.newNum);
      && rec.mode == I_REGULAR && rec.size == 0 && rec.start == o.start && rec.sects == 2048
      && var dir := RecAt(c'.sects, c.slots[c.root].num);
      && dir == RecAt(c.sects, c.slots[c.root].num).(size := o.dirSize)
  {
    hide Lookup, Refs, Coherent, FreeFile, FreeDesc, NowOpen, OtherRecs, Attached, DirSized, RecAt, CacheShape, PutRec;
    InvShape(c);
    RootHolds(c);
    BornHolds(c, o.newNum, o.start);
    BornShape(c, o.newNum, o.start);
    var b := Born(c, o.newNum, Lookup(c, o.newNum), o.start);
    AttachedIsOpen(c, b, p, Lookup(c, o.newNum), o.newNum, o.flags);
    var a := OpenNew(c, FileOf(c, p, FreeFile(c, p, 0)), FreeDesc(c, 0), o.flags, o.newNum, o.start);
    SizedIsOpen(c, a, o.dirSize, p, FreeFile(c, p, 0), o.newNum, o.flags);
    NewState(c, o, FileOf(c, p, FreeFile(c, p, 0)), FreeDesc(c, 0));
    CreatedRecs(c, a, o);
  }

  lemma NewState(c: Cache, o: ToOpen, f: nat, d: nat)
    requires CacheShape(c) && f < |c.filp| && d < NR_FILE_DESC && Lookup(c, o.newNum) < NR_INODE
    requires IsInodeNr(c, o.newNum) && RootOk(c)
    ensures var a := OpenNew(c, f, d, o.flags, o.newNum, o.start);
      && CacheShape(a) && RootOk(a) && a.root == c.root && a.sects == PutRec(c.sects, o.newNum, NewRec(o.start))
      && a.slots == c.slots[Lookup(c, o.newNum) := Slot(NewRec(o.start), 1, o.newNum)]
      && DirSized(a, o.dirSize).inUse == c.inUse + {o.newNum}
  {
    hide Lookup, PutRec, NewRec;
  }

  lemma CreatedRecs(c: Cache, a: Cache, o: ToOpen)
    requires CacheInv(c) && c.root < NR_INODE && IsInodeNr(c, o.newNum) && o.newNum !in c.inUse
    requires CacheShape(a) && RootOk(a) && a.root == c.root && Lookup(c, o.newNum) < NR_INODE
    requires a.sects == PutRec(c.sects, o.newNum, NewRec(o.start))
    requires a.slots == c.slots[Lookup(c, o.newNum) := Slot(NewRec(o.start), 1, o.newNum)]
    requires c.slots[Lookup(c, o.newNum)].cnt == 0
    ensures RootOk(c) && OtherRecs(c, DirSized(a, o.dirSize), o.newNum, c.slots[c.root].num)
    ensures var rec := RecAt(DirSized(a, o.dirSize).sects, o.newNum);
      rec.mode == I_REGULAR && rec.size == 0 && rec.start == o.start && rec.sects == 2048
    ensures RecAt(DirSized(a, o.dirSize).sects, c.slots[c.root].num)
      == RecAt(c.sects, c.slots[c.root].num).(size := o.dirSize)
  {
    hide Lookup, Refs, RecAt, PutRec;
    RootHolds(c);
    assert Holds(c, c.root);
    var root, r := c.slots[c.root].num, c.slots[c.root].rec.(size := o.dirSize);
    var a' := DirSized(a, o.dirSize);
    assert a.slots[c.root] == c.slots[c.root];
    assert a'.sects == PutRec(a.sects, root, r);
    TwoRecs(c.sects, o.newNum, NewRec(o.start), root, r, root);
    TwoRecs(c.sects, o.newNum, NewRec(o.start), root, r, o.newNum);
    forall n: nat | IsInodeNr(c, n) && n != o.newNum && n != root
      ensures RecAt(a'.sects, n) == RecAt(c.sects, n)
    {
      TwoRecs(c.sects, o.newNum, NewRec(o.start), root, r, n);
    }
  }

  lemma TwoRecs(sects: seq<seq<Rec>>, num: nat, r: Rec, num2: nat, r2: Rec, n: nat)
    requires 1 <= num <= |sects| * RECS_PER_SECT && 1 <= num2 <= |sects| * RECS_PER_SECT
    requires 1 <= n <= |sects| * RECS_PER_SECT && forall s :: 0 <= s < |sects| ==> |sects[s]| == RECS_PER_SECT
    ensures var one := PutRec(sects, num, r);
      && |one| == |sects| && (forall s :: 0 <= s < |one| ==> |one[s]| == RECS_PER_SECT)
      && var two := PutRec(one, num2, r2);
      && |two| == |sects| && (forall s :: 0 <= s < |two| ==> |two[s]| == RECS_PER_SECT)
      && RecAt(two, n) == if n == num2 then r2 else if n == num then r else RecAt(sects, n)
  {
    hide RecAt, PutRec;
    PutRecLength(sects, num, r);
    PutRecOnly(sects, num, r, n);
    PutRecLength(PutRec(sects, num, r), num2, r2);
    PutRecOnly(PutRec(sects, num, r), num2, r2, n);
  }

  lemma PutRecLength(sects: seq<seq<Rec>>, num: nat, r: Rec)
    requires 1 <= num <= |sects| * RECS_PER_SECT && forall s :: 0 <= s < |sects| ==> |sects[s]| == RECS_PER_SECT
    ensures |PutRec(sects, num, r)| == |sects|
    ensures forall s :: 0 <= s < |sects| ==> |PutRec(sects, num, r)[s]| == RECS_PER_SECT
  {
  }

  // ---------- the other calls ----------

  /** The disk, and the numbers in use, are as before. */
  predicate SameDisk(c: Cache, c': Cache) {
    c'.sects == c.sects && c'.inUse == c.inUse
  }

  /** close gives just the one file slot up. */
  lemma ClosedMeans(c: Cache, p: nat, fd: nat)
    requires CacheInv(c) && CallOk(c, Close(p, fd))
    ensures var c' := Do(c, Close(p, fd)).c;
      SameDisk(c, c') && c'.filp == c.filp[p * NR_FILES + fd := NULL]
  {
  }

  /** A forked process has the file slots of its parent, and all others have theirs. */
  lemma ForkedMeans(c: Cache, parent: nat, child: nat)
    requires CacheInv(c) && CallOk(c, Fork(parent, child))
    ensures var c' := Do(c, Fork(parent, child)).c;
      && SameDisk(c, c') && |c'.filp| == |c.filp|
      && (forall k: nat :: k < NR_FILES ==> c'.filp[FileOf(c, child, k)] == c.filp[FileOf(c, parent, k)])
      && (forall f :: 0 <= f < |c.filp| && !(child * NR_FILES <= f < (child + 1) * NR_FILES) ==>
            c'.filp[f] == c.filp[f])
  {
    RowsApart(parent, child);
    RowFreeAll(c, child);
    forall k: nat | k < NR_FILES
      ensures Copied(c.filp, parent * NR_FILES, child * NR_FILES, NR_FILES)[FileOf(c, child, k)]
        == c.filp[FileOf(c, parent, k)]
    {
      CopiedAt(c.filp, parent * NR_FILES, child * NR_FILES, NR_FILES, k);
    }
  }

  /** A process that has ended has no file slot in use, and all others have theirs. */
  lemma ExitedMeans(c: Cache, p: nat)
    requires CacheInv(c) && CallOk(c, Exit(p))
    ensures var c' := Do(c, Exit(p)).c;
      && SameDisk(c, c') && |c'.filp| == |c.filp|
      && forall f :: 0 <= f < |c.filp| ==>
        c'.filp[f] == if p * NR_FILES <= f < (p + 1) * NR_FILES then NULL else c.filp[f]
  {
  }

  /** stat changes nothing of what is on the disk, open or counted. */
  lemma StatMeans(c: Cache, num: nat)
    requires CacheInv(c) && CallOk(c, Stat(num))
    ensures var c' := Do(c, Stat(num)).c;
      && SameDisk(c, c') && c'.filp == c.filp && c'.descs == c.descs && |c'.slots| == |c.slots|
      && (forall i :: 0 <= i < NR_INODE ==> c'.slots[i].cnt == c.slots[i].cnt)
  {
    hide Lookup, RecAt;
    if num != 0 && Lookup(c, num) < NR_INODE {
      LookupFound(c, num);
    }
  }

  /** The inode that file slot f is open on, and its position. */
  function OpenOn(c: Cache, f: nat): nat
    requires CacheShape(c) && f < |c.filp| && c.filp[f] != NULL && c.descs[c.filp[f]].inode != NULL
  {
    c.slots[c.descs[c.filp[f]].inode].num
  }

  /** A read or write that ends at pos moves the file position there. The size on the disk grows to pos if it was
      smaller; nothing else of the record changes, and no other record. */
  lemma WrittenMeans(c: Cache, p: nat, fd: nat, pos: nat)
    requires CacheInv(c) && CallOk(c, Write(p, fd, pos))
    ensures var c', f := Do(c, Write(p, fd, pos)).c, p * NR_FILES + fd;
      && CacheShape(c) && CacheShape(c') && c'.filp == c.filp && c'.inUse == c.inUse
      && c.descs[c.filp[f]].inode != NULL && IsInodeNr(c, OpenOn(c, f))
      && c'.descs == c.descs[c.filp[f] := c.descs[c.filp[f]].(pos := pos)]
      && OtherRecs(c, c', OpenOn(c, f), OpenOn(c, f))
      && var was := RecAt(c.sects, OpenOn(c, f));
      && RecAt(c'.sects, OpenOn(c, f)) == was.(size := if pos > was.size then pos else was.size)
  {
    hide Refs, RecAt, PutRec;
    var f := FileOf(c, p, fd);
    DetachKeepsInv(c, f);
    WriteKeepsInv(c, f, pos);
    InvShape(Do(c, Write(p, fd, pos)).c);
    var i := c.descs[c.filp[f]].inode;
    assert Holds(c, i);
    var r := c.slots[i].rec.(size := pos);
    PutRecLength(c.sects, c.slots[i].num, r);
    forall n: nat | IsInodeNr(c, n)
      ensures RecAt(PutRec(c.sects, c.slots[i].num, r), n) == if n == c.slots[i].num then r else RecAt(c.sects, n)
    {
      PutRecOnly(c.sects, c.slots[i].num, r, n);
    }
  }

  /** An unlink that goes through: the number is free again and the record zero, the root directory has its new size if
      the entry was the last, and all other records are as they were. No file slot changes. */
  lemma UnlinkedMeans(c: Cache, num: nat, last: bool, dirSize: nat)
    requires CacheInv(c) && CallOk(c, Unlink(num, last, dirSize)) && Do(c, Unlink(num, last, dirSize)).r == 0
    ensures var c' := Do(c, Unlink(num, last, dirSize)).c;
      && CacheShape(c') && c'.filp == c.filp && c'.descs == c.descs && c'.inUse == c.inUse - {num}
      && Listed(c, num) && RootOk(c) && c.slots[c.root].num != num
      && OtherRecs(c, c', num, c.slots[c.root].num)
      && RecAt(c'.sects, num) == Rec(0, 0, 0, 0)
      && var dir := RecAt(c.sects, c.slots[c.root].num);
      && RecAt(c'.sects, c.slots[c.root].num) == if last then dir.(size := dirSize) else dir
  {
    hide Lookup, Refs, RecAt, PutRec, OtherRecs, DirSized, InodeUnlinked, CacheShape, Openers;
    InvShape(c);
    RootHolds(c);
    RemovedState(c, num);
    RemovedRecs(c, InodeUnlinked(c, num), num, last, dirSize);
  }

  /** What unlink has done to the inode when it comes to the directory. */
  lemma RemovedState(c: Cache, num: nat)
    requires CacheInv(c) && Listed(c, num) && Lookup(c, num) < NR_INODE && c.root < NR_INODE
    requires Removable(Got(c, num, Lookup(c, num)), Lookup(c, num))
    ensures var a := InodeUnlinked(c, num);
      && CacheInv(a) && RootOk(a) && RootOk(c) && a.root == c.root && a.slots[a.root] == c.slots[c.root]
      && a.filp == c.filp && a.descs == c.descs && a.inUse == c.inUse - {num}
      && c.slots[c.root].num != num && a.sects == PutRec(c.sects, num, Rec(0, 0, 0, 0))
  {
    hide PutRec, RecAt;
    GotHolds(c, num);
    RemovableIff(c, num);
    RootHolds(c);
    RootHolds(InodeUnlinked(c, num));
    LookupFound(c, num);
    assert c.slots[c.root].cnt > 0;
  }

  lemma RemovedRecs(c: Cache, a: Cache, num: nat, last: bool, dirSize: nat)
    requires CacheInv(c) && IsInodeNr(c, num) && c.root < NR_INODE && CacheInv(a) && RootOk(a) && a.root == c.root
    requires a.slots[a.root] == c.slots[c.root] && RootOk(c) && c.slots[c.root].num != num
    requires a.sects == PutRec(c.sects, num, Rec(0, 0, 0, 0))
    ensures var c' := if last then DirSized(a, dirSize) else a;
      && OtherRecs(c, c', num, c.slots[c.root].num) && c'.filp == a.filp && c'.descs == a.descs && c'.inUse == a.inUse
      && RecAt(c'.sects, num) == Rec(0, 0, 0, 0)
      && var dir := RecAt(c.sects, c.slots[c.root].num);
      && RecAt(c'.sects, c.slots[c.root].num) == if last then dir.(size := dirSize) else dir
  {
    hide Refs, RecAt, PutRec;
    RootHolds(c);
    assert Holds(c, c.root);
    var root, zero := c.slots[c.root].num, Rec(0, 0, 0, 0);
    var r := c.slots[c.root].rec.(size := dirSize);
    PutRecLength(c.sects, num, zero);
    PutRecLength(a.sects, root, r);
    forall n: nat | IsInodeNr(c, n)
      ensures RecAt(a.sects, n) == if n == num then zero else RecAt(c.sects, n)
      ensures RecAt(DirSized(a, dirSize).sects, n)
        == if n == root then r else if n == num then zero else RecAt(c.sects, n)
    {
      PutRecOnly(c.sects, num, zero, n);
      TwoRecs(c.sects, num, zero, root, r, n);
    }
  }

  /** A refused unlink changes nothing on the disk, and no file slot. */
  lemma RefusedMeans(c: Cache, num: nat, last: bool, dirSize: nat)
    requires CacheInv(c) && CallOk(c, Unlink(num, last, dirSize)) && Do(c, Unlink(num, last, dirSize)).r != 0
    ensures var c' := Do(c, Unlink(num, last, dirSize)).c;
      SameDisk(c, c') && c'.filp == c.filp && c'.descs == c.descs
  {
    hide Lookup, Refs, Coherent, RecAt, PutRec, DirSized;
  }

  /** Unlink goes through exactly for a regular file that nobody has open, that is not the root, and of which no
      reference has leaked. It halts the system if there is no slot for it. */
  lemma UnlinkResultIff(c: Cache, num: nat, last: bool, dirSize: nat)
    requires CacheInv(c) && CallOk(c, Unlink(num, last, dirSize))
    ensures CacheShape(c)
    ensures var r := Do(c, Unlink(num, last, dirSize)).r;
      && (r == PANIC <==> num != 0 && NoSlot(c, num))
      && (r == 0 <==> UnlinkRemoves(c, num)) && (r == PANIC || r == -1 || r == 0)
  {
    hide Lookup, Refs, Coherent, RecAt, DirSized, InodeUnlinked, Openers;
    InvShape(c);
    if num != 0 {
      NoSlotIff(c, num);
      if Lookup(c, num) < NR_INODE { RemovableIff(c, num); }
    }
  }
}
