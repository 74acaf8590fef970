/** The file system's tables, and the calls that change them in place. */
module FileTable {
  import opened InodeSpec
  import opened InodeInvariant
  import opened InodeCalls

  class Tables {
    const inodes: array<Slot>
    const descs: array<Desc>
    const filp: array<int>
    const sects: array<seq<Rec>>
    var root: nat
    ghost var inUse: set<nat>
    ghost var leaks: seq<nat>

    ghost function Value(): Cache
      reads this, inodes, descs, filp, sects
    {
      Cache(inodes[..], descs[..], filp[..], sects[..], inUse, leaks, root)
    }

    ghost predicate Shape()
      reads this, inodes, descs, filp, sects
    {
      CacheShape(Value())
    }

    ghost predicate Valid()
      reads this, inodes, descs, filp, sects
    {
      CacheInv(Value())
    }

    /** Empty tables, and the root directory's inode got for good. */
    constructor (procs: nat, disk: seq<seq<Rec>>, ghost used: set<nat>)
      requires Formatted(disk, used)
      ensures Valid() && fresh(inodes) && fresh(descs) && fresh(filp) && fresh(sects)
      ensures Value() == Got(Empty(procs, disk, used), ROOT_INODE, 0).(root := 0)
    {
      inodes := new Slot[NR_INODE](i => Slot(Rec(0, 0, 0, 0), 0, 0));
      descs := new Desc[NR_FILE_DESC](d => Desc(0, 0, 0, NULL));
      filp := new int[procs * NR_FILES](f => NULL);
      sects := new seq<Rec>[|disk|](s requires 0 <= s < |disk| => disk[s]);
      root := NR_INODE;
      inUse := used;
      leaks := seq(NR_INODE, i => 0);
      new;
      hide CacheInv, Lookup;
      assert sects[..] == disk;
      assert Value() == Empty(procs, disk, used);
      StartKeepsInv(procs, disk, used);
      root := GetInode(ROOT_INODE);
    }

    /** The slot that holds inode num, with one more reference to it. */
    method GetInode(num: nat) returns (q: int)
      requires Shape() && (num != 0 ==> IsInodeNr(Value(), num))
      modifies inodes
      ensures num == 0 ==> q == NULL && Value() == old(Value())
      ensures num != 0 ==>
                var i := Lookup(old(Value()), num);
                if i == NR_INODE then q == PANIC && Value() == old(Value())
                else q == i && Value() == Got(old(Value()), num, i)
    {
      hide Got, FirstSlot, IsInodeNr;
      if num == 0 {
        return NULL;
      }
      ghost var c := Value();
      var free := NULL;
      var p := 0;
      SlotsEnd(c, num);
      while p < NR_INODE
        invariant 0 <= p <= NR_INODE && Value() == c
        invariant FirstSlot(c, num, true, 0) == FirstSlot(c, num, true, p)
        invariant free == NULL ==> FirstSlot(c, num, false, 0) == FirstSlot(c, num, false, p)
        invariant free != NULL ==> 0 <= free < NR_INODE && FirstSlot(c, num, false, 0) == free
      {
        SlotPassed(c, num, p);
        if inodes[p].cnt != 0 {
          if inodes[p].num == num {
            CountUp(num, p);
            return p;
          }
        } else if free == NULL {
          free := p;
        }
        p := p + 1;
      }
      if free == NULL {
        return PANIC;
      }
      LoadInode(num, free);
      return free;
    }

    method CountUp(num: nat, p: nat)
      requires Shape() && IsInodeNr(Value(), num) && p < NR_INODE && inodes[p].cnt != 0
      modifies inodes
      ensures Value() == Got(old(Value()), num, p)
    {
      inodes[p] := inodes[p].(cnt := inodes[p].cnt + 1);
      assert inodes[..] == Got(old(Value()), num, p).slots;
    }

    /** Read inode num from the disk into a free slot. */
    method LoadInode(num: nat, q: nat)
      requires Shape() && IsInodeNr(Value(), num) && q < NR_INODE && inodes[q].cnt == 0
      modifies inodes
      ensures Value() == Got(old(Value()), num, q)
    {
      inodes[q] := inodes[q].(num := num, cnt := 1);
      var buf := sects[(num - 1) / RECS_PER_SECT];
      inodes[q] := inodes[q].(rec := buf[(num - 1) % RECS_PER_SECT]);
      assert inodes[..] == Got(old(Value()), num, q).slots;
    }

    /** Give a reference back. */
    method PutInode(i: nat)
      requires Shape() && i < NR_INODE && inodes[i].cnt > 0
      modifies inodes
      ensures Value() == Put(old(Value()), i)
    {
      inodes[i] := inodes[i].(cnt := inodes[i].cnt - 1);
      assert inodes[..] == Put(old(Value()), i).slots;
    }

    /** Write a slot's inode back to the disk. */
    method SyncInode(i: nat)
      requires Shape() && i < NR_INODE && IsInodeNr(Value(), inodes[i].num)
      modifies sects
      ensures Value() == old(Value()).(sects := PutRec(old(sects[..]), inodes[i].num, inodes[i].rec))
    {
      var blk, k := (inodes[i].num - 1) / RECS_PER_SECT, (inodes[i].num - 1) % RECS_PER_SECT;
      var buf := sects[blk];
      buf := buf[k := inodes[i].rec];
      sects[blk] := buf;
      assert sects[..] == PutRec(old(sects[..]), inodes[i].num, inodes[i].rec);
    }

    /** Change a cached inode and write it through. */
    method SetInode(i: nat, r: Rec)
      requires Shape() && i < NR_INODE && IsInodeNr(Value(), inodes[i].num)
      modifies inodes, sects
      ensures Value() == Updated(old(Value()), i, r)
    {
      inodes[i] := inodes[i].(rec := r);
      SyncInode(i);
      assert inodes[..] == Updated(old(Value()), i, r).slots;
    }

    /** Fill in the new inode and write it through. */
    method InitInode(q: nat, num: nat, start: nat)
      requires Shape() && q < NR_INODE && IsInodeNr(Value(), num)
      modifies inodes, sects
      ensures Value() == old(Value()).(
                         slots := old(inodes[..])[q := Slot(NewRec(start), 1, num)],
                         sects := PutRec(old(sects[..]), num, NewRec(start)))
    {
      inodes[q] := inodes[q].(rec := NewRec(start), cnt := 1, num := num);
      SyncInode(q);
      assert inodes[..] == old(inodes[..])[q := Slot(NewRec(start), 1, num)];
    }

    /** A slot for the new inode num, which the inode map has just given out. */
    method NewInode(num: nat, start: nat) returns (q: int)
      requires Shape() && IsInodeNr(Value(), num)
      modifies this`inUse, inodes, sects
      ensures var i := Lookup(old(Value()), num);
        if i == NR_INODE then q == PANIC && Value() == Taken(old(Value()), num)
        else q == i && Value() == Born(old(Value()), num, i, start)
    {
      hide Lookup, PutRec, RecAt;
      ghost var c := Value();
      LookupTaken(c, num);
      inUse := inUse + {num};
      assert Value() == Taken(c, num);
      q := GetInode(num);
      if q != PANIC {
        InitInode(q, num, start);
      }
    }

    // ---------- open, close, stat ----------

    method FindFile(p: nat) returns (fd: nat)
      requires Shape() && IsProc(Value(), p)
      ensures fd == FreeFile(Value(), p, 0)
    {
      fd := 0;
      while fd < NR_FILES && filp[p * NR_FILES + fd] != NULL
        invariant fd <= NR_FILES && FreeFile(Value(), p, 0) == FreeFile(Value(), p, fd)
        decreases NR_FILES - fd
      {
        fd := fd + 1;
      }
    }

    method FindDesc() returns (d: nat)
      requires Shape()
      ensures d == FreeDesc(Value(), 0)
    {
      d := 0;
      while d < NR_FILE_DESC && descs[d].inode != NULL
        invariant d <= NR_FILE_DESC && FreeDesc(Value(), 0) == FreeDesc(Value(), d)
        decreases NR_FILE_DESC - d
      {
        d := d + 1;
      }
    }

    /** Connect the process with the descriptor, and the descriptor with the inode. */
    method Connect(f: nat, d: nat, i: nat, flags: bv32)
      requires Shape() && f < filp.Length && d < NR_FILE_DESC && i < NR_INODE
      modifies filp, descs
      ensures Value() == Attached(old(Value()), f, d, i, flags)
    {
      filp[f] := d;
      descs[d] := descs[d].(inode := i);
      descs[d] := descs[d].(mode := flags, cnt := 1, pos := 0);
      assert descs[..] == Attached(old(Value()), f, d, i, flags).descs;
    }

    /** The root directory's inode gets a new size. */
    method SetDirSize(size: nat)
      requires Shape() && RootOk(Value())
      modifies inodes, sects
      ensures Value() == DirSized(old(Value()), size)
    {
      SetInode(root, inodes[root].rec.(size := size));
    }

    /** Make a file: its inode, and the size of the directory with the new entry. */
    method CreateFile(o: ToOpen) returns (pin: int)
      requires Shape() && ToOpenOk(Value(), o) && Creates(o) && o.newNum != 0
      modifies this`inUse, inodes, sects
      ensures var i := Lookup(old(Value()), o.newNum);
        if i == NR_INODE then pin == PANIC && Value() == Taken(old(Value()), o.newNum)
        else
          var b := Born(old(Value()), o.newNum, i, o.start);
          pin == i && CacheShape(b) && RootOk(b) && Value() == DirSized(b, o.dirSize)
    {
      hide Lookup, PutRec;
      BornShape(Value(), o.newNum, o.start);
      pin := NewInode(o.newNum, o.start);
      if pin != PANIC {
        SetDirSize(o.dirSize);
      }
    }

    /** Make or look up the inode, and connect it. */
    method OpenInode(f: nat, fd: nat, d: nat, o: ToOpen) returns (r: int)
      requires Shape() && f < filp.Length && d < NR_FILE_DESC && ToOpenOk(Value(), o)
      modifies this`inUse, inodes, descs, filp, sects
      ensures Outcome(r, Value()) == OpenAt(old(Value()), f, fd, d, o)
    {
      hide Lookup, Got, Born, PutRec;
      ghost var c := Value();
      var pin := NULL;
      if o.flags & O_CREAT != 0 {
        if o.found != 0 {
          return -1;
        }
        if o.pathOk {
          if o.newNum == 0 {
            return PANIC;
          }
          pin := CreateFile(o);
        }
      } else {
        pin := GetInode(o.found);
        GotShape(c, o.found);
      }
      if pin == PANIC {
        return PANIC;
      }
      if pin == NULL {
        return -1;
      }
      Connect(f, d, pin, o.flags);
      return fd;
    }

    method Open(p: nat, o: ToOpen) returns (r: int)
      requires Valid() && Shape() && CallOk(Value(), Call.Open(p, o))
      modifies this`inUse, inodes, descs, filp, sects
      ensures Outcome(r, Value()) == DoOpen(old(Value()), p, o)
      ensures Valid()
    {
      hide OpenAt, FreeFile, FreeDesc, CacheInv;
      OpenKeepsInv(Value(), p, o);
      RootHolds(Value());
      var fd := FindFile(p);
      if fd == NR_FILES {
        return PANIC;
      }
      var d := FindDesc();
      if d == NR_FILE_DESC {
        return PANIC;
      }
      r := OpenInode(p * NR_FILES + fd, fd, d, o);
    }

    /** Give up file slot f, its descriptor's count, and the descriptor itself if nobody else uses it. */
    method Release(f: nat)
      requires Shape() && f < filp.Length && filp[f] != NULL && descs[filp[f]].inode != NULL
      modifies inodes, descs, filp
      ensures Value() == Detached(old(Value()), f)
    {
      var d := filp[f];
      var i := descs[d].inode;
      inodes[i] := inodes[i].(cnt := inodes[i].cnt - 1);
      descs[d] := descs[d].(cnt := descs[d].cnt - 1);
      if descs[d].cnt == 0 {
        descs[d] := descs[d].(inode := NULL);
      }
      filp[f] := NULL;
      assert descs[..] == Detached(old(Value()), f).descs;
      assert inodes[..] == Detached(old(Value()), f).slots;
    }

    method Close(p: nat, fd: nat)
      requires Valid() && Shape() && CallOk(Value(), Call.Close(p, fd))
      modifies inodes, descs, filp
      ensures Value() == DoClose(old(Value()), p, fd)
      ensures Valid()
    {
      DetachKeepsInv(Value(), FileOf(Value(), p, fd));
      hide CacheInv;
      Release(p * NR_FILES + fd);
    }

    method Stat(num: nat) returns (r: int)
      requires Valid() && Shape() && CallOk(Value(), Call.Stat(num))
      modifies inodes
      ensures Outcome(r, Value()) == DoStat(old(Value()), num)
      ensures Valid()
    {
      CallKeepsInv(Value(), Call.Stat(num));
      if num == 0 {
        return -1;
      }
      ghost var c := Value();
      if Lookup(c, num) < NR_INODE {
        GotHolds(c, num);
      }
      hide CacheInv, Lookup;
      var pin := GetInode(num);
      if pin == PANIC {
        return PANIC;
      }
      PutInode(pin);
      return 0;
    }

    // ---------- fork and exit ----------

    /** The child's file slots are copied with the rest of its process table entry, then each is counted. */
    method ForkFiles(parent: nat, child: nat)
      requires Valid() && Shape() && CallOk(Value(), Call.Fork(parent, child))
      modifies inodes, descs, filp
      ensures Value() == DoFork(old(Value()), parent, child)
      ensures Valid()
    {
      RowsApart(parent, child);
      RowFreeAll(Value(), child);
      var from, to := parent * NR_FILES, child * NR_FILES;
      ghost var c := Value();
      CopyFiles(from, to);
      CountFiles(c, from, to);
    }

    method CopyFiles(from: nat, to: nat)
      requires Shape() && from + NR_FILES <= filp.Length && to + NR_FILES <= filp.Length
      requires from + NR_FILES <= to || to + NR_FILES <= from
      modifies filp
      ensures Value() == old(Value()).(filp := Copied(old(filp[..]), from, to, NR_FILES))
    {
      ghost var was := filp[..];
      hide Copied;
      var n := 0;
      while n < NR_FILES
        invariant n <= NR_FILES && filp[..] == Copied(was, from, to, n)
      {
        CopiedNext(was, from, to, n);
        filp[to + n] := filp[from + n];
        n := n + 1;
      }
    }

    /** c is the state before the file slots were copied. */
    method CountFiles(ghost c: Cache, from: nat, to: nat)
      requires CacheInv(c) && from + NR_FILES <= |c.filp| && to + NR_FILES <= |c.filp|
      requires from + NR_FILES <= to || to + NR_FILES <= from
      requires forall f :: to <= f < to + NR_FILES ==> c.filp[f] == NULL
      requires Value() == c.(filp := Copied(c.filp, from, to, NR_FILES))
      modifies inodes, descs
      ensures Value() == Forked(c, from, to, NR_FILES)
    {
      hide CacheInv, Copied, ShareStep;
      ghost var all := Copied(c.filp, from, to, NR_FILES);
      var n := 0;
      while n < NR_FILES
        invariant n <= NR_FILES && Value() == Forked(c, from, to, n).(filp := all)
      {
        ForkedMore(c, from, to, n + 1);
        CopiedAt(c.filp, from, to, NR_FILES, n);
        CountFile(c, Forked(c, from, to, n), from, to, n);
        n := n + 1;
      }
    }

    method CountFile(ghost c: Cache, ghost b: Cache, from: nat, to: nat, n: nat)
      requires CacheInv(b) && |b.filp| == filp.Length && from + n < filp.Length && to + n < filp.Length
      requires b.filp[to + n] == NULL && filp[to + n] == b.filp[from + n]
      requires Value() == b.(filp := filp[..])
      modifies inodes, descs
      ensures Value() == ShareStep(b, to + n, from + n).(filp := filp[..])
    {
      var d := filp[to + n];
      if d != NULL {
        InUseHasInode(b, NULL, from + n);
        var i := descs[d].inode;
        descs[d] := descs[d].(cnt := descs[d].cnt + 1);
        inodes[i] := inodes[i].(cnt := inodes[i].cnt + 1);
      }
    }

    method ReleaseIfOpen(f: nat)
      requires Valid() && f < filp.Length
      modifies inodes, descs, filp
      ensures Value() == DetachStep(old(Value()), f)
    {
      if filp[f] != NULL {
        DetachKeepsInv(Value(), f);
        Release(f);
      } else {
        assert filp[..] == filp[..][f := NULL];
      }
    }

    method ExitFiles(p: nat)
      requires Valid() && Shape() && CallOk(Value(), Call.Exit(p))
      modifies inodes, descs, filp
      ensures Value() == Exited(old(Value()), p, NR_FILES)
      ensures Valid()
    {
      ghost var c := Value();
      hide CacheInv, DetachStep, Exited, Cleared;
      var n := 0;
      while n < NR_FILES
        invariant n <= NR_FILES && Value() == Exited(c, p, n)
      {
        ExitedMore(c, p, n + 1);
        ReleaseIfOpen(p * NR_FILES + n);
        n := n + 1;
      }
    }

    // ---------- write and unlink ----------

    /** The end of a write: the file position is pos, and the file has grown if that lies beyond its end. */
    method EndWrite(f: nat, pos: nat)
      requires Valid() && f < filp.Length && filp[f] != NULL
      modifies inodes, descs, sects
      ensures Value() == Written(old(Value()), f, pos)
      ensures Valid()
    {
      ghost var c := Value();
      WriteKeepsInv(c, f, pos);
      DetachKeepsInv(c, f);
      var d := filp[f];
      var i := descs[d].inode;
      assert Holds(c, i);
      descs[d] := descs[d].(pos := pos);
      if pos > inodes[i].rec.size {
        SetInode(i, inodes[i].rec.(size := pos));
      }
    }

    /** With a reference to slot pin taken: remove the inode, or refuse and forget the reference. */
    method RemoveOrRefuse(pin: nat) returns (r: int)
      requires Shape() && pin < NR_INODE && IsInodeNr(Value(), inodes[pin].num) && inodes[pin].cnt > 0
      modifies this`inUse, this`leaks, inodes, sects
      ensures Outcome(r, Value()) ==
        Outcome(if Removable(old(Value()), pin) then 0 else -1, Unlinked(old(Value()), pin))
    {
      if inodes[pin].rec.mode != I_REGULAR || inodes[pin].cnt > 1 {
        leaks := leaks[pin := leaks[pin] + 1];
        return -1;
      }
      inUse := inUse - {inodes[pin].num};
      SetInode(pin, EMPTY_REC);
      PutInode(pin);
      return 0;
    }

    /** unlink, but for the maps and the directory's entries. */
    method Unlink(num: nat, last: bool, dirSize: nat) returns (r: int)
      requires Valid() && Shape() && CallOk(Value(), Call.Unlink(num, last, dirSize))
      modifies this`inUse, this`leaks, inodes, sects
      ensures Outcome(r, Value()) == DoUnlink(old(Value()), num, last, dirSize)
      ensures Valid()
    {
      hide CacheInv, Lookup, Unlinked, Removable, DirSized;
      CallKeepsInv(Value(), Call.Unlink(num, last, dirSize));
      if num == 0 {
        return -1;
      }
      if Lookup(Value(), num) < NR_INODE {
        GotHolds(Value(), num);
        RootHolds(InodeUnlinked(Value(), num));
        InvShape(InodeUnlinked(Value(), num));
      }
      var pin := GetInode(num);
      if pin == PANIC {
        return PANIC;
      }
      r := RemoveOrRefuse(pin);
      if r == 0 && last {
        SetDirSize(dirSize);
      }
    }
  }
}
