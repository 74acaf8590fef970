/** The calls open, close, stat, fork, exit, write and unlink as steps on the cache. */
module InodeCalls {
  import opened Constants
  import opened InodeSpec
  import opened InodeInvariant

  const O_CREAT: bv32 := 1
  const PANIC := -2   // the system halts

  /** What open is given. found is what the directory says about the name, 0 if it has no such entry. newNum and
      start are what the inode map and the sector map give out when a file is created, newNum is 0 if the inode map
      is full. dirSize is the size the directory has with the new entry. */
  datatype ToOpen = ToOpen(flags: bv32, pathOk: bool, found: nat, newNum: nat, start: nat, dirSize: nat)

  /** For unlink, last says that the entry is the last of the directory, and dirSize is the size that is left. */
  datatype Call =
    | Open(p: nat, o: ToOpen)
    | Close(p: nat, fd: nat)
    | Stat(num: nat)
    | Fork(parent: nat, child: nat)
    | Exit(p: nat)
    | Write(p: nat, fd: nat, pos: nat)
    | Unlink(num: nat, last: bool, dirSize: nat)

  predicate IsProc(c: Cache, p: nat) {
    (p + 1) * NR_FILES <= |c.filp|
  }

  /** File slot fd of process p. */
  function FileOf(c: Cache, p: nat, fd: nat): (f: nat)
    requires IsProc(c, p) && fd < NR_FILES
    ensures f < |c.filp|
  {
    p * NR_FILES + fd
  }

  predicate Listed(c: Cache, num: nat) {
    IsInodeNr(c, num) && num in c.inUse
  }

  predicate RowFree(c: Cache, p: nat)
    requires IsProc(c, p)
  {
    forall fd :: 0 <= fd < NR_FILES ==> c.filp[FileOf(c, p, fd)] == NULL
  }

  lemma RowFreeAll(c: Cache, p: nat)
    requires IsProc(c, p) && RowFree(c, p)
    ensures forall f :: p * NR_FILES <= f < p * NR_FILES + NR_FILES ==> c.filp[f] == NULL
  {
    forall f | p * NR_FILES <= f < p * NR_FILES + NR_FILES
      ensures c.filp[f] == NULL
    {
      assert f == FileOf(c, p, f - p * NR_FILES);
    }
  }

  /** The call makes a new file. */
  predicate Creates(o: ToOpen) {
    o.flags & O_CREAT != 0 && o.found == 0 && o.pathOk
  }

  function RootSize(c: Cache): nat
    requires CacheShape(c) && c.root < NR_INODE
  {
    c.slots[c.root].rec.size
  }

  predicate RootOk(c: Cache)
    requires CacheShape(c)
  {
    c.root < NR_INODE && IsInodeNr(c, c.slots[c.root].num)
  }

  /** The root directory gets a new size, which is written through. */
  function DirSized(c: Cache, size: nat): (c': Cache)
    requires CacheShape(c) && RootOk(c)
    ensures CacheShape(c')
  {
    var r := c.slots[c.root].rec.(size := size);
    PutRecOnly(c.sects, c.slots[c.root].num, r, c.slots[c.root].num);
    Updated(c, c.root, r)
  }

  lemma RootHolds(c: Cache)
    requires CacheInv(c) && c.root < NR_INODE
    ensures RootOk(c) && c.slots[c.root].cnt > 0
  {
    assert SlotCounted(c, c.root, NULL);
    assert Holds(c, c.root);
  }

  lemma DirSizedKeepsInv(c: Cache, size: nat)
    requires CacheInv(c) && c.root < NR_INODE
    ensures RootOk(c) && CacheInv(DirSized(c, size))
  {
    RootHolds(c);
    UpdateKeepsInv(c, NULL, c.root, c.slots[c.root].rec.(size := size));
  }

  /** What the callers and the rest of the file system guarantee: directory entries name inodes in use, the inode
      map gives out numbers not in use, a file slot used is open, and the process slot forked into is free. A new
      directory entry fills a hole or adds one at the end, and cutting the last one off makes no directory larger. */
  predicate CallOk(c: Cache, call: Call)
    requires CacheShape(c)
  {
    match call
    case Open(p, o) =>
      && IsProc(c, p) && (o.found != 0 ==> Listed(c, o.found)) && (!o.pathOk ==> o.found == 0) && c.root < NR_INODE
      && (Creates(o) ==>
            && (o.newNum != 0 ==> IsInodeNr(c, o.newNum) && o.newNum !in c.inUse)
            && (o.dirSize == RootSize(c) || o.dirSize == RootSize(c) + DIR_ENTRY_SIZE))
    case Close(p, fd) => IsProc(c, p) && fd < NR_FILES && c.filp[FileOf(c, p, fd)] != NULL
    case Stat(num) => num != 0 ==> Listed(c, num)
    case Fork(parent, child) => IsProc(c, parent) && IsProc(c, child) && parent != child && RowFree(c, child)
    case Exit(p) => IsProc(c, p)
    case Write(p, fd, pos) => IsProc(c, p) && fd < NR_FILES && c.filp[FileOf(c, p, fd)] != NULL
    case Unlink(num, last, dirSize) =>
      (num != 0 ==> Listed(c, num)) && c.root < NR_INODE && (last ==> dirSize <= RootSize(c))
  }

  /** A result, and the state left behind. */
  datatype Outcome = Outcome(r: int, c: Cache)

  function FreeFile(c: Cache, p: nat, n: nat): (fd: nat)
    requires IsProc(c, p) && n <= NR_FILES
    ensures n <= fd <= NR_FILES && (fd < NR_FILES ==> c.filp[FileOf(c, p, fd)] == NULL)
    ensures forall k :: n <= k < fd ==> c.filp[FileOf(c, p, k)] != NULL
    decreases NR_FILES - n
  {
    if n == NR_FILES || c.filp[FileOf(c, p, n)] == NULL then n else FreeFile(c, p, n + 1)
  }

  function FreeDesc(c: Cache, n: nat): (d: nat)
    requires CacheShape(c) && n <= NR_FILE_DESC
    ensures n <= d <= NR_FILE_DESC && (d < NR_FILE_DESC ==> c.descs[d].inode == NULL)
    ensures forall k :: n <= k < d ==> c.descs[k].inode != NULL
    decreases NR_FILE_DESC - n
  {
    if n == NR_FILE_DESC || c.descs[n].inode == NULL then n else FreeDesc(c, n + 1)
  }

  function Taken(c: Cache, num: nat): Cache {
    c.(inUse := c.inUse + {num})
  }

  function NewRec(start: nat): Rec {
    Rec(I_REGULAR, 0, start, NR_DEFAULT_FILE_SECTS)
  }

  /** Open the existing file num. */
  function OpenOld(c: Cache, f: nat, d: nat, flags: bv32, num: nat): Cache
    requires CacheShape(c) && f < |c.filp| && d < NR_FILE_DESC && Listed(c, num) && Lookup(c, num) < NR_INODE
  {
    Attached(Got(c, num, Lookup(c, num)), f, d, Lookup(c, num), flags)
  }

  /** The new inode num in slot i, with its first record, which is written through. */
  function Born(c: Cache, num: nat, i: nat, start: nat): Cache
    requires CacheShape(c) && IsInodeNr(c, num) && i < NR_INODE
  {
    Taken(c, num).(slots := c.slots[i := Slot(NewRec(start), 1, num)], sects := PutRec(c.sects, num, NewRec(start)))
  }

  lemma BornShape(c: Cache, num: nat, start: nat)
    requires CacheShape(c) && IsInodeNr(c, num)
    ensures Lookup(c, num) < NR_INODE ==>
              var b := Born(c, num, Lookup(c, num), start);
              CacheShape(b) && (RootOk(c) ==> RootOk(b))
  {
    PutRecOnly(c.sects, num, NewRec(start), num);
  }

  lemma GotShape(c: Cache, num: nat)
    requires CacheShape(c)
    ensures IsInodeNr(c, num) && Lookup(c, num) < NR_INODE ==> CacheShape(Got(c, num, Lookup(c, num)))
  {
  }

  /** Make the new inode num and open it. */
  function OpenNew(c: Cache, f: nat, d: nat, flags: bv32, num: nat, start: nat): (c': Cache)
    requires CacheShape(c) && f < |c.filp| && d < NR_FILE_DESC && Lookup(c, num) < NR_INODE && IsInodeNr(c, num)
    ensures CacheShape(c') && (RootOk(c) ==> RootOk(c'))
  {
    PutRecOnly(c.sects, num, NewRec(start), num);
    Attached(Born(c, num, Lookup(c, num), start), f, d, Lookup(c, num), flags)
  }

  predicate ToOpenOk(c: Cache, o: ToOpen)
    requires CacheShape(c)
  {
    && RootOk(c) && (o.found != 0 ==> Listed(c, o.found))
    && (Creates(o) && o.newNum != 0 ==> IsInodeNr(c, o.newNum))
  }

  /** With a free file slot and a free descriptor found: make or look up the inode, and open it. */
  function OpenAt(c: Cache, f: nat, fd: nat, d: nat, o: ToOpen): Outcome
    requires CacheShape(c) && f < |c.filp| && d < NR_FILE_DESC && ToOpenOk(c, o)
  {
    if o.flags & O_CREAT != 0 then
      if o.found != 0 || !o.pathOk then Outcome(-1, c)
      else if o.newNum == 0 then Outcome(PANIC, c)
      else if Lookup(c, o.newNum) == NR_INODE then Outcome(PANIC, Taken(c, o.newNum))
      else Outcome(fd, DirSized(OpenNew(c, f, d, o.flags, o.newNum, o.start), o.dirSize))
    else if o.found == 0 then Outcome(-1, c)
    else if Lookup(c, o.found) == NR_INODE then Outcome(PANIC, c)
    else Outcome(fd, OpenOld(c, f, d, o.flags, o.found))
  }

  ghost function DoOpen(c: Cache, p: nat, o: ToOpen): Outcome
    requires CacheInv(c) && CallOk(c, Open(p, o))
  {
    RootHolds(c);
    var fd, d := FreeFile(c, p, 0), FreeDesc(c, 0);
    if fd == NR_FILES || d == NR_FILE_DESC then Outcome(PANIC, c)
    else OpenAt(c, FileOf(c, p, fd), fd, d, o)
  }

  ghost function DoClose(c: Cache, p: nat, fd: nat): Cache
    requires CacheInv(c) && CallOk(c, Close(p, fd))
  {
    DetachKeepsInv(c, FileOf(c, p, fd));
    Detached(c, FileOf(c, p, fd))
  }

  ghost function DoStat(c: Cache, num: nat): Outcome
    requires CacheInv(c) && CallOk(c, Stat(num))
  {
    if num == 0 then Outcome(-1, c)
    else if Lookup(c, num) == NR_INODE then Outcome(PANIC, c)
    else Outcome(0, Put(Got(c, num, Lookup(c, num)), Lookup(c, num)))
  }

  /** The n file slots at from, copied over those at to. */
  function Copied(filp: seq<int>, from: nat, to: nat, n: nat): (s: seq<int>)
    requires from + n <= |filp| && to + n <= |filp|
    ensures |s| == |filp| && (n == 0 ==> s == filp)
  {
    filp[..to] + filp[from..from + n] + filp[to + n..]
  }

  lemma CopiedAt(filp: seq<int>, from: nat, to: nat, n: nat, k: nat)
    requires k < n && from + n <= |filp| && to + n <= |filp|
    ensures Copied(filp, from, to, n)[to + k] == filp[from + k]
  {
  }

  lemma CopiedMore(filp: seq<int>, from: nat, to: nat, n: nat)
    requires 0 < n && from + n <= |filp| && to + n <= |filp| && (from + n <= to || to + n <= from)
    ensures Copied(filp, from, to, n) == Copied(filp, from, to, n - 1)[to + n - 1 := filp[from + n - 1]]
    ensures Copied(filp, from, to, n - 1)[to + n - 1] == filp[to + n - 1]
    ensures Copied(filp, from, to, n - 1)[from + n - 1] == filp[from + n - 1]
  {
  }

  lemma CopiedNext(filp: seq<int>, from: nat, to: nat, n: nat)
    requires from + n < |filp| && to + n < |filp| && (from + n < to || to + n < from)
    ensures Copied(filp, from, to, n)[to + n := Copied(filp, from, to, n)[from + n]] == Copied(filp, from, to, n + 1)
  {
    CopiedMore(filp, from, to, n + 1);
  }

  lemma RowsApart(p: nat, q: nat)
    requires p != q
    ensures (p + 1) * NR_FILES <= q * NR_FILES || (q + 1) * NR_FILES <= p * NR_FILES
  {
    if p < q {
      assert (p + 1) * NR_FILES <= q * NR_FILES;
    } else {
      assert (q + 1) * NR_FILES <= p * NR_FILES;
    }
  }

  /** A free file slot f comes to share what g has open, if anything. */
  ghost function ShareStep(c: Cache, f: nat, g: nat): (c': Cache)
    requires CacheInv(c) && f < |c.filp| && g < |c.filp| && c.filp[f] == NULL
    ensures CacheInv(c') && c'.inUse == c.inUse && c'.leaks == c.leaks && c'.root == c.root && c'.sects == c.sects
    ensures c'.filp == c.filp[f := c.filp[g]]
  {
    if c.filp[g] == NULL then c
    else
      ShareKeepsInv(c, f, g);
      Shared(c, f, c.filp[g])
  }

  /** File slot f is given up, if it is open. */
  ghost function DetachStep(c: Cache, f: nat): (c': Cache)
    requires CacheInv(c) && f < |c.filp|
    ensures CacheInv(c') && c'.inUse == c.inUse && c'.leaks == c.leaks && c'.root == c.root && c'.sects == c.sects
    ensures c'.filp == c.filp[f := NULL]
  {
    if c.filp[f] == NULL then c
    else
      DetachKeepsInv(c, f);
      Detached(c, f)
  }

  /** The first n of the file slots at to, which are free, have come to share what those at from have open. */
  ghost function Forked(c: Cache, from: nat, to: nat, n: nat): (c': Cache)
    requires CacheInv(c) && from + n <= |c.filp| && to + n <= |c.filp| && (from + n <= to || to + n <= from)
    requires forall f :: to <= f < to + n ==> c.filp[f] == NULL
    ensures CacheInv(c') && c'.inUse == c.inUse && c'.leaks == c.leaks && c'.root == c.root && c'.sects == c.sects
    ensures c'.filp == Copied(c.filp, from, to, n)
  {
    hide Copied;
    if n == 0 then c
    else
      CopiedMore(c.filp, from, to, n);
      ShareStep(Forked(c, from, to, n - 1), to + n - 1, from + n - 1)
  }

  lemma ForkedMore(c: Cache, from: nat, to: nat, n: nat)
    requires CacheInv(c) && 0 < n && from + n <= |c.filp| && to + n <= |c.filp| && (from + n <= to || to + n <= from)
    requires forall f :: to <= f < to + n ==> c.filp[f] == NULL
    ensures var b := Forked(c, from, to, n - 1);
      && |b.filp| == |c.filp| && b.filp[to + n - 1] == NULL && b.filp[from + n - 1] == c.filp[from + n - 1]
      && Forked(c, from, to, n) == ShareStep(b, to + n - 1, from + n - 1)
  {
    hide CacheInv, ShareStep, Copied;
    CopiedMore(c.filp, from, to, n);
  }

  function Cleared(filp: seq<int>, at: nat, n: nat): (s: seq<int>)
    requires at + n <= |filp|
    ensures |s| == |filp|
  {
    filp[..at] + seq(n, k => NULL) + filp[at + n..]
  }

  lemma ClearedMore(filp: seq<int>, at: nat, n: nat)
    requires at + n < |filp|
    ensures Cleared(filp, at, n)[at + n := NULL] == Cleared(filp, at, n + 1)
    ensures Cleared(filp, at, n)[at + n] == filp[at + n]
  {
  }

  /** Process p has given up its first n file slots. */
  ghost function Exited(c: Cache, p: nat, n: nat): (c': Cache)
    requires CacheInv(c) && IsProc(c, p) && n <= NR_FILES
    ensures CacheInv(c') && c'.inUse == c.inUse && c'.leaks == c.leaks && c'.root == c.root && c'.sects == c.sects
    ensures c'.filp == Cleared(c.filp, p * NR_FILES, n) && (n == 0 ==> c' == c)
  {
    if n == 0 then c
    else
      ClearedMore(c.filp, p * NR_FILES, n - 1);
      DetachStep(Exited(c, p, n - 1), FileOf(c, p, n - 1))
  }

  lemma ExitedMore(c: Cache, p: nat, n: nat)
    requires CacheInv(c) && IsProc(c, p) && 0 < n <= NR_FILES
    ensures |Exited(c, p, n - 1).filp| == |c.filp|
    ensures Exited(c, p, n) == DetachStep(Exited(c, p, n - 1), p * NR_FILES + n - 1)
  {
    hide CacheInv, DetachStep;
  }

  ghost function DoFork(c: Cache, parent: nat, child: nat): Cache
    requires CacheInv(c) && CallOk(c, Fork(parent, child))
  {
    RowsApart(parent, child);
    RowFreeAll(c, child);
    Forked(c, parent * NR_FILES, child * NR_FILES, NR_FILES)
  }

  /** A write that ends at pos moves the file position there, and the end of the file if it lay before. */
  ghost function Written(c: Cache, f: nat, pos: nat): Cache
    requires CacheInv(c) && f < |c.filp| && c.filp[f] != NULL
  {
    DetachKeepsInv(c, f);
    var d := c.filp[f];
    var i := c.descs[d].inode;
    var c1 := c.(descs := c.descs[d := c.descs[d].(pos := pos)]);
    assert Holds(c, i);
    if pos > c.slots[i].rec.size then Updated(c1, i, c.slots[i].rec.(size := pos)) else c1
  }

  /** Unlink of num goes through: a regular file that is not the root, that nobody has open, and whose removal has
      not been refused since it was cached. */
  predicate UnlinkRemoves(c: Cache, num: nat)
    requires CacheShape(c) && (num != 0 ==> IsInodeNr(c, num))
  {
    && num != 0 && Lookup(c, num) < NR_INODE && RecAt(c.sects, num).mode == I_REGULAR
    && Openers(c.filp, c.descs, Lookup(c, num)) == {} && Lookup(c, num) != c.root && c.leaks[Lookup(c, num)] == 0
  }

  /** The inode part of unlink. The system halts if there is no slot for the inode. */
  ghost function InodeUnlinked(c: Cache, num: nat): (c': Cache)
    requires CacheInv(c) && Listed(c, num) && Lookup(c, num) < NR_INODE
    ensures CacheInv(c') && c'.root == c.root
  {
    var c1 := Got(c, num, Lookup(c, num));
    GotHolds(c, num);
    UnlinkKeepsInv(c1, Lookup(c, num));
    Unlinked(c1, Lookup(c, num))
  }

  ghost function DoUnlink(c: Cache, num: nat, last: bool, dirSize: nat): Outcome
    requires CacheInv(c) && CallOk(c, Unlink(num, last, dirSize))
  {
    if num == 0 then Outcome(-1, c)
    else if Lookup(c, num) == NR_INODE then Outcome(PANIC, c)
    else
      var c' := InodeUnlinked(c, num);
      RootHolds(c');
      if !Removable(Got(c, num, Lookup(c, num)), Lookup(c, num)) then Outcome(-1, c')
      else Outcome(0, if last then DirSized(c', dirSize) else c')
  }

  ghost function Do(c: Cache, call: Call): Outcome
    requires CacheInv(c) && CallOk(c, call)
  {
    match call
    case Open(p, o) => DoOpen(c, p, o)
    case Close(p, fd) => Outcome(0, DoClose(c, p, fd))
    case Stat(num) => DoStat(c, num)
    case Fork(parent, child) => Outcome(0, DoFork(c, parent, child))
    case Exit(p) => Outcome(0, Exited(c, p, NR_FILES))
    case Write(p, fd, pos) => Outcome(0, Written(c, FileOf(c, p, fd), pos))
    case Unlink(num, last, dirSize) => DoUnlink(c, num, last, dirSize)
  }

  // ---------- every call keeps the invariant ----------

  lemma OpenKeepsInv(c: Cache, p: nat, o: ToOpen)
    requires CacheInv(c) && CallOk(c, Open(p, o))
    ensures CacheInv(DoOpen(c, p, o).c)
  {
    hide Lookup, OpenNew, Refs, Coherent;
    InvShape(c);
    RootHolds(c);
    var fd, d := FreeFile(c, p, 0), FreeDesc(c, 0);
    if fd < NR_FILES && d < NR_FILE_DESC {
      var f := FileOf(c, p, fd);
      if Creates(o) && o.newNum != 0 {
        CreateKeepsInv(c, o.newNum, o.start, f, d, o.flags);
        if Lookup(c, o.newNum) < NR_INODE {
          DirSizedKeepsInv(OpenNew(c, f, d, o.flags, o.newNum, o.start), o.dirSize);
        }
      } else if o.flags & O_CREAT == 0 && o.found != 0 && Lookup(c, o.found) < NR_INODE {
        GotHolds(c, o.found);
        AttachKeepsInv(Got(c, o.found, Lookup(c, o.found)), f, d, Lookup(c, o.found), o.flags);
      }
    }
  }

  lemma LookupTaken(c: Cache, num: nat)
    requires CacheShape(c)
    ensures Lookup(Taken(c, num), num) == Lookup(c, num)
  {
    SameLookup(c, Taken(c, num), num, true, 0);
    SameLookup(c, Taken(c, num), num, false, 0);
  }

  lemma BornIsUpdated(c: Cache, num: nat, i: nat, start: nat)
    requires CacheShape(c) && IsInodeNr(c, num) && i < NR_INODE && c.slots[i].cnt == 0
    ensures var c1 := Got(Taken(c, num), num, i);
      c1.slots[i].num == num && Born(c, num, i, start) == Updated(c1, i, NewRec(start))
  {
    var c1 := Got(Taken(c, num), num, i);
    assert Born(c, num, i, start).slots == Updated(c1, i, NewRec(start)).slots;
  }

  /** A new inode shares no slot with an inode in use, and its caller holds the one reference to it. */
  lemma BornHolds(c: Cache, num: nat, start: nat)
    requires CacheInv(c) && IsInodeNr(c, num) && num !in c.inUse && Lookup(c, num) < NR_INODE
    ensures var i := Lookup(c, num);
      c.slots[i].cnt == 0 && Refs(Born(c, num, i, start), i) && Coherent(Born(c, num, i, start))
  {
    hide Born, Updated, Lookup;
    var i := Lookup(c, num);
    NumberTaken(c, num);
    NewNumberNotCached(c, num);
    GotHolds(Taken(c, num), num);
    UpdateKeepsInv(Got(Taken(c, num), num, i), i, i, NewRec(start));
    BornIsUpdated(c, num, i, start);
  }

  /** Creating a file: its number is taken, its inode cached and written through, and the file opened. */
  lemma CreateKeepsInv(c: Cache, num: nat, start: nat, f: nat, d: nat, mode: bv32)
    requires CacheInv(c) && IsInodeNr(c, num) && num !in c.inUse
    requires f < |c.filp| && c.filp[f] == NULL && d < NR_FILE_DESC && c.descs[d].inode == NULL
    ensures CacheInv(Taken(c, num))
    ensures Lookup(c, num) < NR_INODE ==> CacheInv(OpenNew(c, f, d, mode, num, start))
  {
    NumberTaken(c, num);
    if Lookup(c, num) < NR_INODE {
      var i := Lookup(c, num);
      BornHolds(c, num, start);
      AttachKeepsInv(Born(c, num, i, start), f, d, i, mode);
    }
  }

  lemma MovedKeepsInv(c: Cache, d: nat, pos: nat)
    requires CacheInv(c) && d < NR_FILE_DESC
    ensures CacheInv(c.(descs := c.descs[d := c.descs[d].(pos := pos)]))
  {
    var c' := c.(descs := c.descs[d := c.descs[d].(pos := pos)]);
    CoherentFrame(c, c');
    forall e | 0 <= e < NR_FILE_DESC
      ensures DescCounted(c', e)
    {
      assert DescCounted(c, e);
    }
    forall j | 0 <= j < NR_INODE
      ensures SlotCounted(c', j, NULL)
    {
      assert SlotCounted(c, j, NULL);
      assert Openers(c'.filp, c'.descs, j) == Openers(c.filp, c.descs, j);
    }
  }

  lemma WriteKeepsInv(c: Cache, f: nat, pos: nat)
    requires CacheInv(c) && f < |c.filp| && c.filp[f] != NULL
    ensures CacheInv(Written(c, f, pos))
  {
    DetachKeepsInv(c, f);
    var d := c.filp[f];
    var i := c.descs[d].inode;
    MovedKeepsInv(c, d, pos);
    UpdateKeepsInv(c.(descs := c.descs[d := c.descs[d].(pos := pos)]), NULL, i, c.slots[i].rec.(size := pos));
  }

  /** Every call leaves the cache coherent and the counts exact, also a call that fails or halts the system. */
  lemma CallKeepsInv(c: Cache, call: Call)
    requires CacheInv(c) && CallOk(c, call)
    ensures CacheInv(Do(c, call).c)
  {
    match call
    case Open(p, o) => OpenKeepsInv(c, p, o);
    case Close(p, fd) => DetachKeepsInv(c, FileOf(c, p, fd));
    case Stat(num) => if num != 0 && Lookup(c, num) < NR_INODE { StatKeepsInv(c, num); }
    case Fork(parent, child) =>
    case Exit(p) =>
    case Write(p, fd, pos) => WriteKeepsInv(c, FileOf(c, p, fd), pos);
    case Unlink(num, last, dirSize) =>
      if num != 0 && Lookup(c, num) < NR_INODE {
        DirSizedKeepsInv(InodeUnlinked(c, num), dirSize);
      }
  }
}
