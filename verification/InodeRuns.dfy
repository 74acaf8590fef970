/** What holds over all runs of file system calls: open files stay, positions stay inside, counts are sums. */
module InodeRuns {
  import opened InodeSpec
  import opened InodeInvariant
  import opened InodeCalls

  // ---------- whole runs ----------

  /** The calls can be made one after the other, and none halts the system. */
  ghost predicate CanRun(c: Cache, calls: seq<Call>)
    requires CacheInv(c)
    decreases |calls|
  {
    if calls == [] then true
    else
      EnabledKeepsInv(c, calls[0]);
      CallOk(c, calls[0]) && Do(c, calls[0]).r != PANIC && CanRun(Do(c, calls[0]).c, calls[1..])
  }

  lemma EnabledKeepsInv(c: Cache, call: Call)
    requires CacheInv(c)
    ensures CallOk(c, call) ==> CacheInv(Do(c, call).c)
  {
    if CallOk(c, call) {
      CallKeepsInv(c, call);
    }
  }

  ghost function Run(c: Cache, calls: seq<Call>): (c': Cache)
    requires CacheInv(c) && CanRun(c, calls)
    ensures CacheInv(c')
    decreases |calls|
  {
    if calls == [] then c
    else
      CallKeepsInv(c, calls[0]);
      Run(Do(c, calls[0]).c, calls[1..])
  }

  /** The number of the inode that file slot f is open on. */
  function FileNum(c: Cache, f: nat): nat
    requires CacheShape(c) && f < |c.filp| && c.filp[f] != NULL && c.descs[c.filp[f]].inode != NULL
  {
    c.slots[c.descs[c.filp[f]].inode].num
  }

  /** File slot f refers to the same descriptor, and that to the same inode, in c' as in c. */
  predicate StaysOpen(c: Cache, c': Cache, f: nat)
    requires CacheShape(c) && f < |c.filp| && c.filp[f] != NULL && c.descs[c.filp[f]].inode != NULL
  {
    && CacheShape(c') && |c'.filp| == |c.filp| && c'.filp[f] == c.filp[f]
    && c'.descs[c'.filp[f]].inode == c.descs[c.filp[f]].inode
    && FileNum(c', f) == FileNum(c, f)
  }

  ghost predicate IsOpen(c: Cache, f: nat) {
    CacheInv(c) && f < |c.filp| && c.filp[f] != NULL && c.descs[c.filp[f]].inode != NULL
  }

  predicate Closes(call: Call, f: nat) {
    match call
    case Close(p, fd) => f == p * NR_FILES + fd
    case Exit(p) => p * NR_FILES <= f < (p + 1) * NR_FILES
    case _ => false
  }

  lemma OpenersIn(c: Cache, f: nat)
    requires IsOpen(c, f)
    ensures f in Openers(c.filp, c.descs, c.descs[c.filp[f]].inode)
    ensures c.slots[c.descs[c.filp[f]].inode].cnt > 0
  {
    var i := c.descs[c.filp[f]].inode;
    assert SlotCounted(c, i, NULL);
    assert f in Openers(c.filp, c.descs, i);
  }

  lemma AttachLeavesOpen(c: Cache, c1: Cache, f: nat, g: nat, d: nat, i: nat, mode: bv32)
    requires IsOpen(c, f) && StaysOpen(c, c1, f) && c1.filp == c.filp && c1.descs == c.descs
    requires g < |c.filp| && c.filp[g] == NULL && d < NR_FILE_DESC && c.descs[d].inode == NULL && i < NR_INODE
    ensures StaysOpen(c, Attached(c1, g, d, i, mode), f)
  {
  }

  lemma OpenOldLeavesOpen(c: Cache, g: nat, d: nat, flags: bv32, num: nat, f: nat)
    requires IsOpen(c, f) && Listed(c, num) && Lookup(c, num) < NR_INODE
    requires g < |c.filp| && c.filp[g] == NULL && d < NR_FILE_DESC && c.descs[d].inode == NULL
    ensures StaysOpen(c, OpenOld(c, g, d, flags, num), f)
  {
    OpenersIn(c, f);
    LookupFound(c, num);
    GotHolds(c, num);
    AttachLeavesOpen(c, Got(c, num, Lookup(c, num)), f, g, d, Lookup(c, num), flags);
  }

  lemma OpenNewLeavesOpen(c: Cache, g: nat, d: nat, flags: bv32, num: nat, start: nat, f: nat)
    requires IsOpen(c, f) && IsInodeNr(c, num) && num !in c.inUse && Lookup(c, num) < NR_INODE
    requires g < |c.filp| && c.filp[g] == NULL && d < NR_FILE_DESC && c.descs[d].inode == NULL
    ensures StaysOpen(c, OpenNew(c, g, d, flags, num, start), f)
  {
    OpenersIn(c, f);
    BornHolds(c, num, start);
    AttachLeavesOpen(c, Born(c, num, Lookup(c, num), start), f, g, d, Lookup(c, num), flags);
  }

  lemma SizedLeavesOpen(c: Cache, c': Cache, size: nat, f: nat)
    requires IsOpen(c, f) && StaysOpen(c, c', f) && RootOk(c')
    ensures StaysOpen(c, DirSized(c', size), f)
  {
  }

  lemma OpenLeavesOpen(c: Cache, p: nat, o: ToOpen, f: nat)
    requires IsOpen(c, f) && CallOk(c, Open(p, o))
    ensures StaysOpen(c, DoOpen(c, p, o).c, f)
  {
    hide Lookup, OpenOld, OpenNew, Coherent, DirSized;
    RootHolds(c);
    var fd, d := FreeFile(c, p, 0), FreeDesc(c, 0);
    if fd < NR_FILES && d < NR_FILE_DESC {
      var g := FileOf(c, p, fd);
      if Creates(o) && o.newNum != 0 && Lookup(c, o.newNum) < NR_INODE {
        OpenNewLeavesOpen(c, g, d, o.flags, o.newNum, o.start, f);
        SizedLeavesOpen(c, OpenNew(c, g, d, o.flags, o.newNum, o.start), o.dirSize, f);
      } else if o.flags & O_CREAT == 0 && o.found != 0 && Lookup(c, o.found) < NR_INODE {
        OpenOldLeavesOpen(c, g, d, o.flags, o.found, f);
      }
    }
  }

  lemma DetachLeavesOpen(c: Cache, g: nat, f: nat)
    requires IsOpen(c, f) && g < |c.filp| && g != f
    ensures StaysOpen(c, DetachStep(c, g), f)
  {
    if c.filp[g] != NULL {
      LastUser(c, g);
    }
  }

  lemma {:induction false} ExitLeavesOpen(c: Cache, p: nat, n: nat, f: nat)
    requires IsOpen(c, f) && IsProc(c, p) && n <= NR_FILES && !(p * NR_FILES <= f < p * NR_FILES + n)
    ensures StaysOpen(c, Exited(c, p, n), f)
  {
    hide Cleared, DetachStep, Coherent, DescCounted, SlotCounted;
    if n != 0 {
      ExitLeavesOpen(c, p, n - 1, f);
      DetachLeavesOpen(Exited(c, p, n - 1), FileOf(c, p, n - 1), f);
    }
  }

  lemma ShareLeavesOpen(c: Cache, g: nat, h: nat, f: nat)
    requires IsOpen(c, f) && g < |c.filp| && h < |c.filp| && c.filp[g] == NULL
    ensures StaysOpen(c, ShareStep(c, g, h), f)
  {
  }

  lemma {:induction false} ForkLeavesOpen(c: Cache, from: nat, to: nat, n: nat, f: nat)
    requires IsOpen(c, f) && from + n <= |c.filp| && to + n <= |c.filp| && (from + n <= to || to + n <= from)
    requires forall k :: to <= k < to + n ==> c.filp[k] == NULL
    ensures StaysOpen(c, Forked(c, from, to, n), f)
  {
    hide Copied, Coherent, ShareStep, DescCounted, SlotCounted;
    if n != 0 {
      ForkLeavesOpen(c, from, to, n - 1, f);
      CopiedMore(c.filp, from, to, n);
      ShareLeavesOpen(Forked(c, from, to, n - 1), to + n - 1, from + n - 1, f);
    }
  }

  lemma UnlinkedLeavesOpen(c: Cache, num: nat, f: nat)
    requires IsOpen(c, f) && Listed(c, num) && Lookup(c, num) < NR_INODE
    ensures StaysOpen(c, InodeUnlinked(c, num), f)
  {
    hide Lookup, CacheInv, RecAt, Refs, Coherent;
    InvShape(c);
    GotHolds(c, num);
    LookupFound(c, num);
    InvShape(InodeUnlinked(c, num));
    RemovableIff(c, num);
    OpenersIn(c, f);
  }

  lemma UnlinkLeavesOpen(c: Cache, num: nat, last: bool, dirSize: nat, f: nat)
    requires IsOpen(c, f) && CallOk(c, Unlink(num, last, dirSize))
    ensures StaysOpen(c, DoUnlink(c, num, last, dirSize).c, f)
  {
    hide Lookup, Refs, Coherent, InodeUnlinked, DirSized;
    InvShape(c);
    if num != 0 && Lookup(c, num) < NR_INODE {
      UnlinkedLeavesOpen(c, num, f);
      RootHolds(InodeUnlinked(c, num));
      SizedLeavesOpen(c, InodeUnlinked(c, num), dirSize, f);
    }
  }

  lemma WriteLeavesOpen(c: Cache, g: nat, pos: nat, f: nat)
    requires IsOpen(c, f) && g < |c.filp| && c.filp[g] != NULL
    ensures StaysOpen(c, Written(c, g, pos), f)
  {
    hide Coherent;
    WriteKeepsInv(c, g, pos);
    InvShape(Written(c, g, pos));
  }

  lemma StatLeavesOpen(c: Cache, num: nat, f: nat)
    requires IsOpen(c, f) && CallOk(c, Stat(num))
    ensures StaysOpen(c, DoStat(c, num).c, f)
  {
    hide RecAt, Coherent;
    OpenersIn(c, f);
    if num != 0 && Lookup(c, num) < NR_INODE { LookupFound(c, num); }
  }

  /** Whatever calls are made, an open file slot stays open on the same inode until it is closed or its process
      exits. */
  lemma CallLeavesOpen(c: Cache, call: Call, f: nat)
    requires IsOpen(c, f) && CallOk(c, call) && !Closes(call, f)
    ensures StaysOpen(c, Do(c, call).c, f)
  {
    hide StaysOpen, DoOpen, DoStat, DoUnlink, Forked, Exited, Written, Refs, Coherent;
    InvShape(c);
    match call
    case Open(p, o) => OpenLeavesOpen(c, p, o, f);
    case Close(p, fd) => DetachLeavesOpen(c, FileOf(c, p, fd), f);
    case Stat(num) => StatLeavesOpen(c, num, f);
    case Fork(parent, child) =>
      RowsApart(parent, child);
      RowFreeAll(c, child);
      ForkLeavesOpen(c, parent * NR_FILES, child * NR_FILES, NR_FILES, f);
    case Exit(p) => ExitLeavesOpen(c, p, NR_FILES, f);
    case Write(p, fd, pos) => WriteLeavesOpen(c, FileOf(c, p, fd), pos, f);
    case Unlink(num, last, dirSize) => UnlinkLeavesOpen(c, num, last, dirSize, f);
  }

  lemma OpenIsInUse(c: Cache, f: nat)
    requires IsOpen(c, f)
    ensures FileNum(c, f) in c.inUse
  {
    OpenersIn(c, f);
    assert Holds(c, c.descs[c.filp[f]].inode);
  }

  /** Over a whole run: a file that stays open is the same file throughout, and is never removed, whoever unlinks it. */
  lemma {:induction false} RunLeavesOpen(c: Cache, calls: seq<Call>, f: nat)
    requires IsOpen(c, f) && CanRun(c, calls) && forall k :: 0 <= k < |calls| ==> !Closes(calls[k], f)
    ensures StaysOpen(c, Run(c, calls), f) && FileNum(c, f) in Run(c, calls).inUse
    decreases |calls|
  {
    if calls == [] {
      OpenIsInUse(c, f);
    } else {
      CallKeepsInv(c, calls[0]);
      CallLeavesOpen(c, calls[0], f);
      assert forall k :: 0 <= k < |calls[1..]| ==> calls[1..][k] == calls[k + 1];
      RunLeavesOpen(Do(c, calls[0]).c, calls[1..], f);
    }
  }

  /** References leak in exactly one way: unlink finds the file and gets a slot for it, and the file is not regular, is
      the root, is open, or has leaked a reference before. */
  lemma LeaksIff(c: Cache, call: Call)
    requires CacheInv(c) && CallOk(c, call)
    ensures Do(c, call).c.leaks != c.leaks
      <==> call.Unlink? && call.num != 0 && Lookup(c, call.num) < NR_INODE && !UnlinkRemoves(c, call.num)
  {
    if call.Unlink? && call.num != 0 && Lookup(c, call.num) < NR_INODE {
      GotHolds(c, call.num);
      RemovableIff(c, call.num);
      var i := Lookup(c, call.num);
      assert !UnlinkRemoves(c, call.num) ==> Do(c, call).c.leaks[i] == c.leaks[i] + 1;
    }
  }

  // ---------- file positions ----------

  /** Descriptor d, if in use, stands inside its file. */
  predicate PosOk(c: Cache, d: nat)
    requires CacheShape(c) && d < NR_FILE_DESC
  {
    c.descs[d].inode != NULL ==> c.descs[d].pos <= c.slots[c.descs[d].inode].rec.size
  }

  ghost predicate AllPosOk(c: Cache) {
    CacheShape(c) && forall d: nat :: d < NR_FILE_DESC ==> PosOk(c, d)
  }

  /** A descriptor in use keeps its inode cached. */
  lemma DescHoldsSlot(c: Cache, d: nat)
    requires CacheInv(c) && d < NR_FILE_DESC && c.descs[d].inode != NULL
    ensures c.slots[c.descs[d].inode].cnt > 0 && Openers(c.filp, c.descs, c.descs[d].inode) != {}
  {
    assert DescCounted(c, d) && SlotCounted(c, c.descs[d].inode, NULL);
    assert Users(c.filp, d) != {};
    var f :| f in Users(c.filp, d);
    assert f in Openers(c.filp, c.descs, c.descs[d].inode);
  }

  /** Descriptor d has its place in the same file, with the same record, or starts anew. */
  predicate PlaceKept(c: Cache, c': Cache, d: nat)
    requires CacheShape(c) && CacheShape(c') && d < NR_FILE_DESC
  {
    c'.descs[d].inode != NULL ==>
      || c'.descs[d].pos == 0
      || (c'.descs[d].inode == c.descs[d].inode && c'.descs[d].pos == c.descs[d].pos
          && c'.slots[c'.descs[d].inode].rec == c.slots[c.descs[d].inode].rec)
  }

  ghost predicate PlacesKept(c: Cache, c': Cache) {
    CacheShape(c) && CacheShape(c') && forall d: nat :: d < NR_FILE_DESC ==> PlaceKept(c, c', d)
  }

  lemma PlacesKeptPos(c: Cache, c': Cache)
    requires AllPosOk(c) && PlacesKept(c, c')
    ensures AllPosOk(c')
  {
    forall d: nat | d < NR_FILE_DESC
      ensures PosOk(c', d)
    {
      assert PosOk(c, d) && PlaceKept(c, c', d);
    }
  }

  lemma OpenOldKeepsPlaces(c: Cache, f: nat, d: nat, flags: bv32, num: nat)
    requires CacheInv(c) && f < |c.filp| && d < NR_FILE_DESC && Listed(c, num) && Lookup(c, num) < NR_INODE
    ensures PlacesKept(c, OpenOld(c, f, d, flags, num))
  {
    hide Lookup, CacheInv, RecAt;
    InvShape(c);
    forall e: nat | e < NR_FILE_DESC
      ensures PlaceKept(c, OpenOld(c, f, d, flags, num), e)
    {
      if c.descs[e].inode != NULL {
        DescHoldsSlot(c, e);
      }
    }
  }

  lemma OpenNewKeepsPlaces(c: Cache, f: nat, d: nat, flags: bv32, num: nat, start: nat)
    requires CacheInv(c) && f < |c.filp| && d < NR_FILE_DESC && IsInodeNr(c, num) && num !in c.inUse
    requires Lookup(c, num) < NR_INODE
    ensures PlacesKept(c, OpenNew(c, f, d, flags, num, start))
  {
    hide Lookup, CacheInv, RecAt, Refs, Coherent;
    InvShape(c);
    PutRecOnly(c.sects, num, NewRec(start), num);
    BornHolds(c, num, start);
    forall e: nat | e < NR_FILE_DESC
      ensures PlaceKept(c, OpenNew(c, f, d, flags, num, start), e)
    {
      if c.descs[e].inode != NULL {
        DescHoldsSlot(c, e);
      }
    }
  }

  lemma SamePlaces(c: Cache, c': Cache)
    requires CacheShape(c) && CacheShape(c') && c'.descs == c.descs && c'.slots == c.slots
    ensures PlacesKept(c, c')
  {
  }

  lemma TakenShape(c: Cache, num: nat)
    requires CacheShape(c)
    ensures CacheShape(Taken(c, num))
  {
  }

  /** With a new size for the root directory, positions are inside their files exactly if those in the root directory
      do not pass that size. */
  lemma SizedPosIff(c: Cache, size: nat)
    requires CacheShape(c) && RootOk(c) && AllPosOk(c)
    ensures AllPosOk(DirSized(c, size)) <==> !PassesRootSize(c, size)
  {
    forall d: nat | d < NR_FILE_DESC
      ensures PosOk(DirSized(c, size), d) <==> !(c.descs[d].inode == c.root && c.descs[d].pos > size)
    {
      assert PosOk(c, d);
    }
  }

  /** A descriptor open on the root directory stands behind the given size. */
  predicate PassesRootSize(c: Cache, size: nat)
    requires CacheShape(c)
  {
    exists d: nat :: d < NR_FILE_DESC && c.descs[d].inode == c.root && c.descs[d].pos > size
  }

  lemma OpenNewKeepsPos(c: Cache, f: nat, d: nat, o: ToOpen)
    requires CacheInv(c) && f < |c.filp| && d < NR_FILE_DESC && c.root < NR_INODE && AllPosOk(c)
    requires IsInodeNr(c, o.newNum) && o.newNum !in c.inUse && Lookup(c, o.newNum) < NR_INODE
    requires o.dirSize >= RootSize(c)
    ensures RootOk(OpenNew(c, f, d, o.flags, o.newNum, o.start))
    ensures AllPosOk(DirSized(OpenNew(c, f, d, o.flags, o.newNum, o.start), o.dirSize))
  {
    hide Lookup, CacheInv, RecAt, Refs, Coherent, PlacesKept, AllPosOk, DirSized;
    InvShape(c);
    RootHolds(c);
    BornHolds(c, o.newNum, o.start);
    var c' := OpenNew(c, f, d, o.flags, o.newNum, o.start);
    OpenNewKeepsPlaces(c, f, d, o.flags, o.newNum, o.start);
    PlacesKeptPos(c, c');
    RootPosInside(c', o.dirSize);
    SizedPosIff(c', o.dirSize);
  }

  lemma RootPosInside(c: Cache, size: nat)
    requires AllPosOk(c) && c.root < NR_INODE && RootSize(c) <= size
    ensures !PassesRootSize(c, size)
  {
    forall d: nat | d < NR_FILE_DESC
      ensures !(c.descs[d].inode == c.root && c.descs[d].pos > size)
    {
      assert PosOk(c, d);
    }
  }

  lemma OpenKeepsPos(c: Cache, p: nat, o: ToOpen)
    requires CacheInv(c) && CallOk(c, Open(p, o)) && AllPosOk(c)
    ensures AllPosOk(DoOpen(c, p, o).c)
  {
    hide CacheInv, PlacesKept, AllPosOk, Lookup, OpenOld, OpenNew, DirSized, PosOk;
    InvShape(c);
    RootHolds(c);
    TakenShape(c, o.newNum);
    SamePlaces(c, Taken(c, o.newNum));
    PlacesKeptPos(c, Taken(c, o.newNum));
    var fd, d := FreeFile(c, p, 0), FreeDesc(c, 0);
    if fd < NR_FILES && d < NR_FILE_DESC {
      var f := FileOf(c, p, fd);
      if Creates(o) && o.newNum != 0 && Lookup(c, o.newNum) < NR_INODE {
        OpenNewKeepsPos(c, f, d, o);
      } else if o.flags & O_CREAT == 0 && o.found != 0 && Lookup(c, o.found) < NR_INODE {
        OpenOldKeepsPlaces(c, f, d, o.flags, o.found);
        PlacesKeptPos(c, OpenOld(c, f, d, o.flags, o.found));
      }
    }
  }

  lemma {:induction false} ExitKeepsPlaces(c: Cache, p: nat, n: nat)
    requires CacheInv(c) && IsProc(c, p) && n <= NR_FILES && AllPosOk(c)
    ensures AllPosOk(Exited(c, p, n))
  {
    hide Cleared, CacheInv, DetachStep;
    if n != 0 {
      ExitKeepsPlaces(c, p, n - 1);
      DetachKeepsPlaces(Exited(c, p, n - 1), FileOf(c, p, n - 1));
    }
  }

  lemma DetachKeepsPlaces(c: Cache, f: nat)
    requires CacheInv(c) && f < |c.filp| && AllPosOk(c)
    ensures AllPosOk(DetachStep(c, f))
  {
    PlacesKeptPos(c, DetachStep(c, f));
  }

  lemma {:induction false} ForkKeepsPlaces(c: Cache, from: nat, to: nat, n: nat)
    requires CacheInv(c) && from + n <= |c.filp| && to + n <= |c.filp| && (from + n <= to || to + n <= from)
    requires AllPosOk(c) && forall k :: to <= k < to + n ==> c.filp[k] == NULL
    ensures AllPosOk(Forked(c, from, to, n))
  {
    hide Copied, CacheInv, ShareStep, AllPosOk;
    if n != 0 {
      ForkKeepsPlaces(c, from, to, n - 1);
      CopiedMore(c.filp, from, to, n);
      ShareKeepsPlaces(Forked(c, from, to, n - 1), to + n - 1, from + n - 1);
    }
  }

  lemma ShareKeepsPlaces(c: Cache, f: nat, g: nat)
    requires CacheInv(c) && f < |c.filp| && g < |c.filp| && c.filp[f] == NULL && AllPosOk(c)
    ensures AllPosOk(ShareStep(c, f, g))
  {
    PlacesKeptPos(c, ShareStep(c, f, g));
  }

  lemma WriteKeepsPlaces(c: Cache, f: nat, pos: nat)
    requires CacheInv(c) && f < |c.filp| && c.filp[f] != NULL && AllPosOk(c)
    ensures AllPosOk(Written(c, f, pos))
  {
    WriteKeepsInv(c, f, pos);
    DetachKeepsInv(c, f);
    forall d: nat | d < NR_FILE_DESC
      ensures PosOk(Written(c, f, pos), d)
    {
      assert PosOk(c, d);
    }
  }

  lemma UnlinkKeepsPlaces(c: Cache, num: nat)
    requires CacheInv(c) && Listed(c, num) && Lookup(c, num) < NR_INODE
    ensures PlacesKept(c, InodeUnlinked(c, num)) && InodeUnlinked(c, num).descs == c.descs
  {
    hide Lookup, CacheInv, RecAt, Refs, Coherent;
    InvShape(c);
    GotHolds(c, num);
    InvShape(InodeUnlinked(c, num));
    RemovableIff(c, num);
    forall e: nat | e < NR_FILE_DESC
      ensures PlaceKept(c, InodeUnlinked(c, num), e)
    {
      if c.descs[e].inode != NULL {
        DescHoldsSlot(c, e);
      }
    }
  }

  /** unlink removes the last entry of the directory while some process stands behind the size that is left. */
  predicate CutsOpenDir(c: Cache, call: Call)
    requires CacheShape(c) && CallOk(c, call)
  {
    call.Unlink? && call.last && UnlinkRemoves(c, call.num) && PassesRootSize(c, call.dirSize)
  }

  lemma UnlinkPosIff(c: Cache, num: nat, last: bool, dirSize: nat)
    requires CacheInv(c) && CacheShape(c) && CallOk(c, Unlink(num, last, dirSize)) && AllPosOk(c)
    ensures AllPosOk(DoUnlink(c, num, last, dirSize).c) <==> !CutsOpenDir(c, Unlink(num, last, dirSize))
  {
    hide Lookup, CacheInv, InodeUnlinked, AllPosOk, PlacesKept, DirSized, RecAt, Openers, Removable, Got, PosOk;
    if num != 0 && Lookup(c, num) < NR_INODE {
      GotHolds(c, num);
      RemovableIff(c, num);
      UnlinkKeepsPlaces(c, num);
      PlacesKeptPos(c, InodeUnlinked(c, num));
      RootHolds(InodeUnlinked(c, num));
      InvShape(InodeUnlinked(c, num));
      SizedPosIff(InodeUnlinked(c, num), dirSize);
    }
  }

  lemma StatKeepsPlaces(c: Cache, num: nat)
    requires CacheInv(c) && Listed(c, num) && Lookup(c, num) < NR_INODE
    ensures PlacesKept(c, Put(Got(c, num, Lookup(c, num)), Lookup(c, num)))
  {
    hide Lookup, CacheInv, RecAt;
    InvShape(c);
    forall e: nat | e < NR_FILE_DESC
      ensures PlaceKept(c, Put(Got(c, num, Lookup(c, num)), Lookup(c, num)), e)
    {
      if c.descs[e].inode != NULL {
        DescHoldsSlot(c, e);
      }
    }
  }

  /** With all file positions inside their files, also those of others in a shared file, a call leaves them there
      exactly if it does not cut the root directory off below a position. */
  lemma CallKeepsPosIff(c: Cache, call: Call)
    requires CacheInv(c) && CacheShape(c) && CallOk(c, call) && AllPosOk(c)
    ensures AllPosOk(Do(c, call).c) <==> !CutsOpenDir(c, call)
  {
    hide CacheInv, AllPosOk, PlacesKept, Lookup, DoOpen, Forked, Exited, Written, DoUnlink;
    match call
    case Open(p, o) => OpenKeepsPos(c, p, o);
    case Close(p, fd) => DetachKeepsPlaces(c, FileOf(c, p, fd));
    case Stat(num) =>
      if num != 0 && Lookup(c, num) < NR_INODE {
        StatKeepsPlaces(c, num);
        PlacesKeptPos(c, Do(c, call).c);
      }
    case Fork(parent, child) =>
      RowsApart(parent, child);
      RowFreeAll(c, child);
      ForkKeepsPlaces(c, parent * NR_FILES, child * NR_FILES, NR_FILES);
    case Exit(p) => ExitKeepsPlaces(c, p, NR_FILES);
    case Write(p, fd, pos) => WriteKeepsPlaces(c, FileOf(c, p, fd), pos);
    case Unlink(num, last, dirSize) => UnlinkPosIff(c, num, last, dirSize);
  }

  /** Positions are inside their files at every point of the run. */
  ghost predicate InsideThroughout(c: Cache, calls: seq<Call>)
    requires CacheInv(c) && CanRun(c, calls)
    decreases |calls|
  {
    AllPosOk(c) && (calls != [] ==> InsideThroughout(After(c, calls), calls[1..]))
  }

  /** No call of the run cuts the directory off below a position. */
  ghost predicate NeverCuts(c: Cache, calls: seq<Call>)
    requires CacheInv(c) && CanRun(c, calls)
    decreases |calls|
  {
    InvShape(c);
    calls != [] ==> !CutsOpenDir(c, calls[0]) && NeverCuts(After(c, calls), calls[1..])
  }

  /** The state after the first call of a run. */
  ghost function After(c: Cache, calls: seq<Call>): (c': Cache)
    requires CacheInv(c) && CanRun(c, calls) && calls != []
    ensures CacheInv(c') && CanRun(c', calls[1..])
  {
    CallKeepsInv(c, calls[0]);
    Do(c, calls[0]).c
  }

  /** In a run, every open file position lies within its file throughout, exactly if no unlink in it removes the last
      entry of the directory while a process stands behind the size that is left. */
  lemma {:induction false} RunKeepsPosIff(c: Cache, calls: seq<Call>)
    requires CacheInv(c) && CanRun(c, calls) && AllPosOk(c)
    ensures InsideThroughout(c, calls) <==> NeverCuts(c, calls)
    decreases |calls|
  {
    hide CacheInv, AllPosOk, Do, CutsOpenDir;
    if calls != [] {
      InvShape(c);
      CallKeepsInv(c, calls[0]);
      CallKeepsPosIff(c, calls[0]);
      if !CutsOpenDir(c, calls[0]) {
        RunKeepsPosIff(After(c, calls), calls[1..]);
      }
    }
  }

  // ---------- counts as sums ----------

  /** The counts of the first n descriptors, as far as they are open on inode slot i. */
  function CountSum(c: Cache, i: nat, n: nat): int
    requires CacheShape(c) && n <= NR_FILE_DESC
  {
    if n == 0 then 0
    else CountSum(c, i, n - 1) + if c.descs[n - 1].inode == i then c.descs[n - 1].cnt else 0
  }

  /** The file slots open on inode slot i through one of the first n descriptors. */
  function OpenersBelow(c: Cache, i: nat, n: nat): set<int>
    requires CacheShape(c)
  {
    set f: int | 0 <= f < |c.filp| && 0 <= c.filp[f] < n && c.descs[c.filp[f]].inode == i
  }

  lemma OneMoreDesc(c: Cache, i: nat, n: nat)
    requires CacheShape(c) && n < NR_FILE_DESC
    ensures |OpenersBelow(c, i, n + 1)|
      == |OpenersBelow(c, i, n)| + if c.descs[n].inode == i then |Users(c.filp, n)| else 0
  {
    var more, fewer := OpenersBelow(c, i, n + 1), OpenersBelow(c, i, n);
    if c.descs[n].inode == i {
      assert more == fewer + Users(c.filp, n);
      assert fewer !! Users(c.filp, n);
    } else {
      assert more == fewer;
    }
  }

  lemma {:induction false} OpenersSum(c: Cache, i: nat, n: nat)
    requires CacheShape(c) && n <= NR_FILE_DESC && forall d :: 0 <= d < NR_FILE_DESC ==> DescCounted(c, d)
    ensures |OpenersBelow(c, i, n)| == CountSum(c, i, n)
  {
    if n == 0 {
      assert OpenersBelow(c, i, 0) == {};
    } else {
      OpenersSum(c, i, n - 1);
      OneMoreDesc(c, i, n - 1);
      assert DescCounted(c, n - 1);
    }
  }

  /** The count of an inode slot is the sum of the counts of the descriptors open on it, one more for the root, and
      the references leaked. */
  lemma SlotCountIsSum(c: Cache, i: nat)
    requires CacheInv(c) && i < NR_INODE
    ensures c.slots[i].cnt == CountSum(c, i, NR_FILE_DESC) + c.leaks[i] + if i == c.root then 1 else 0
  {
    OpenersSum(c, i, NR_FILE_DESC);
    assert OpenersBelow(c, i, NR_FILE_DESC) == Openers(c.filp, c.descs, i);
    assert SlotCounted(c, i, NULL);
  }
}
