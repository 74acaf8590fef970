/** Every file system call keeps the cache coherent and the reference counts exact. */
module InodeInvariant {
  import opened InodeSpec

  // ---------- what changing one file slot does to the sets of users ----------

  lemma Without(s: set<int>, x: int)
    ensures |s| == |s - {x}| + if x in s then 1 else 0
  {
    if x in s {
      assert s == (s - {x}) + {x};
    }
  }

  lemma UsersAfter(filp: seq<int>, f: nat, v: int, d: int)
    requires f < |filp|
    ensures |Users(filp[f := v], d)|
      == |Users(filp, d)| + (if v == d then 1 else 0) - (if filp[f] == d then 1 else 0)
  {
    var was, now := Users(filp, d), Users(filp[f := v], d);
    assert f in was <==> filp[f] == d;
    assert f in now <==> v == d;
    assert now - {f} == was - {f};
    Without(now, f);
    Without(was, f);
  }

  ghost predicate SameTargets(filp: seq<int>, descs: seq<Desc>, descs': seq<Desc>, f: nat) {
    && |descs'| == |descs|
    && forall g :: 0 <= g < |filp| && g != f && 0 <= filp[g] < |descs| ==>
         descs'[filp[g]].inode == descs[filp[g]].inode
  }

  /** File slot f changes from what it was to v. No other file slot gets a different inode. */
  lemma OpenersAfter(filp: seq<int>, descs: seq<Desc>, f: nat, v: int, descs': seq<Desc>, i: int)
    requires f < |filp| && NULL <= v < |descs| && SameTargets(filp, descs, descs', f)
    requires forall g :: 0 <= g < |filp| ==> NULL <= filp[g] < |descs|
    ensures |Openers(filp[f := v], descs', i)|
      == |Openers(filp, descs, i)| + (if v != NULL && descs'[v].inode == i then 1 else 0)
         - (if filp[f] != NULL && descs[filp[f]].inode == i then 1 else 0)
  {
    var was, now := Openers(filp, descs, i), Openers(filp[f := v], descs', i);
    assert now - {f} == was - {f};
    Without(now, f);
    Without(was, f);
    assert f in was <==> filp[f] != NULL && descs[filp[f]].inode == i;
    assert f in now <==> v != NULL && descs'[v].inode == i;
  }

  /** The tables of file slots and descriptors are untouched, so counts are as exact as before but for slot i. */
  lemma RefsButSlot(c: Cache, held: int, c': Cache, i: nat, held': int)
    requires Refs(c, held) && CacheShape(c') && i < NR_INODE
    requires c'.filp == c.filp && c'.descs == c.descs && c'.root == c.root
    requires c'.slots[i].cnt - c'.leaks[i] - (if i == held' then 1 else 0)
      == c.slots[i].cnt - c.leaks[i] - (if i == held then 1 else 0)
    requires forall j :: 0 <= j < NR_INODE && j != i ==>
               c'.slots[j] == c.slots[j] && c'.leaks[j] == c.leaks[j] && (j == held <==> j == held')
    ensures Refs(c', held')
  {
    forall d | 0 <= d < NR_FILE_DESC
      ensures DescCounted(c', d)
    {
      assert DescCounted(c, d);
    }
    forall j | 0 <= j < NR_INODE
      ensures SlotCounted(c', j, held')
    {
      assert SlotCounted(c, j, held);
    }
  }

  lemma CountsNonNegative(c: Cache, held: int)
    requires Refs(c, held)
    ensures forall i :: 0 <= i < NR_INODE ==> 0 <= c.slots[i].cnt
  {
    forall i | 0 <= i < NR_INODE
      ensures 0 <= c.slots[i].cnt
    {
      assert SlotCounted(c, i, held);
    }
  }

  lemma SlotPassed(c: Cache, num: nat, n: nat)
    requires CacheShape(c) && n < NR_INODE
    ensures FirstSlot(c, num, true, n) ==
            if c.slots[n].cnt != 0 && c.slots[n].num == num then n else FirstSlot(c, num, true, n + 1)
    ensures FirstSlot(c, num, false, n) == if c.slots[n].cnt == 0 then n else FirstSlot(c, num, false, n + 1)
  {
  }

  lemma SlotsEnd(c: Cache, num: nat)
    requires CacheShape(c)
    ensures forall used :: FirstSlot(c, num, used, NR_INODE) == NR_INODE
  {
  }

  lemma InvShape(c: Cache)
    requires CacheInv(c)
    ensures CacheShape(c)
  {
  }

  // ---------- get_inode and put_inode ----------

  /** What a lookup finds: the one slot in use for the inode, or a free slot when no slot holds it. */
  lemma LookupFound(c: Cache, num: nat)
    requires CacheInv(c) && Lookup(c, num) < NR_INODE
    ensures var i := Lookup(c, num);
      if c.slots[i].cnt > 0 then c.slots[i].num == num
      else c.slots[i].cnt == 0 && forall j :: 0 <= j < NR_INODE && c.slots[j].cnt > 0 ==> c.slots[j].num != num
  {
    CountsNonNegative(c, NULL);
    forall j | FirstSlot(c, num, true, 0) == NR_INODE && 0 <= j < NR_INODE && c.slots[j].cnt > 0
      ensures c.slots[j].num != num
    {
      assert !SlotMatches(c.slots[j], num, true);
    }
  }

  lemma GotCoherent(c: Cache, num: nat)
    requires CacheInv(c) && IsInodeNr(c, num) && num in c.inUse && Lookup(c, num) < NR_INODE
    ensures Coherent(Got(c, num, Lookup(c, num)))
  {
    LookupFound(c, num);
    var i := Lookup(c, num);
    var c' := Got(c, num, i);
    forall j | 0 <= j < NR_INODE && c'.slots[j].cnt > 0
      ensures Holds(c', j)
    {
      assert j != i || c.slots[i].cnt > 0 ==> Holds(c, j);
    }
  }

  /** get_inode gives the caller one reference, to a slot that holds the inode as it is on the disk. */
  lemma GotHolds(c: Cache, num: nat)
    requires CacheInv(c) && IsInodeNr(c, num) && num in c.inUse && Lookup(c, num) < NR_INODE
    ensures var i := Lookup(c, num);
      var c' := Got(c, num, i);
      && Refs(c', i) && Coherent(c')
      && c'.slots[i].num == num && c'.slots[i].rec == RecAt(c.sects, num) && c'.slots[i].cnt > 0
  {
    LookupFound(c, num);
    GotCoherent(c, num);
    var i := Lookup(c, num);
    assert c.slots[i].cnt > 0 ==> Holds(c, i);
    assert SlotCounted(c, i, NULL);
    RefsButSlot(c, NULL, Got(c, num, i), i, i);
  }

  lemma PutCoherent(c: Cache, i: nat)
    requires Coherent(c) && i < NR_INODE
    ensures Coherent(Put(c, i))
  {
    var c' := Put(c, i);
    forall j | 0 <= j < NR_INODE && c'.slots[j].cnt > 0
      ensures Holds(c', j)
    {
      assert Holds(c, j);
    }
  }

  /** put_inode gives the reference held back. */
  lemma PutKeepsInv(c: Cache, i: nat)
    requires Refs(c, i) && Coherent(c) && i < NR_INODE
    ensures c.slots[i].cnt > 0 && CacheInv(Put(c, i))
  {
    assert SlotCounted(c, i, i);
    PutCoherent(c, i);
    RefsButSlot(c, i, Put(c, i), i, NULL);
  }

  /** stat takes a reference and gives it back: no slot in use changes. */
  lemma StatKeepsInv(c: Cache, num: nat)
    requires CacheInv(c) && IsInodeNr(c, num) && num in c.inUse && Lookup(c, num) < NR_INODE
    ensures var i := Lookup(c, num);
      && CacheInv(Put(Got(c, num, i), i))
      && forall j :: 0 <= j < NR_INODE && c.slots[j].cnt > 0 ==> Put(Got(c, num, i), i).slots[j] == c.slots[j]
  {
    GotHolds(c, num);
    PutKeepsInv(Got(c, num, Lookup(c, num)), Lookup(c, num));
  }

  lemma NoSlotYet(c: Cache, num: nat, used: bool)
    requires CacheShape(c) && forall i :: 0 <= i < NR_INODE ==> c.slots[i].cnt == 0
    ensures FirstSlot(c, num, used, 0) == if used then NR_INODE else 0
  {
    assert SlotMatches(c.slots[0], num, false);
  }

  const ROOT_INODE := 1

  /** Empty tables, over a disk that has just been formatted. */
  function Empty(procs: nat, sects: seq<seq<Rec>>, used: set<nat>): Cache {
    Cache(seq(NR_INODE, i => Slot(Rec(0, 0, 0, 0), 0, 0)), seq(NR_FILE_DESC, d => Desc(0, 0, 0, NULL)),
          seq(procs * NR_FILES, f => NULL), sects, used, seq(NR_INODE, i => 0), NR_INODE)
  }

  predicate Formatted(sects: seq<seq<Rec>>, used: set<nat>) {
    0 < |sects| && (forall s :: 0 <= s < |sects| ==> |sects[s]| == RECS_PER_SECT) && ROOT_INODE in used
  }

  /** Empty tables are in order, and once the root's inode is got into them its slot is kept. */
  lemma StartKeepsInv(procs: nat, sects: seq<seq<Rec>>, used: set<nat>)
    requires Formatted(sects, used)
    ensures var c := Empty(procs, sects, used);
      CacheInv(c) && Lookup(c, ROOT_INODE) == 0 && CacheInv(Got(c, ROOT_INODE, 0).(root := 0))
  {
    var c := Empty(procs, sects, used);
    forall d | 0 <= d < NR_FILE_DESC
      ensures DescCounted(c, d)
    {
      assert Users(c.filp, d) == {};
    }
    forall i | 0 <= i < NR_INODE
      ensures SlotCounted(c, i, NULL)
    {
      assert Openers(c.filp, c.descs, i) == {};
    }
    NoSlotYet(c, ROOT_INODE, true);
    NoSlotYet(c, ROOT_INODE, false);
    GotHolds(c, ROOT_INODE);
    RootKept(Got(c, ROOT_INODE, 0), 0);
  }

  /** The first reference to the root directory is kept for good. */
  lemma RootKept(c: Cache, i: nat)
    requires Refs(c, i) && Coherent(c) && c.root == NR_INODE && i < NR_INODE
    ensures CacheInv(c.(root := i))
  {
    var c' := c.(root := i);
    CoherentFrame(c, c');
    forall d | 0 <= d < NR_FILE_DESC
      ensures DescCounted(c', d)
    {
      assert DescCounted(c, d);
    }
    forall j | 0 <= j < NR_INODE
      ensures SlotCounted(c', j, NULL)
    {
      assert SlotCounted(c, j, i);
    }
  }

  // ---------- file slots ----------

  lemma CoherentFrame(c: Cache, c': Cache)
    requires Coherent(c) && CacheShape(c')
    requires c'.slots == c.slots && c'.sects == c.sects && c'.inUse == c.inUse
    ensures Coherent(c')
  {
    forall j | 0 <= j < NR_INODE && c'.slots[j].cnt > 0
      ensures Holds(c', j)
    {
      assert Holds(c, j);
    }
  }

  /** Nobody points at a free descriptor. */
  lemma FreeDescUnused(c: Cache, held: int, d: nat)
    requires Refs(c, held) && d < NR_FILE_DESC && c.descs[d].inode == NULL
    ensures forall f :: 0 <= f < |c.filp| ==> c.filp[f] != d
  {
    assert DescCounted(c, d) && Users(c.filp, d) == {};
    assert forall f :: 0 <= f < |c.filp| && c.filp[f] == d ==> f in Users(c.filp, d);
  }

  lemma InUseHasInode(c: Cache, held: int, f: nat)
    requires Refs(c, held) && f < |c.filp| && c.filp[f] != NULL
    ensures c.descs[c.filp[f]].inode != NULL && c.descs[c.filp[f]].cnt > 0
  {
    var d := c.filp[f];
    assert DescCounted(c, d) && f in Users(c.filp, d);
    assert Users(c.filp, d) != {};
  }

  /** open: the reference held goes to a free descriptor, connected to a free file slot. */
  lemma AttachKeepsInv(c: Cache, f: nat, d: nat, i: nat, mode: bv32)
    requires Refs(c, i) && Coherent(c) && i < NR_INODE
    requires f < |c.filp| && c.filp[f] == NULL && d < NR_FILE_DESC && c.descs[d].inode == NULL
    ensures CacheInv(Attached(c, f, d, i, mode))
  {
    var c' := Attached(c, f, d, i, mode);
    CoherentFrame(c, c');
    FreeDescUnused(c, i, d);
    forall e | 0 <= e < NR_FILE_DESC
      ensures DescCounted(c', e)
    {
      assert DescCounted(c, e);
      UsersAfter(c.filp, f, d, e);
    }
    forall j | 0 <= j < NR_INODE
      ensures SlotCounted(c', j, NULL)
    {
      assert SlotCounted(c, j, i);
      OpenersAfter(c.filp, c.descs, f, d, c'.descs, j);
    }
  }

  /** close, and each step of an exit: give a file slot up. */
  lemma DetachKeepsInv(c: Cache, f: nat)
    requires CacheInv(c) && f < |c.filp| && c.filp[f] != NULL
    ensures c.descs[c.filp[f]].inode != NULL && c.slots[c.descs[c.filp[f]].inode].cnt > 0
    ensures CacheInv(Detached(c, f))
  {
    InUseHasInode(c, NULL, f);
    var d := c.filp[f];
    var i, c' := c.descs[d].inode, Detached(c, f);
    PutCoherent(c, i);
    CoherentFrame(Put(c, i), c');
    LastUser(c, f);
    assert f in Openers(c.filp, c.descs, i) && SlotCounted(c, i, NULL);
    forall e | 0 <= e < NR_FILE_DESC
      ensures DescCounted(c', e)
    {
      assert DescCounted(c, e);
      UsersAfter(c.filp, f, NULL, e);
    }
    forall j | 0 <= j < NR_INODE
      ensures SlotCounted(c', j, NULL)
    {
      assert SlotCounted(c, j, NULL);
      OpenersAfter(c.filp, c.descs, f, NULL, c'.descs, j);
    }
  }

  /** A descriptor whose count is 1 is used by one file slot only. */
  lemma LastUser(c: Cache, f: nat)
    requires Refs(c, NULL) && f < |c.filp| && c.filp[f] != NULL
    ensures c.descs[c.filp[f]].cnt == 1 ==> forall g :: 0 <= g < |c.filp| && g != f ==> c.filp[g] != c.filp[f]
  {
    var d := c.filp[f];
    assert DescCounted(c, d) && f in Users(c.filp, d);
    if c.descs[d].cnt == 1 {
      assert |Users(c.filp, d) - {f}| == 0;
      assert forall g :: 0 <= g < |c.filp| && g != f && c.filp[g] == d ==> g in Users(c.filp, d) - {f};
    }
  }

  /** Each step of a fork: a free file slot of the child comes to share a descriptor of the parent. */
  lemma ShareKeepsInv(c: Cache, f: nat, g: nat)
    requires CacheInv(c) && f < |c.filp| && c.filp[f] == NULL && g < |c.filp| && c.filp[g] != NULL
    ensures c.descs[c.filp[g]].inode != NULL && CacheInv(Shared(c, f, c.filp[g]))
  {
    InUseHasInode(c, NULL, g);
    var d := c.filp[g];
    var i, c' := c.descs[d].inode, Shared(c, f, d);
    assert g in Openers(c.filp, c.descs, i) && SlotCounted(c, i, NULL);
    forall j | 0 <= j < NR_INODE && c'.slots[j].cnt > 0
      ensures Holds(c', j)
    {
      assert Holds(c, j);
    }
    forall e | 0 <= e < NR_FILE_DESC
      ensures DescCounted(c', e)
    {
      assert DescCounted(c, e);
      UsersAfter(c.filp, f, d, e);
    }
    forall j | 0 <= j < NR_INODE
      ensures SlotCounted(c', j, NULL)
    {
      assert SlotCounted(c, j, NULL);
      OpenersAfter(c.filp, c.descs, f, d, c'.descs, j);
    }
  }

  // ---------- writing inodes through ----------

  lemma WriteThroughCoherent(c: Cache, i: nat, r: Rec)
    requires Coherent(c) && i < NR_INODE && c.slots[i].cnt > 0
    ensures IsInodeNr(c, c.slots[i].num) && Coherent(Updated(c, i, r))
  {
    assert Holds(c, i);
    var num, c' := c.slots[i].num, Updated(c, i, r);
    PutRecOnly(c.sects, num, r, num);
    forall j | 0 <= j < NR_INODE && c'.slots[j].cnt > 0
      ensures Holds(c', j)
    {
      assert Holds(c, j);
      PutRecOnly(c.sects, num, r, c.slots[j].num);
    }
  }

  /** A write that changes the size of an open file, or any other written-through change of a cached inode. */
  lemma UpdateKeepsInv(c: Cache, held: int, i: nat, r: Rec)
    requires Refs(c, held) && Coherent(c) && i < NR_INODE && c.slots[i].cnt > 0
    ensures IsInodeNr(c, c.slots[i].num) && Coherent(Updated(c, i, r)) && Refs(Updated(c, i, r), held)
  {
    WriteThroughCoherent(c, i, r);
    PutRecOnly(c.sects, c.slots[i].num, r, c.slots[i].num);
    RefsButSlot(c, held, Updated(c, i, r), i, held);
  }

  /** The inode map gives num out. Its number is in no slot, so nothing is disturbed. */
  lemma NumberTaken(c: Cache, num: nat)
    requires CacheInv(c)
    ensures CacheInv(c.(inUse := c.inUse + {num}))
  {
    var c' := c.(inUse := c.inUse + {num});
    RefsButSlot(c, NULL, c', 0, NULL);
    forall j | 0 <= j < NR_INODE && c'.slots[j].cnt > 0
      ensures Holds(c', j)
    {
      assert Holds(c, j);
    }
  }

  /** A number that was free is in no slot: new_inode always loads it, and never shares a cached inode. */
  lemma NewNumberNotCached(c: Cache, num: nat)
    requires CacheInv(c) && num !in c.inUse && Lookup(c, num) < NR_INODE
    ensures c.slots[Lookup(c, num)].cnt == 0 && Lookup(c.(inUse := c.inUse + {num}), num) == Lookup(c, num)
  {
    LookupFound(c, num);
    forall j | 0 <= j < NR_INODE && c.slots[j].cnt > 0
      ensures c.slots[j].num in c.inUse
    {
      assert Holds(c, j);
    }
    SameLookup(c, c.(inUse := c.inUse + {num}), num, true, 0);
    SameLookup(c, c.(inUse := c.inUse + {num}), num, false, 0);
  }

  lemma {:induction false} SameLookup(c: Cache, c': Cache, num: nat, used: bool, n: nat)
    requires CacheShape(c) && CacheShape(c') && c'.slots == c.slots && n <= NR_INODE
    ensures FirstSlot(c', num, used, n) == FirstSlot(c, num, used, n)
    decreases NR_INODE - n
  {
    if n < NR_INODE {
      SameLookup(c, c', num, used, n + 1);
    }
  }

  // ---------- unlink ----------

  const EMPTY_REC := Rec(0, 0, 0, 0)

  /** With a reference to slot i held, the inode goes only if it is a regular file and the reference the only one. */
  predicate Removable(c: Cache, i: nat)
    requires CacheShape(c) && i < NR_INODE
  {
    c.slots[i].rec.mode == I_REGULAR && c.slots[i].cnt <= 1
  }

  /** The inode part of unlink, from the reference it took. A refused unlink never gives the reference back. */
  function Unlinked(c: Cache, i: nat): Cache
    requires CacheShape(c) && i < NR_INODE && IsInodeNr(c, c.slots[i].num)
  {
    if Removable(c, i) then
      var num := c.slots[i].num;
      Put(Updated(c, i, EMPTY_REC), i).(inUse := c.inUse - {num})
    else
      c.(leaks := c.leaks[i := c.leaks[i] + 1])
  }

  lemma NumberGiven(c: Cache, num: nat)
    requires CacheInv(c) && forall j :: 0 <= j < NR_INODE && c.slots[j].cnt > 0 ==> c.slots[j].num != num
    ensures CacheInv(c.(inUse := c.inUse - {num}))
  {
    var c' := c.(inUse := c.inUse - {num});
    RefsButSlot(c, NULL, c', 0, NULL);
    forall j | 0 <= j < NR_INODE && c'.slots[j].cnt > 0
      ensures Holds(c', j)
    {
      assert Holds(c, j);
    }
  }

  lemma UnlinkKeepsInv(c: Cache, i: nat)
    requires Refs(c, i) && Coherent(c) && i < NR_INODE
    ensures c.slots[i].cnt > 0 && IsInodeNr(c, c.slots[i].num) && CacheInv(Unlinked(c, i))
  {
    assert SlotCounted(c, i, i) && c.slots[i].cnt > 0;
    assert Holds(c, i);
    if Removable(c, i) {
      UpdateKeepsInv(c, i, i, EMPTY_REC);
      PutKeepsInv(Updated(c, i, EMPTY_REC), i);
      NumberGiven(Put(Updated(c, i, EMPTY_REC), i), c.slots[i].num);
    } else {
      var c' := Unlinked(c, i);
      CoherentFrame(c, c');
      RefsButSlot(c, i, c', i, NULL);
    }
  }

  /** A file is removed exactly when it is a regular file, no process has it open, it is not the root, and no
      earlier unlink of it, since it was cached, has been refused. In particular an open file is never removed. */
  lemma RemovableIff(c: Cache, num: nat)
    requires CacheInv(c) && IsInodeNr(c, num) && num in c.inUse && Lookup(c, num) < NR_INODE
    ensures var i := Lookup(c, num);
      Removable(Got(c, num, i), i) <==>
        RecAt(c.sects, num).mode == I_REGULAR && Openers(c.filp, c.descs, i) == {} && i != c.root && c.leaks[i] == 0
  {
    GotHolds(c, num);
    assert SlotCounted(Got(c, num, Lookup(c, num)), Lookup(c, num), Lookup(c, num));
  }

  /** With no leak so far, unlink gives its reference back exactly if the file is regular, nobody has it open, and it
      is not the root. */
  lemma UnlinkBalancedIff(c: Cache, num: nat)
    requires CacheInv(c) && IsInodeNr(c, num) && num in c.inUse && Lookup(c, num) < NR_INODE
    requires forall j :: 0 <= j < NR_INODE ==> c.leaks[j] == 0
    ensures var i := Lookup(c, num);
      var c1 := Got(c, num, i);
      && IsInodeNr(c1, c1.slots[i].num)
      && ((forall j :: 0 <= j < NR_INODE ==> Unlinked(c1, i).leaks[j] == 0)
          <==> RecAt(c.sects, num).mode == I_REGULAR && Openers(c.filp, c.descs, i) == {} && i != c.root)
  {
    var i := Lookup(c, num);
    GotHolds(c, num);
    UnlinkKeepsInv(Got(c, num, i), i);
    RemovableIff(c, num);
    assert !Removable(Got(c, num, i), i) ==> Unlinked(Got(c, num, i), i).leaks[i] == 1;
  }
}
