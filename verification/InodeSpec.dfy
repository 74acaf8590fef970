/** The inode cache, the table of open files and the per-process file slots, with their reference counts. */
module InodeSpec {

  const NR_FILES := 64        // file slots of a process
  const NR_FILE_DESC := 64
  const NR_INODE := 64
  const RECS_PER_SECT := 16   // SECTOR_SIZE / INODE_SIZE
  const NULL := -1

  const I_REGULAR := 0x8000

  /** An inode as stored on the disk. */
  datatype Rec = Rec(mode: int, size: nat, start: nat, sects: nat)

  /** A slot of the cache. */
  datatype Slot = Slot(rec: Rec, cnt: int, num: nat)

  /** An open file. inode is a slot of the cache, NULL if this entry is free. */
  datatype Desc = Desc(mode: bv32, pos: nat, cnt: int, inode: int)

  /** filp holds the file slots of all processes, NR_FILES for each, as indices of descs or NULL. sects are the
      inode sectors of the disk. inUse are the numbers whose bit is set in the inode map. leaks counts, per
      cache slot, references that were taken and never given back. root is the slot of the root directory, NR_INODE
      until it is loaded. */
  datatype Cache = Cache(
    slots: seq<Slot>,
    descs: seq<Desc>,
    filp: seq<int>,
    sects: seq<seq<Rec>>,
    inUse: set<nat>,
    leaks: seq<nat>,
    root: nat)

  predicate CacheShape(c: Cache) {
    && |c.slots| == |c.leaks| == NR_INODE && |c.descs| == NR_FILE_DESC && c.root <= NR_INODE
    && (forall s :: 0 <= s < |c.sects| ==> |c.sects[s]| == RECS_PER_SECT)
    && (forall f :: 0 <= f < |c.filp| ==> NULL <= c.filp[f] < NR_FILE_DESC)
    && (forall d :: 0 <= d < NR_FILE_DESC ==> NULL <= c.descs[d].inode < NR_INODE)
  }

  predicate IsInodeNr(c: Cache, num: int) {
    1 <= num <= |c.sects| * RECS_PER_SECT
  }

  /** The record of an inode on the disk. Inode 1 is the first one of the first sector. */
  function RecAt(sects: seq<seq<Rec>>, num: nat): Rec
    requires 1 <= num <= |sects| * RECS_PER_SECT
    requires forall s :: 0 <= s < |sects| ==> |sects[s]| == RECS_PER_SECT
  {
    sects[(num - 1) / RECS_PER_SECT][(num - 1) % RECS_PER_SECT]
  }

  /** The records of a sector follow each other, and the sectors do. */
  lemma RecIs(sects: seq<seq<Rec>>, s: nat, k: nat)
    requires s < |sects| && k < RECS_PER_SECT && forall t :: 0 <= t < |sects| ==> |sects[t]| == RECS_PER_SECT
    ensures s * 16 + k + 1 <= |sects| * 16 && RecAt(sects, s * 16 + k + 1) == sects[s][k]
  {
  }

  function PutRec(sects: seq<seq<Rec>>, num: nat, r: Rec): seq<seq<Rec>>
    requires 1 <= num <= |sects| * RECS_PER_SECT
    requires forall s :: 0 <= s < |sects| ==> |sects[s]| == RECS_PER_SECT
  {
    var s := (num - 1) / RECS_PER_SECT;
    sects[s := sects[s][(num - 1) % RECS_PER_SECT := r]]
  }

  /** Rewriting a sector for one inode leaves the fifteen others in it, and all other sectors, alone. */
  lemma PutRecOnly(sects: seq<seq<Rec>>, num: nat, r: Rec, other: nat)
    requires 1 <= num <= |sects| * RECS_PER_SECT && 1 <= other <= |sects| * RECS_PER_SECT
    requires forall s :: 0 <= s < |sects| ==> |sects[s]| == RECS_PER_SECT
    ensures forall s :: 0 <= s < |sects| ==> |PutRec(sects, num, r)[s]| == RECS_PER_SECT
    ensures RecAt(PutRec(sects, num, r), other) == if other == num then r else RecAt(sects, other)
  {
    var s, k := (num - 1) / RECS_PER_SECT, (num - 1) % RECS_PER_SECT;
    var t, j := (other - 1) / RECS_PER_SECT, (other - 1) % RECS_PER_SECT;
    assert num - 1 == RECS_PER_SECT * s + k && other - 1 == RECS_PER_SECT * t + j;
  }

  // ---------- who refers to what ----------

  /** The file slots that point at descriptor d. */
  function Users(filp: seq<int>, d: int): set<int> {
    set f: int | 0 <= f < |filp| && filp[f] == d
  }

  /** The file slots through which inode slot i is open. */
  function Openers(filp: seq<int>, descs: seq<Desc>, i: int): set<int>
    requires forall f :: 0 <= f < |filp| ==> NULL <= filp[f] < |descs|
  {
    set f: int | 0 <= f < |filp| && filp[f] != NULL && descs[filp[f]].inode == i
  }

  /** Descriptor d counts its users, and is free exactly if it has none. */
  ghost predicate DescCounted(c: Cache, d: int)
    requires CacheShape(c) && 0 <= d < NR_FILE_DESC
  {
    && c.descs[d].cnt == |Users(c.filp, d)|
    && (c.descs[d].inode == NULL <==> c.descs[d].cnt == 0)
  }

  /** Inode slot i counts its openers, one reference for the root, one for the call in progress if it holds the
      slot, and the references that leaked. */
  ghost predicate SlotCounted(c: Cache, i: int, held: int)
    requires CacheShape(c) && 0 <= i < NR_INODE
  {
    c.slots[i].cnt == |Openers(c.filp, c.descs, i)| + c.leaks[i]
                      + (if i == c.root then 1 else 0) + (if i == held then 1 else 0)
  }

  /** Reference counts are exact. held is the slot the call in progress holds a reference to, or NULL. */
  ghost predicate Refs(c: Cache, held: int) {
    && CacheShape(c)
    && (forall d :: 0 <= d < NR_FILE_DESC ==> DescCounted(c, d))
    && (forall i :: 0 <= i < NR_INODE ==> SlotCounted(c, i, held))
  }

  /** A slot in use holds an inode that exists, with what is on the disk for it. */
  predicate Holds(c: Cache, i: int)
    requires CacheShape(c) && 0 <= i < NR_INODE
  {
    && IsInodeNr(c, c.slots[i].num) && c.slots[i].num in c.inUse
    && RecAt(c.sects, c.slots[i].num) == c.slots[i].rec
  }

  /** Slots in use hold different inodes, and hold what is on the disk. */
  ghost predicate Coherent(c: Cache) {
    && CacheShape(c)
    && (forall i :: 0 <= i < NR_INODE && c.slots[i].cnt > 0 ==> Holds(c, i))
    && (forall i, j :: 0 <= i < j < NR_INODE && c.slots[i].cnt > 0 && c.slots[j].cnt > 0 ==>
          c.slots[i].num != c.slots[j].num)
  }

  ghost predicate CacheInv(c: Cache) {
    Refs(c, NULL) && Coherent(c)
  }

  // ---------- the steps ----------

  /** The slot in use for inode num, or the first free slot, or NR_INODE. */
  function Lookup(c: Cache, num: nat): (r: nat)
    requires CacheShape(c)
    ensures r <= NR_INODE
  {
    var used := FirstSlot(c, num, true, 0);
    if used < NR_INODE then used else FirstSlot(c, num, false, 0)
  }

  predicate SlotMatches(s: Slot, num: nat, used: bool) {
    if used then s.cnt != 0 && s.num == num else s.cnt == 0
  }

  function FirstSlot(c: Cache, num: nat, used: bool, n: nat): (r: nat)
    requires CacheShape(c) && n <= NR_INODE
    ensures n <= r <= NR_INODE && (r < NR_INODE ==> SlotMatches(c.slots[r], num, used))
    ensures forall i :: n <= i < r ==> !SlotMatches(c.slots[i], num, used)
    decreases NR_INODE - n
  {
    if n == NR_INODE || SlotMatches(c.slots[n], num, used) then n else FirstSlot(c, num, used, n + 1)
  }

  /** One more reference to inode num: count it if the inode is cached, load the inode if not. */
  function Got(c: Cache, num: nat, i: nat): Cache
    requires CacheShape(c) && IsInodeNr(c, num) && i < NR_INODE
  {
    var s := c.slots[i];
    if s.cnt != 0 then c.(slots := c.slots[i := s.(cnt := s.cnt + 1)])
    else c.(slots := c.slots[i := Slot(RecAt(c.sects, num), 1, num)])
  }

  function Put(c: Cache, i: nat): Cache
    requires CacheShape(c) && i < NR_INODE
  {
    c.(slots := c.slots[i := c.slots[i].(cnt := c.slots[i].cnt - 1)])
  }

  /** The fields of a cached inode change, and are written through. */
  function Updated(c: Cache, i: nat, r: Rec): Cache
    requires CacheShape(c) && i < NR_INODE && IsInodeNr(c, c.slots[i].num)
  {
    c.(slots := c.slots[i := c.slots[i].(rec := r)], sects := PutRec(c.sects, c.slots[i].num, r))
  }

  /** File slot f gets descriptor d, which opens inode slot i. */
  function Attached(c: Cache, f: nat, d: nat, i: nat, mode: bv32): Cache
    requires CacheShape(c) && f < |c.filp| && d < NR_FILE_DESC && i < NR_INODE
  {
    c.(filp := c.filp[f := d], descs := c.descs[d := Desc(mode, 0, 1, i)])
  }

  /** File slot f gives up its descriptor, and the descriptor its inode if f was its last user. */
  function Detached(c: Cache, f: nat): Cache
    requires CacheShape(c) && f < |c.filp| && c.filp[f] != NULL && c.descs[c.filp[f]].inode != NULL
  {
    var d := c.filp[f];
    var e := c.descs[d];
    Put(c, e.inode).(
      filp := c.filp[f := NULL],
      descs := c.descs[d := e.(cnt := e.cnt - 1, inode := if e.cnt == 1 then NULL else e.inode)])
  }

  /** File slot f comes to share descriptor d. */
  function Shared(c: Cache, f: nat, d: nat): Cache
    requires CacheShape(c) && f < |c.filp| && d < NR_FILE_DESC && c.descs[d].inode != NULL
  {
    var e := c.descs[d];
    c.(filp := c.filp[f := d],
       descs := c.descs[d := e.(cnt := e.cnt + 1)],
       slots := c.slots[e.inode := c.slots[e.inode].(cnt := c.slots[e.inode].cnt + 1)])
  }
}
