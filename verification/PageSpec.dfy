/** Two-level page tables, kept in a row of page frames that starts at the kernel's page directory. */
module PageSpec {
  import opened Constants

  const PAGE_SIZE := 0x1000
  const PAGE_DIR_BASE := 0x100000
  const FIRST_FRAME := 0x100          // PAGE_DIR_BASE / PAGE_SIZE
  const ENTRIES := 1024
  const KERNEL_TABLES := 3            // built by the loader, in the frames after the directory
  const NR_FRAMES := 1 + ENTRIES      // up to PAGE_TABLE_AREA_END
  const PAGES := 0x100000             // of a linear address space

  const PG_P := 1
  const PG_RWW := 2
  const PG_USU := 4

  type Word = x: int | 0 <= x < U32

  /** frames are the page frames, each a table or a directory, counted from the kernel's directory. next is the
      first that was never handed out. dirs are the frames that are directories. */
  datatype Memory = Memory(frames: seq<seq<Word>>, next: nat, dirs: set<nat>)

  predicate Present(e: Word) {
    e % 2 == PG_P
  }

  /** Where in the row the frame lies that an entry points to. */
  function TableOf(e: Word): int {
    e / PAGE_SIZE - FIRST_FRAME
  }

  function Attributes(e: Word): int {
    e % PAGE_SIZE
  }

  function Entry(frame: int, attributes: int): Word
    requires 0 <= frame < PAGES && 0 <= attributes < PAGE_SIZE
  {
    frame * PAGE_SIZE + attributes
  }

  predicate MemoryShape(m: Memory) {
    |m.frames| == NR_FRAMES && (forall f :: 0 <= f < NR_FRAMES ==> |m.frames[f]| == ENTRIES)
  }

  predicate IsKernelTable(t: int) {
    1 <= t <= KERNEL_TABLES
  }

  /** A present directory entry points to a table that was handed out, or to the kernel's table for this index. */
  predicate EntryOk(m: Memory, d: nat, i: nat)
    requires MemoryShape(m) && d < NR_FRAMES && i < ENTRIES
  {
    var e := m.frames[d][i];
    Present(e) ==>
      var t := TableOf(e);
      if IsKernelTable(t) then t == i + 1 else KERNEL_TABLES < t < m.next && t !in m.dirs
  }

  /** No table but the kernel's is reachable through two directory entries. */
  ghost predicate Private(m: Memory)
    requires MemoryShape(m) && forall d :: d in m.dirs ==> d < NR_FRAMES
  {
    forall d, d', i, j :: d in m.dirs && d' in m.dirs && 0 <= i < ENTRIES && 0 <= j < ENTRIES ==>
      Present(m.frames[d][i]) ==> Present(m.frames[d'][j]) ==>
      TableOf(m.frames[d][i]) == TableOf(m.frames[d'][j]) ==>
      (d == d' && i == j) || IsKernelTable(TableOf(m.frames[d][i]))
  }

  ghost predicate PagesInv(m: Memory) {
    && MemoryShape(m) && KERNEL_TABLES < m.next <= NR_FRAMES && 0 in m.dirs
    && (forall d :: d in m.dirs ==> d < m.next && !IsKernelTable(d))
    && (forall d, i :: d in m.dirs && 0 <= i < ENTRIES ==> EntryOk(m, d, i))
    && (forall i :: 0 <= i < KERNEL_TABLES ==> Present(m.frames[0][i]) && TableOf(m.frames[0][i]) == i + 1)
    && Private(m)
  }

  // ---------- address translation ----------

  /** What the processor finds for a page: the attributes of the directory entry, and the table entry. */
  datatype Translation = Absent | To(attributes: int, entry: Word)

  function Translate(m: Memory, d: nat, page: nat): Translation
    requires MemoryShape(m) && d < NR_FRAMES && page < PAGES
  {
    var e := m.frames[d][page / ENTRIES];
    if !Present(e) || !(0 <= TableOf(e) < NR_FRAMES) then Absent
    else
      var p := m.frames[TableOf(e)][page % ENTRIES];
      if Present(p) then To(Attributes(e), p) else Absent
  }

  /** The frame the page is mapped to is the page itself. */
  predicate IsIdentity(t: Translation, page: nat) {
    t.To? && t.entry / PAGE_SIZE == page
  }

  /** The page is mapped to itself: the frame in the entry is the page, bit 0 says that it is present, bit 1 that it may
      be written, and bit 2 that user code may use it. */
  predicate AsAsked(t: Translation, page: nat, user: bool, writable: bool) {
    && IsIdentity(t, page) && t.entry % 2 == 1
    && (t.entry / 2 % 2 == 1 <==> writable) && (t.entry / 4 % 2 == 1 <==> user)
  }

  /** What the processor lets user code do takes both levels. */
  predicate OpenToUser(t: Translation) {
    t.To? && t.attributes / 4 % 2 == 1 && t.entry / 4 % 2 == 1
  }

  predicate OpenToWrite(t: Translation) {
    t.To? && t.attributes / 2 % 2 == 1 && t.entry / 2 % 2 == 1
  }

  // ---------- the steps ----------

  datatype Outcome = Outcome(ok: bool, m: Memory)   // not ok: the system halts

  function Zeros(): seq<Word> {
    seq(ENTRIES, i => 0)
  }

  function Full(m: Memory): bool {
    m.next >= NR_FRAMES
  }

  /** A new directory that has the kernel's first entries. */
  function Cloned(m: Memory): Outcome
    requires MemoryShape(m)
  {
    if Full(m) then Outcome(false, m)
    else
      Outcome(true, Memory(m.frames[m.next := m.frames[0][..KERNEL_TABLES] + Zeros()[KERNEL_TABLES..]],
                           m.next + 1, m.dirs + {m.next}))
  }

  /** The next frame, with the given contents, becomes the table of entry i of directory d. */
  function TableAdded(m: Memory, d: nat, i: nat, table: seq<Word>, attributes: int): Memory
    requires MemoryShape(m) && d < NR_FRAMES && i < ENTRIES && !Full(m) && |table| == ENTRIES
    requires 0 <= attributes < PAGE_SIZE
  {
    var row: seq<Word> := m.frames[m.next := table][d];
    m.(frames := m.frames[m.next := table][d := row[i := Entry(FIRST_FRAME + m.next, attributes)]], next := m.next + 1)
  }

  /** Entry i of directory d gets a table if it has none, and a copy of its own if it shares the kernel's. */
  function Unshared(m: Memory, d: nat, i: nat): Outcome
    requires MemoryShape(m) && d < NR_FRAMES && i < ENTRIES
  {
    var e := m.frames[d][i];
    if !Present(e) then
      if Full(m) then Outcome(false, m) else Outcome(true, TableAdded(m, d, i, Zeros(), PG_P + PG_RWW + PG_USU))
    else if d != 0 && IsKernelTable(TableOf(e)) then
      if Full(m) then Outcome(false, m) else Outcome(true, TableAdded(m, d, i, m.frames[TableOf(e)], Attributes(e)))
    else Outcome(true, m)
  }

  /** The entry for a page that is mapped to itself. */
  function IdentityEntry(page: nat, user: bool, writable: bool): Word
    requires page < PAGES
  {
    Entry(page, PG_P + (if writable then PG_RWW else 0) + (if user then PG_USU else 0))
  }

  /** The page is entered in table t, unless it is present there. */
  function EntrySet(m: Memory, t: nat, page: nat, user: bool, writable: bool): Memory
    requires MemoryShape(m) && t < NR_FRAMES && page < PAGES
  {
    var row: seq<Word> := m.frames[t];
    if Present(row[page % ENTRIES]) then m
    else m.(frames := m.frames[t := row[page % ENTRIES := IdentityEntry(page, user, writable)]])
  }
}
