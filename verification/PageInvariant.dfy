/** What adding tables and entries does to the translations of every directory. */
module PageInvariant {
  import opened PageSpec

  lemma EntryParts(frame: int, attributes: int)
    requires 0 <= frame < PAGES && 0 <= attributes < PAGE_SIZE
    ensures TableOf(Entry(frame, attributes)) == frame - FIRST_FRAME
    ensures Attributes(Entry(frame, attributes)) == attributes
    ensures Present(Entry(frame, attributes)) <==> attributes % 2 == PG_P
  {
  }

  // ---------- a new table ----------

  /** Entry i of d is absent, or shared with the kernel: the two cases in which it gets a table. */
  ghost predicate NeedsTable(m: Memory, d: nat, i: nat)
    requires PagesInv(m) && d in m.dirs && i < ENTRIES
  {
    !Present(m.frames[d][i]) || (d != 0 && IsKernelTable(TableOf(m.frames[d][i])))
  }

  lemma TableAddedAt(m: Memory, d: nat, i: nat, table: seq<Word>, attributes: int)
    requires PagesInv(m) && d in m.dirs && i < ENTRIES && !Full(m) && NeedsTable(m, d, i)
    requires |table| == ENTRIES && 0 <= attributes < PAGE_SIZE && attributes % 2 == PG_P
    ensures var m' := TableAdded(m, d, i, table, attributes);
      && MemoryShape(m') && m'.frames[m.next] == table
      && Present(m'.frames[d][i]) && TableOf(m'.frames[d][i]) == m.next && Attributes(m'.frames[d][i]) == attributes
      && (forall f :: 0 <= f < NR_FRAMES && f != m.next && f != d ==> m'.frames[f] == m.frames[f])
      && (forall j :: 0 <= j < ENTRIES && j != i ==> m'.frames[d][j] == m.frames[d][j])
  {
    EntryParts(FIRST_FRAME + m.next, attributes);
  }

  lemma TableAddedPrivate(m: Memory, d: nat, i: nat, table: seq<Word>, attributes: int)
    requires PagesInv(m) && d in m.dirs && i < ENTRIES && !Full(m) && NeedsTable(m, d, i)
    requires |table| == ENTRIES && 0 <= attributes < PAGE_SIZE && attributes % 2 == PG_P
    ensures MemoryShape(TableAdded(m, d, i, table, attributes)) && Private(TableAdded(m, d, i, table, attributes))
  {
    TableAddedAt(m, d, i, table, attributes);
    hide TableAdded;
    var m' := TableAdded(m, d, i, table, attributes);
    assert m'.dirs == m.dirs;
    forall e, e', j, k | e in m.dirs && e' in m.dirs && 0 <= j < ENTRIES && 0 <= k < ENTRIES
      && Present(m'.frames[e][j]) && Present(m'.frames[e'][k])
      && TableOf(m'.frames[e][j]) == TableOf(m'.frames[e'][k]) && !(e == e' && j == k)
      ensures IsKernelTable(TableOf(m'.frames[e][j]))
    {
      assert EntryOk(m, e, j) && EntryOk(m, e', k);
    }
  }

  lemma TableAddedKeepsInv(m: Memory, d: nat, i: nat, table: seq<Word>, attributes: int)
    requires PagesInv(m) && d in m.dirs && i < ENTRIES && !Full(m) && NeedsTable(m, d, i)
    requires |table| == ENTRIES && 0 <= attributes < PAGE_SIZE && attributes % 2 == PG_P
    ensures PagesInv(TableAdded(m, d, i, table, attributes))
  {
    TableAddedAt(m, d, i, table, attributes);
    TableAddedPrivate(m, d, i, table, attributes);
    var m' := TableAdded(m, d, i, table, attributes);
    forall e, j | e in m.dirs && 0 <= j < ENTRIES
      ensures EntryOk(m', e, j)
    {
      assert EntryOk(m, e, j);
    }
  }

  // ---------- translations ----------

  predicate MemoriesOk(m: Memory, m': Memory) {
    && MemoryShape(m) && MemoryShape(m') && m'.dirs == m.dirs
    && forall e :: e in m.dirs ==> e < NR_FRAMES
  }

  ghost predicate SameTranslations(m: Memory, m': Memory) {
    && MemoriesOk(m, m')
    && forall e: nat, p: nat :: e in m.dirs && p < PAGES ==> Translate(m', e, p) == Translate(m, e, p)
  }

  ghost predicate KernelTablesSame(m: Memory, m': Memory) {
    && MemoriesOk(m, m')
    && forall t :: IsKernelTable(t) ==> m'.frames[t] == m.frames[t]
  }

  /** A new table that translates as the directory entry did before changes no translation. */
  lemma TableAddedTranslates(m: Memory, d: nat, i: nat, table: seq<Word>, attributes: int)
    requires PagesInv(m) && d in m.dirs && i < ENTRIES && !Full(m) && NeedsTable(m, d, i)
    requires |table| == ENTRIES && 0 <= attributes < PAGE_SIZE && attributes % 2 == PG_P
    requires if Present(m.frames[d][i]) then
               table == m.frames[TableOf(m.frames[d][i])] && attributes == Attributes(m.frames[d][i])
             else table == Zeros()
    ensures SameTranslations(m, TableAdded(m, d, i, table, attributes))
    ensures KernelTablesSame(m, TableAdded(m, d, i, table, attributes))
  {
    TableAddedAt(m, d, i, table, attributes);
    var m' := TableAdded(m, d, i, table, attributes);
    forall e: nat, p: nat | e in m.dirs && p < PAGES
      ensures Translate(m', e, p) == Translate(m, e, p)
    {
      assert EntryOk(m, e, p / ENTRIES);
    }
  }

  /** Directory entry i of d has a table that may be written for d. */
  ghost predicate Writable(m: Memory, d: nat, i: nat)
    requires MemoryShape(m) && d < NR_FRAMES && i < ENTRIES
  {
    && Present(m.frames[d][i]) && 0 < TableOf(m.frames[d][i]) < NR_FRAMES
    && TableOf(m.frames[d][i]) !in m.dirs
    && (d != 0 ==> !IsKernelTable(TableOf(m.frames[d][i])))
  }

  /** Directory entries of d that are present stay so with their attributes, and new ones are open to all. The other
      directories are untouched. */
  ghost predicate DirsKept(m: Memory, m': Memory, d: nat)
    requires d < NR_FRAMES
  {
    && MemoriesOk(m, m')
    && (forall e :: e in m.dirs && e != d ==> m'.frames[e] == m.frames[e])
    && (forall i :: 0 <= i < ENTRIES ==>
          if Present(m.frames[d][i]) then
            Present(m'.frames[d][i]) && Attributes(m'.frames[d][i]) == Attributes(m.frames[d][i])
          else
            Present(m'.frames[d][i]) ==> Attributes(m'.frames[d][i]) == PG_P + PG_RWW + PG_USU)
  }

  /** Unsharing keeps everything that can be seen through any directory. It fails only for lack of a frame. */
  lemma UnsharedFacts(m: Memory, d: nat, i: nat)
    requires PagesInv(m) && d in m.dirs && i < ENTRIES
    ensures var u := Unshared(m, d, i);
      && PagesInv(u.m) && SameTranslations(m, u.m) && KernelTablesSame(m, u.m) && DirsKept(m, u.m, d)
      && (u.ok <==> !Full(m) || !NeedsTable(m, d, i)) && (u.ok ==> Writable(u.m, d, i))
  {
    var e := m.frames[d][i];
    assert EntryOk(m, d, i);
    if !Present(e) {
      if !Full(m) {
        TableAddedAt(m, d, i, Zeros(), PG_P + PG_RWW + PG_USU);
        TableAddedKeepsInv(m, d, i, Zeros(), PG_P + PG_RWW + PG_USU);
        TableAddedTranslates(m, d, i, Zeros(), PG_P + PG_RWW + PG_USU);
      }
    } else if d != 0 && IsKernelTable(TableOf(e)) {
      if !Full(m) {
        assert Attributes(e) % 2 == PG_P;
        TableAddedAt(m, d, i, m.frames[TableOf(e)], Attributes(e));
        TableAddedKeepsInv(m, d, i, m.frames[TableOf(e)], Attributes(e));
        TableAddedTranslates(m, d, i, m.frames[TableOf(e)], Attributes(e));
      }
    }
  }

  // ---------- entering a page ----------

  /** Directory e sees what is entered for the page on behalf of d. */
  ghost predicate Sees(m: Memory, d: nat, e: nat, page: nat)
    requires MemoryShape(m) && d < NR_FRAMES && e < NR_FRAMES && page < PAGES
  {
    e == d || (d == 0 && Present(m.frames[e][page / ENTRIES]) && IsKernelTable(TableOf(m.frames[e][page / ENTRIES])))
  }

  lemma EntrySetKeepsInv(m: Memory, d: nat, page: nat, user: bool, writable: bool)
    requires PagesInv(m) && d in m.dirs && page < PAGES && Writable(m, d, page / ENTRIES)
    ensures var m' := EntrySet(m, TableOf(m.frames[d][page / ENTRIES]), page, user, writable);
      && PagesInv(m') && DirsKept(m, m', d) && (d != 0 ==> KernelTablesSame(m, m'))
  {
    var m' := EntrySet(m, TableOf(m.frames[d][page / ENTRIES]), page, user, writable);
    assert forall e :: e in m.dirs ==> m'.frames[e] == m.frames[e];
    forall e, j | e in m.dirs && 0 <= j < ENTRIES
      ensures EntryOk(m', e, j)
    {
      assert EntryOk(m, e, j);
    }
  }

  /** Entering a page that was absent maps it to itself, in this directory and those that share the kernel's table
      with it. No other translation changes. */
  lemma EntrySetTranslates(m: Memory, d: nat, page: nat, user: bool, writable: bool, e: nat, p: nat)
    requires PagesInv(m) && d in m.dirs && page < PAGES && Writable(m, d, page / ENTRIES)
    requires e in m.dirs && p < PAGES
    ensures var m' := EntrySet(m, TableOf(m.frames[d][page / ENTRIES]), page, user, writable);
      && MemoryShape(m')
      && Translate(m', e, p) ==
         if p == page && Translate(m, e, p) == Absent && Sees(m, d, e, page)
         then To(Attributes(m.frames[e][page / ENTRIES]), IdentityEntry(page, user, writable))
         else Translate(m, e, p)
  {
    var t := TableOf(m.frames[d][page / ENTRIES]);
    var m' := EntrySet(m, t, page, user, writable);
    EntryParts(page, PG_P + (if writable then PG_RWW else 0) + (if user then PG_USU else 0));
    assert EntryOk(m, d, page / ENTRIES) && EntryOk(m, e, p / ENTRIES);
    assert m'.frames[e] == m.frames[e];
    assert page == page / ENTRIES * ENTRIES + page % ENTRIES && p == p / ENTRIES * ENTRIES + p % ENTRIES;
  }
}
