/** Mapping a range of pages to themselves: what it gives the directory, and what it leaves alone. */
module PageMap {
  import opened PageSpec
  import opened PageInvariant

  /** One page: its directory entry gets a table of its own, and the page is entered there. */
  ghost function PageMapped(m: Memory, d: nat, page: nat, user: bool, writable: bool): Outcome
    requires PagesInv(m) && d in m.dirs && page < PAGES
  {
    UnsharedFacts(m, d, page / ENTRIES);
    var u := Unshared(m, d, page / ENTRIES);
    if !u.ok then u
    else Outcome(true, EntrySet(u.m, TableOf(u.m.frames[d][page / ENTRIES]), page, user, writable))
  }

  /** In m', every translation of m is there as it was. A page absent in m may be there, mapped to itself with the
      rights asked for, if it lies in lo..hi and directory e sees what is entered for d. */
  ghost predicate Extends(m: Memory, m': Memory, d: nat, lo: nat, hi: nat, user: bool, writable: bool, e: nat, p: nat)
    requires MemoriesOk(m, m') && d < NR_FRAMES && e < NR_FRAMES && p < PAGES
  {
    var t, t' := Translate(m, e, p), Translate(m', e, p);
    t' == t || (t == Absent && lo <= p < hi && Sees(m, d, e, p)
                && t'.To? && t'.entry == IdentityEntry(p, user, writable))
  }

  ghost predicate Mapping(m: Memory, m': Memory, d: nat, lo: nat, hi: nat, user: bool, writable: bool)
    requires d < NR_FRAMES
  {
    && DirsKept(m, m', d) && (d != 0 ==> KernelTablesSame(m, m'))
    && forall e: nat, p: nat :: e in m.dirs && p < PAGES ==> Extends(m, m', d, lo, hi, user, writable, e, p)
  }

  lemma PageMappedExtends(m: Memory, d: nat, page: nat, user: bool, writable: bool, e: nat, p: nat)
    requires PagesInv(m) && d in m.dirs && page < PAGES && e in m.dirs && p < PAGES
    ensures var m' := PageMapped(m, d, page, user, writable).m;
      MemoriesOk(m, m') && Extends(m, m', d, page, page + 1, user, writable, e, p)
  {
    hide EntrySet, Unshared;
    UnsharedFacts(m, d, page / ENTRIES);
    var u := Unshared(m, d, page / ENTRIES);
    if u.ok {
      EntrySetKeepsInv(u.m, d, page, user, writable);
      EntrySetTranslates(u.m, d, page, user, writable, e, p);
      hide Translate;
      assert Translate(u.m, e, p) == Translate(m, e, p);
    }
  }

  lemma PageMappedPresent(m: Memory, d: nat, page: nat, user: bool, writable: bool)
    requires PagesInv(m) && d in m.dirs && page < PAGES && PageMapped(m, d, page, user, writable).ok
    ensures var m' := PageMapped(m, d, page, user, writable).m;
      MemoryShape(m') && Translate(m', d, page).To?
  {
    UnsharedFacts(m, d, page / ENTRIES);
    EntrySetTranslates(Unshared(m, d, page / ENTRIES).m, d, page, user, writable, d, page);
  }

  lemma PageMappedInv(m: Memory, d: nat, page: nat, user: bool, writable: bool)
    requires PagesInv(m) && d in m.dirs && page < PAGES
    ensures var m' := PageMapped(m, d, page, user, writable).m;
      && PagesInv(m') && d < NR_FRAMES && DirsKept(m, m', d) && (d != 0 ==> KernelTablesSame(m, m'))
      && (PageMapped(m, d, page, user, writable).ok <==> !Full(m) || !NeedsTable(m, d, page / ENTRIES))
  {
    UnsharedFacts(m, d, page / ENTRIES);
    var u := Unshared(m, d, page / ENTRIES);
    if u.ok {
      EntrySetKeepsInv(u.m, d, page, user, writable);
    }
  }

  lemma PageMappedFacts(m: Memory, d: nat, page: nat, user: bool, writable: bool)
    requires PagesInv(m) && d in m.dirs && page < PAGES
    ensures var o := PageMapped(m, d, page, user, writable);
      && PagesInv(o.m) && Mapping(m, o.m, d, page, page + 1, user, writable)
      && (o.ok ==> Translate(o.m, d, page).To?)
      && (o.ok <==> !Full(m) || !NeedsTable(m, d, page / ENTRIES))
  {
    hide PageMapped, Extends, PagesInv, Translate, DirsKept, KernelTablesSame, NeedsTable, Full;
    PageMappedInv(m, d, page, user, writable);
    var o, hi := PageMapped(m, d, page, user, writable), page + 1;
    var m' := o.m;
    if o.ok {
      PageMappedPresent(m, d, page, user, writable);
    }
    Shapes(m);
    Shapes(m');
    forall e: nat, p: nat | e in m.dirs && p < PAGES
      ensures Extends(m, m', d, page, hi, user, writable, e, p)
    {
      PageMappedExtends(m, d, page, user, writable, e, p);
    }
  }

  /** The pages from lo to hi, one after the other, until there is no frame left for a table. */
  ghost function Mapped(m: Memory, d: nat, lo: nat, hi: nat, user: bool, writable: bool): (o: Outcome)
    requires PagesInv(m) && d in m.dirs && lo <= hi <= PAGES
    ensures PagesInv(o.m) && o.m.dirs == m.dirs
    decreases hi - lo
  {
    hide PageMapped, Extends, Full, NeedsTable, Translate;
    if lo == hi then Outcome(true, m)
    else
      var o := Mapped(m, d, lo, hi - 1, user, writable);
      if !o.ok then o
      else
        PageMappedFacts(o.m, d, hi - 1, user, writable);
        PageMapped(o.m, d, hi - 1, user, writable)
  }

  /** Two stretches mapped one after the other. */
  lemma MappingTrans(m: Memory, m1: Memory, m2: Memory, d: nat, lo: nat, mid: nat, hi: nat, user: bool, writable: bool)
    requires d in m.dirs && d < NR_FRAMES && lo <= mid <= hi
    requires Mapping(m, m1, d, lo, mid, user, writable) && Mapping(m1, m2, d, mid, hi, user, writable)
    ensures Mapping(m, m2, d, lo, hi, user, writable)
  {
    forall e: nat, p: nat | e in m.dirs && p < PAGES
      ensures Extends(m, m2, d, lo, hi, user, writable, e, p)
    {
      assert Extends(m, m1, d, lo, mid, user, writable, e, p) && Extends(m1, m2, d, mid, hi, user, writable, e, p);
    }
  }

  /** Over any range: the invariant is kept, translations are only added, and none but those asked for. If the frames
      last, every page of the range is there. */
  lemma {:induction false} MappedFacts(m: Memory, d: nat, lo: nat, hi: nat, user: bool, writable: bool)
    requires PagesInv(m) && d in m.dirs && lo <= hi <= PAGES
    ensures var o := Mapped(m, d, lo, hi, user, writable);
      && PagesInv(o.m) && Mapping(m, o.m, d, lo, hi, user, writable)
      && (o.ok ==> forall p: nat :: lo <= p < hi ==> Translate(o.m, d, p).To?)
    decreases hi - lo
  {
    hide PagesInv, PageMapped, DirsKept, KernelTablesSame, Extends, Translate, Full, NeedsTable;
    Shapes(m);
    if lo == hi {
      MappingNone(m, d, lo, user, writable);
    } else {
      MappedFacts(m, d, lo, hi - 1, user, writable);
      var o := Mapped(m, d, lo, hi - 1, user, writable);
      Shapes(o.m);
      if o.ok {
        PageMappedFacts(o.m, d, hi - 1, user, writable);
        var o' := PageMapped(o.m, d, hi - 1, user, writable);
        Shapes(o'.m);
        MappingTrans(m, o.m, o'.m, d, lo, hi - 1, hi, user, writable);
        forall p: nat | o'.ok && lo <= p < hi - 1
          ensures Translate(o'.m, d, p).To?
        {
          StillPresent(o.m, o'.m, d, hi - 1, hi, user, writable, p);
        }
      } else {
        MappingWider(m, o.m, d, lo, hi - 1, hi, user, writable);
      }
    }
  }

  lemma Shapes(m: Memory)
    requires PagesInv(m)
    ensures MemoryShape(m) && forall e :: e in m.dirs ==> e < NR_FRAMES
  {
  }

  lemma MappingNone(m: Memory, d: nat, lo: nat, user: bool, writable: bool)
    requires PagesInv(m) && d in m.dirs
    ensures Mapping(m, m, d, lo, lo, user, writable)
  {
  }

  lemma StillPresent(m: Memory, m': Memory, d: nat, lo: nat, hi: nat, user: bool, writable: bool, p: nat)
    requires d in m.dirs && d < NR_FRAMES && Mapping(m, m', d, lo, hi, user, writable) && p < PAGES
    requires Translate(m, d, p).To?
    ensures Translate(m', d, p).To?
  {
    assert Extends(m, m', d, lo, hi, user, writable, d, p);
  }

  lemma MappingWider(m: Memory, m': Memory, d: nat, lo: nat, mid: nat, hi: nat, user: bool, writable: bool)
    requires d in m.dirs && d < NR_FRAMES && lo <= mid <= hi && Mapping(m, m', d, lo, mid, user, writable)
    ensures Mapping(m, m', d, lo, hi, user, writable)
  {
    forall e: nat, p: nat | e in m.dirs && p < PAGES
      ensures Extends(m, m', d, lo, hi, user, writable, e, p)
    {
      assert Extends(m, m', d, lo, mid, user, writable, e, p);
    }
  }

  // ---------- what that means ----------

  /** A translation that is present in any directory survives any mapping call on any directory. */
  lemma TranslationsSurvive(m: Memory, d: nat, lo: nat, hi: nat, user: bool, writable: bool, e: nat, p: nat)
    requires PagesInv(m) && d in m.dirs && lo <= hi <= PAGES && e in m.dirs && p < PAGES
    ensures Translate(m, e, p).To? ==>
      Translate(Mapped(m, d, lo, hi, user, writable).m, e, p) == Translate(m, e, p)
  {
    MappedFacts(m, d, lo, hi, user, writable);
    assert Extends(m, Mapped(m, d, lo, hi, user, writable).m, d, lo, hi, user, writable, e, p);
  }

  /** Mapping for a process leaves the kernel's tables unwritten and every other directory as it was, present and
      absent pages alike. */
  lemma ProcessesAreIsolated(m: Memory, d: nat, lo: nat, hi: nat, user: bool, writable: bool, e: nat, p: nat)
    requires PagesInv(m) && d in m.dirs && d != 0 && lo <= hi <= PAGES && e in m.dirs && e != d && p < PAGES
    ensures var m' := Mapped(m, d, lo, hi, user, writable).m;
      && Translate(m', e, p) == Translate(m, e, p)
      && forall t :: IsKernelTable(t) ==> m'.frames[t] == m.frames[t]
  {
    MappedFacts(m, d, lo, hi, user, writable);
    assert Extends(m, Mapped(m, d, lo, hi, user, writable).m, d, lo, hi, user, writable, e, p);
  }

  lemma IdentityIsAsAsked(t: Translation, page: nat, user: bool, writable: bool)
    requires page < PAGES && t.To? && t.entry == IdentityEntry(page, user, writable)
    ensures AsAsked(t, page, user, writable)
  {
    BitsOf(page, user, writable);
  }

  lemma BitsOf(page: nat, user: bool, writable: bool)
    requires page < PAGES
    ensures var e := IdentityEntry(page, user, writable);
      && e / PAGE_SIZE == page && e % 2 == 1
      && (e / 2 % 2 == 1 <==> writable) && (e / 4 % 2 == 1 <==> user)
  {
    LowBits(page, 1 + (if writable then 2 else 0) + (if user then 4 else 0));
  }

  lemma LowBits(page: nat, b: nat)
    requires b < 8
    ensures var e := page * PAGE_SIZE + b;
      e / PAGE_SIZE == page && e % 2 == b % 2 && e / 2 % 2 == b / 2 % 2 && e / 4 % 2 == b / 4
  {
    var e, h, q := page * PAGE_SIZE + b, page * 0x800 + b / 2, page * 0x400 + b / 4;
    Halves(h, b % 2);
    assert e == 2 * h + b % 2;
    Halves(q, b / 2 % 2);
    assert h == 2 * q + b / 2 % 2;
    Halves(page * 0x200, b / 4);
    assert e / 4 == e / 2 / 2;
  }

  lemma Halves(x: nat, r: nat)
    requires r < 2
    ensures (2 * x + r) / 2 == x && (2 * x + r) % 2 == r
  {
  }

  /** A page of the range ends up mapped to itself with the rights asked for exactly if it was absent, or was mapped
      so before. In particular a page that the kernel entered for itself in a shared table stays closed to the
      process that asks for it. */
  lemma MappedAsAskedIff(m: Memory, d: nat, lo: nat, hi: nat, user: bool, writable: bool, p: nat)
    requires PagesInv(m) && d in m.dirs && lo <= p < hi <= PAGES && Mapped(m, d, lo, hi, user, writable).ok
    ensures var t, t' := Translate(m, d, p), Translate(Mapped(m, d, lo, hi, user, writable).m, d, p);
      AsAsked(t', p, user, writable) <==> t == Absent || AsAsked(t, p, user, writable)
  {
    MappedFacts(m, d, lo, hi, user, writable);
    hide IdentityEntry, Translate, AsAsked, PagesInv, Mapped;
    var m' := Mapped(m, d, lo, hi, user, writable).m;
    assert Extends(m, m', d, lo, hi, user, writable, d, p);
    if Translate(m, d, p) == Absent {
      IdentityIsAsAsked(Translate(m', d, p), p, user, writable);
    }
  }

  // ---------- rights ----------

  /** Directory entries grant everything, so that the entries of the pages decide. */
  ghost predicate DirsOpen(m: Memory)
    requires MemoryShape(m) && forall d :: d in m.dirs ==> d < NR_FRAMES
  {
    forall d, i :: d in m.dirs && 0 <= i < ENTRIES && Present(m.frames[d][i]) ==>
      Attributes(m.frames[d][i]) / 2 % 2 == 1 && Attributes(m.frames[d][i]) / 4 % 2 == 1
  }

  lemma MappedStaysOpen(m: Memory, d: nat, lo: nat, hi: nat, user: bool, writable: bool)
    requires PagesInv(m) && d in m.dirs && lo <= hi <= PAGES && DirsOpen(m)
    ensures PagesInv(Mapped(m, d, lo, hi, user, writable).m) && DirsOpen(Mapped(m, d, lo, hi, user, writable).m)
  {
    hide PagesInv, Extends, DirsKept, DirsOpen, Mapped, KernelTablesSame;
    MappedFacts(m, d, lo, hi, user, writable);
    Shapes(m);
    Shapes(Mapped(m, d, lo, hi, user, writable).m);
    KeptStaysOpen(m, Mapped(m, d, lo, hi, user, writable).m, d);
  }

  lemma KeptStaysOpen(m: Memory, m': Memory, d: nat)
    requires d in m.dirs && d < NR_FRAMES && MemoriesOk(m, m') && DirsOpen(m) && DirsKept(m, m', d)
    ensures DirsOpen(m')
  {
    hide Present, Attributes;
    OpenAttributes();
  }

  lemma OpenAttributes()
    ensures (PG_P + PG_RWW + PG_USU) / 2 % 2 == 1 && (PG_P + PG_RWW + PG_USU) / 4 % 2 == 1
  {
  }

  lemma ClonedStaysOpen(m: Memory)
    requires PagesInv(m) && !Full(m) && DirsOpen(m)
    ensures PagesInv(Cloned(m).m) && DirsOpen(Cloned(m).m)
  {
    ClonedKeepsInv(m);
    var m' := Cloned(m).m;
    assert forall e :: e in m.dirs ==> m'.frames[e] == m.frames[e];
    assert forall i :: 0 <= i < ENTRIES ==>
      m'.frames[m.next][i] == if i < KERNEL_TABLES then m.frames[0][i] else 0;
  }

  lemma AttributesOf(m: Memory, d: nat, p: nat)
    requires PagesInv(m) && DirsOpen(m) && d in m.dirs && p < PAGES && Translate(m, d, p).To?
    ensures Translate(m, d, p).attributes / 2 % 2 == 1 && Translate(m, d, p).attributes / 4 % 2 == 1
  {
    hide Private, EntryOk;
    assert 0 <= p / ENTRIES < ENTRIES;
  }

  /** A page that was absent can be used by user code exactly if that was asked for, and written exactly if that was. */
  lemma MappedRights(m: Memory, d: nat, lo: nat, hi: nat, user: bool, writable: bool, p: nat)
    requires PagesInv(m) && DirsOpen(m) && d in m.dirs && lo <= p < hi <= PAGES && Translate(m, d, p) == Absent
    requires Mapped(m, d, lo, hi, user, writable).ok
    ensures var t := Translate(Mapped(m, d, lo, hi, user, writable).m, d, p);
      IsIdentity(t, p) && (OpenToUser(t) <==> user) && (OpenToWrite(t) <==> writable)
  {
    hide Private, EntryOk, Translate, DirsOpen, PagesInv, Mapped;
    Shapes(m);
    MappedStaysOpen(m, d, lo, hi, user, writable);
    MappedAsAskedIff(m, d, lo, hi, user, writable, p);
    AttributesOf(Mapped(m, d, lo, hi, user, writable).m, d, p);
  }

  // ---------- new directories ----------

  /** A cloned directory translates the kernel's first 12 MB as the kernel does, and nothing else. */
  lemma ClonedFacts(m: Memory)
    requires PagesInv(m) && !Full(m)
    ensures var m' := Cloned(m).m;
      && PagesInv(m') && m'.dirs == m.dirs + {m.next} && m.next !in m.dirs
      && (forall e: nat, p: nat :: e in m.dirs && p < PAGES ==> Translate(m', e, p) == Translate(m, e, p))
      && (forall p: nat :: p < PAGES ==>
            Translate(m', m.next, p) == if p < KERNEL_TABLES * ENTRIES then Translate(m, 0, p) else Absent)
  {
    var m' := Cloned(m).m;
    ClonedKeepsInv(m);
    forall e: nat, p: nat | e in m.dirs && p < PAGES
      ensures Translate(m', e, p) == Translate(m, e, p)
    {
      assert EntryOk(m, e, p / ENTRIES);
    }
    forall p: nat | p < PAGES
      ensures Translate(m', m.next, p) == if p < KERNEL_TABLES * ENTRIES then Translate(m, 0, p) else Absent
    {
      assert EntryOk(m, 0, p / ENTRIES);
    }
  }

  lemma ClonedKeepsInv(m: Memory)
    requires PagesInv(m) && !Full(m)
    ensures PagesInv(Cloned(m).m)
  {
    var m' := Cloned(m).m;
    assert forall e :: e in m.dirs ==> m'.frames[e] == m.frames[e];
    assert forall i :: 0 <= i < ENTRIES ==>
      m'.frames[m.next][i] == if i < KERNEL_TABLES then m.frames[0][i] else 0;
    forall e, i | e in m'.dirs && 0 <= i < ENTRIES
      ensures EntryOk(m', e, i)
    {
      assert e != m.next ==> EntryOk(m, e, i);
      assert EntryOk(m, 0, i);
    }
  }

  /** A fork clones the kernel's directory and maps the image of the child. The child gets every page of its image
      with the rights asked for exactly if none of them, below 12 MB, was mapped by the kernel in another way. */
  lemma ForkedImageIff(m: Memory, lo: nat, hi: nat, user: bool, writable: bool)
    requires PagesInv(m) && !Full(m) && lo <= hi <= PAGES
    requires PagesInv(Cloned(m).m) && m.next in Cloned(m).m.dirs
    requires Mapped(Cloned(m).m, m.next, lo, hi, user, writable).ok
    ensures var m' := Mapped(Cloned(m).m, m.next, lo, hi, user, writable).m;
      (forall p: nat :: lo <= p < hi ==>
        AsAsked(Translate(m', m.next, p), p, user, writable))
      <==> forall p: nat :: lo <= p < hi && p < KERNEL_TABLES * ENTRIES ==>
        Translate(m, 0, p) == Absent || AsAsked(Translate(m, 0, p), p, user, writable)
  {
    ClonedFacts(m);
    Shapes(m);
    var c := Cloned(m).m;
    var m' := Mapped(c, m.next, lo, hi, user, writable).m;
    hide PagesInv, Cloned, Mapped, Translate, AsAsked;
    forall p: nat | lo <= p < hi
      ensures AsAsked(Translate(m', m.next, p), p, user, writable)
        <==> p >= KERNEL_TABLES * ENTRIES || Translate(m, 0, p) == Absent
             || AsAsked(Translate(m, 0, p), p, user, writable)
    {
      MappedAsAskedIff(c, m.next, lo, hi, user, writable, p);
    }
  }

  /** Below 12 MB the kernel needs no new table to map a page. */
  lemma KernelPageMapped(m: Memory, p: nat)
    requires PagesInv(m) && p < KERNEL_TABLES * ENTRIES && Translate(m, 0, p) == Absent && !Full(m)
    ensures var k := Mapped(m, 0, p, p + 1, false, true);
      && k.ok && PagesInv(k.m) && !Full(k.m) && k.m.dirs == m.dirs && k.m.next == m.next
      && AsAsked(Translate(k.m, 0, p), p, false, true)
  {
    hide PagesInv, Translate, Mapped, AsAsked, Full;
    KernelTakesNoFrame(m, p);
    MappedAsAskedIff(m, 0, p, p + 1, false, true, p);
  }

  lemma KernelTakesNoFrame(m: Memory, p: nat)
    requires PagesInv(m) && p < KERNEL_TABLES * ENTRIES && !Full(m)
    ensures 0 in m.dirs
    ensures var k := Mapped(m, 0, p, p + 1, false, true);
      k.ok && PagesInv(k.m) && !Full(k.m) && k.m.dirs == m.dirs && k.m.next == m.next
  {
    hide Private, MemoriesOk;
    assert Mapped(m, 0, p, p, false, true) == Outcome(true, m);
    assert EntryOk(m, 0, p / ENTRIES) && Unshared(m, 0, p / ENTRIES) == Outcome(true, m);
    PageMappedInv(m, 0, p, false, true);
  }

  /** What the kernel has mapped below 12 MB, a clone has as the kernel does, whatever it asks for. */
  lemma ClonedPageStays(m: Memory, p: nat)
    requires PagesInv(m) && p < KERNEL_TABLES * ENTRIES && Translate(m, 0, p).To? && !Full(m)
    ensures var c := Cloned(m).m;
      && PagesInv(c) && m.next in c.dirs
      && PagesInv(Mapped(c, m.next, p, p + 1, true, true).m)
      && Translate(Mapped(c, m.next, p, p + 1, true, true).m, m.next, p) == Translate(m, 0, p)
  {
    ClonedFacts(m);
    Shapes(m);
    hide PagesInv, PageMapped, Translate, Full, Mapped, Cloned;
    TranslationsSurvive(Cloned(m).m, m.next, p, p + 1, true, true, m.next, p);
  }

  /** The case that fails. The kernel maps a page below 12 MB for itself, as fork does for the images of parent and
      child. A process cloned later, whose image is to lie there, cannot get at it. */
  lemma ReusedImageIsClosed(m: Memory, p: nat)
    requires PagesInv(m) && p < KERNEL_TABLES * ENTRIES && Translate(m, 0, p) == Absent && !Full(m)
    ensures var k := Mapped(m, 0, p, p + 1, false, true);
      && k.ok && PagesInv(k.m) && !Full(k.m)
      && PagesInv(Cloned(k.m).m) && k.m.next in Cloned(k.m).m.dirs
      && var c := Mapped(Cloned(k.m).m, k.m.next, p, p + 1, true, true);
      c.ok ==> AsAsked(Translate(c.m, k.m.next, p), p, false, true) && !OpenToUser(Translate(c.m, k.m.next, p))
  {
    KernelPageMapped(m, p);
    hide PagesInv, PageMapped, Translate, Full, Mapped, Cloned;
    ClonedPageStays(Mapped(m, 0, p, p + 1, false, true).m, p);
  }

  /** One page costs at most one frame. */
  lemma OnePageFits(m: Memory, d: nat, p: nat, user: bool, writable: bool)
    requires PagesInv(m) && d in m.dirs && p < PAGES && !Full(m)
    ensures Mapped(m, d, p, p + 1, user, writable).ok
  {
    assert Mapped(m, d, p, p, user, writable) == Outcome(true, m);
    hide PagesInv;
    Shapes(m);
  }

  lemma ClonedNext(m: Memory)
    requires PagesInv(m) && !Full(m)
    ensures Cloned(m).ok && Cloned(m).m.next == m.next + 1
  {
  }

  /** The same from any tables that leave two frames: no call is refused, and user code cannot use the page. */
  lemma ReusedImageFits(m: Memory, p: nat)
    requires PagesInv(m) && p < KERNEL_TABLES * ENTRIES && Translate(m, 0, p) == Absent && m.next + 1 < NR_FRAMES
    ensures var k := Mapped(m, 0, p, p + 1, false, true);
      && k.ok && PagesInv(k.m) && Cloned(k.m).ok && PagesInv(Cloned(k.m).m) && k.m.next in Cloned(k.m).m.dirs
      && var c := Mapped(Cloned(k.m).m, k.m.next, p, p + 1, true, true);
      && c.ok && AsAsked(Translate(c.m, k.m.next, p), p, false, true) && !OpenToUser(Translate(c.m, k.m.next, p))
  {
    hide PagesInv, PageMapped, Translate, Mapped, MemoryShape, Cloned, AsAsked, OpenToUser;
    KernelTakesNoFrame(m, p);
    ReusedImageIsClosed(m, p);
    var k := Mapped(m, 0, p, p + 1, false, true).m;
    Shapes(k);
    ClonedNext(k);
    OnePageFits(Cloned(k).m, k.next, p, true, true);
  }
}
