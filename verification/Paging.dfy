/** The memory manager's page tables, changed in place. */
module Paging {
  import opened Constants
  import opened PageSpec
  import opened PageInvariant
  import opened PageMap

  const PAGE_TABLE_BASE := 0x101000
  const PAGE_TABLE_AREA_END := PAGE_TABLE_BASE + ENTRIES * PAGE_SIZE
  const LOADER_PAGES := 2560   // the loader maps the first 10 MB

  function FirstPage(start: int): int {
    start / PAGE_SIZE
  }

  /** The page the loop stops before. The sum is a 32-bit one. */
  function LimitPage(start: int, bytes: int): int {
    (start + bytes + PAGE_SIZE - 1) % U32 / PAGE_SIZE
  }

  /** Where the loop ends up if the frames last. */
  function LastPage(start: Word, bytes: Word): int {
    if FirstPage(start) < LimitPage(start, bytes) then LimitPage(start, bytes) else FirstPage(start)
  }

  lemma RangeEnds(start: Word, bytes: Word)
    ensures var sum := (start + bytes + PAGE_SIZE - 1) % U32;
      && 0 <= FirstPage(start) <= LastPage(start, bytes) <= PAGES
      && start - start % PAGE_SIZE == FirstPage(start) * PAGE_SIZE
      && (sum - sum % PAGE_SIZE == LastPage(start, bytes) * PAGE_SIZE
          || (FirstPage(start) == LastPage(start, bytes) && sum - sum % PAGE_SIZE <= start - start % PAGE_SIZE))
  {
  }

  lemma MappedNone(m: Memory, d: nat, lo: nat, user: bool, writable: bool)
    requires PagesInv(m) && d in m.dirs && lo <= PAGES
    ensures Mapped(m, d, lo, lo, user, writable) == Outcome(true, m)
  {
  }

  lemma MappedMore(m: Memory, d: nat, lo: nat, page: nat, user: bool, writable: bool)
    requires PagesInv(m) && d in m.dirs && lo <= page < PAGES
    ensures var o := Mapped(m, d, lo, page, user, writable);
      o.ok ==> Mapped(m, d, lo, page + 1, user, writable) == PageMapped(o.m, d, page, user, writable)
  {
    hide PagesInv, PageMapped;
  }

  lemma {:induction false} MappedHalts(m: Memory, d: nat, lo: nat, page: nat, hi: nat, user: bool, writable: bool)
    requires PagesInv(m) && d in m.dirs && lo <= page <= hi <= PAGES && !Mapped(m, d, lo, page, user, writable).ok
    ensures Mapped(m, d, lo, hi, user, writable) == Mapped(m, d, lo, page, user, writable)
    decreases hi
  {
    hide PagesInv, PageMapped;
    if page < hi {
      MappedHalts(m, d, lo, page, hi - 1, user, writable);
    }
  }

  /** The pages walked are those of the range exactly if the range does not reach into the last page of the address
      space, where the sum wraps around. */
  lemma RangeCoveredIff(start: Word, bytes: Word)
    ensures (forall a :: start <= a < start + bytes && a < U32 ==>
               FirstPage(start) <= a / PAGE_SIZE < LimitPage(start, bytes))
      <==> bytes == 0 || start + bytes + PAGE_SIZE - 1 < U32
  {
    if start + bytes + PAGE_SIZE - 1 < U32 {
      forall a | start <= a < start + bytes
        ensures FirstPage(start) <= a / PAGE_SIZE < LimitPage(start, bytes)
      {
      }
    } else if bytes != 0 {
      var last := if start + bytes <= U32 then start + bytes - 1 else U32 - 1;
      assert start <= last < start + bytes && last / PAGE_SIZE == PAGES - 1;
      assert LimitPage(start, bytes) <= PAGES - 1;
    }
  }

  /** And no page is walked that has no byte of the range. */
  lemma RangeExact(start: Word, bytes: Word, p: int)
    requires start + bytes + PAGE_SIZE - 1 < U32 && FirstPage(start) <= p < LimitPage(start, bytes)
    ensures bytes != 0 ==> exists a :: start <= a < start + bytes && a / 4096 == p
    ensures bytes == 0 ==> start % 4096 != 0 && p == start / 4096
  {
    if bytes != 0 {
      var a := if start < p * PAGE_SIZE then p * PAGE_SIZE else start;
      assert a / 4096 == p && start <= a < start + bytes;
    }
  }

  function LoaderEntry(f: int, i: int): Word {
    if f == 0 && 0 <= i < KERNEL_TABLES then Entry(FIRST_FRAME + 1 + i, PG_P + PG_RWW + PG_USU)
    else if f != 0 && 0 <= (f - 1) * ENTRIES + i < LOADER_PAGES then
      Entry((f - 1) * ENTRIES + i, PG_P + PG_RWW + PG_USU)
    else 0
  }

  function LoaderRow(f: int): (row: seq<Word>)
    ensures |row| == ENTRIES
  {
    seq(ENTRIES, i => LoaderEntry(f, i))
  }

  /** The directory and the three tables that the loader leaves behind. */
  function LoaderMemory(): Memory {
    Memory(seq(NR_FRAMES, f => LoaderRow(f)), 1 + KERNEL_TABLES, {0})
  }

  lemma LoaderDirectory(i: nat)
    requires i < ENTRIES
    ensures var m := LoaderMemory();
      && MemoryShape(m) && EntryOk(m, 0, i) && (Present(m.frames[0][i]) <==> i < KERNEL_TABLES)
      && (i < KERNEL_TABLES ==>
            TableOf(m.frames[0][i]) == i + 1 && Attributes(m.frames[0][i]) == PG_P + PG_RWW + PG_USU)
  {
    if i < KERNEL_TABLES {
      EntryParts(FIRST_FRAME + 1 + i, PG_P + PG_RWW + PG_USU);
    }
  }

  lemma LoaderPage(p: nat)
    requires p < PAGES
    ensures var m := LoaderMemory();
      && MemoryShape(m)
      && if p < LOADER_PAGES then
           Translate(m, 0, p).To? && Translate(m, 0, p).entry == IdentityEntry(p, true, true)
         else Translate(m, 0, p) == Absent
  {
    hide EntryOk;
    LoaderDirectory(p / ENTRIES);
    if p < LOADER_PAGES {
      EntryParts(p, PG_P + PG_RWW + PG_USU);
    }
  }

  /** The loader maps the first 10 MB to themselves, for all and to be written. */
  lemma LoaderInv()
    ensures PagesInv(LoaderMemory()) && DirsOpen(LoaderMemory())
    ensures forall p: nat :: p < PAGES ==>
      if p < LOADER_PAGES then AsAsked(Translate(LoaderMemory(), 0, p), p, true, true)
      else Translate(LoaderMemory(), 0, p) == Absent
  {
    hide LoaderEntry, LoaderRow, Translate, AsAsked, Present, TableOf, Attributes;
    var m := LoaderMemory();
    OpenAttributes();
    forall i: nat | i < ENTRIES
      ensures MemoryShape(m) && EntryOk(m, 0, i) && (Present(m.frames[0][i]) <==> i < KERNEL_TABLES)
      ensures i < KERNEL_TABLES ==>
        TableOf(m.frames[0][i]) == i + 1 && Attributes(m.frames[0][i]) == PG_P + PG_RWW + PG_USU
    {
      LoaderDirectory(i);
    }
    forall p: nat | p < PAGES
      ensures if p < LOADER_PAGES then AsAsked(Translate(m, 0, p), p, true, true) else Translate(m, 0, p) == Absent
    {
      LoaderPage(p);
      if p < LOADER_PAGES {
        IdentityIsAsAsked(Translate(m, 0, p), p, true, true);
      }
    }
  }

  /** The case that fails, from the tables the loader leaves: a page between 10 MB and 12 MB that the kernel maps first
      stays closed to a process that maps it for itself, and no call is refused. */
  lemma ReusedImageAtBoot(p: nat)
    requires LOADER_PAGES <= p < KERNEL_TABLES * ENTRIES
    ensures var m := LoaderMemory();
      && PagesInv(m) && Mapped(m, 0, p, p + 1, false, true).ok
      && var k := Mapped(m, 0, p, p + 1, false, true).m;
      && PagesInv(k) && Cloned(k).ok && PagesInv(Cloned(k).m) && k.next in Cloned(k).m.dirs
      && var c := Mapped(Cloned(k).m, k.next, p, p + 1, true, true);
      && c.ok && AsAsked(Translate(c.m, k.next, p), p, false, true) && !OpenToUser(Translate(c.m, k.next, p))
  {
    hide LoaderMemory, PagesInv, PageMapped, Translate, Mapped, MemoryShape, Cloned, AsAsked, OpenToUser;
    var m := LoaderMemory();
    LoaderInv();
    LoaderNext();
    ReusedImageFits(m, p);
  }

  lemma LoaderNext()
    ensures LoaderMemory().next == 1 + KERNEL_TABLES
  {
  }

  predicate UserBit(flags: nat) {
    flags / PG_USU % 2 == 1
  }

  predicate WriteBit(flags: nat) {
    flags / PG_RWW % 2 == 1
  }

  /** Each page from lo to hi that was absent is mapped to itself, with the rights asked for. */
  ghost predicate AbsentAsAsked(m: Memory, m': Memory, d: nat, lo: int, hi: int, user: bool, writable: bool) {
    && MemoryShape(m) && MemoryShape(m') && d < NR_FRAMES
    && forall p: nat :: lo <= p < hi && p < PAGES && Translate(m, d, p) == Absent ==>
      AsAsked(Translate(m', d, p), p, user, writable)
  }

  class PageTables {
    const frames: array<seq<Word>>
    var nextFreeTable: nat
    ghost var dirs: set<nat>

    ghost function Value(): Memory
      requires nextFreeTable >= PAGE_DIR_BASE
      reads this, frames
    {
      Memory(frames[..], nextFreeTable / PAGE_SIZE - FIRST_FRAME, dirs)
    }

    ghost predicate Valid()
      reads this, frames
    {
      nextFreeTable >= PAGE_DIR_BASE && nextFreeTable % PAGE_SIZE == 0 && PagesInv(Value())
    }

    constructor ()
      ensures Valid() && fresh(frames) && Value() == LoaderMemory()
    {
      frames := new seq<Word>[NR_FRAMES](f => LoaderRow(f));
      nextFreeTable := PAGE_TABLE_BASE + 3 * PAGE_SIZE;
      dirs := {0};
      new;
      assert frames[..] == LoaderMemory().frames;
      LoaderInv();
    }

    /** The next frame of the table area. The system halts if there is none left. */
    method AllocTableFrame() returns (ok: bool, p: nat)
      requires nextFreeTable >= PAGE_DIR_BASE && nextFreeTable % PAGE_SIZE == 0
      modifies this`nextFreeTable
      ensures ok <==> old(nextFreeTable) / PAGE_SIZE - FIRST_FRAME < NR_FRAMES
      ensures ok ==> p == old(nextFreeTable) && nextFreeTable == p + PAGE_SIZE
      ensures !ok ==> nextFreeTable == old(nextFreeTable)
    {
      if nextFreeTable + PAGE_SIZE > PAGE_TABLE_AREA_END {
        return false, 0;
      }
      p := nextFreeTable;
      nextFreeTable := nextFreeTable + PAGE_SIZE;
      ok := true;
    }

    /** A new directory for a process, with the kernel's first entries. */
    method CloneKernelPde() returns (ok: bool, newPd: nat)
      requires Valid()
      modifies this, frames
      ensures Valid() && Outcome(ok, Value()) == Cloned(old(Value()))
      ensures ok ==> newPd == old(nextFreeTable) && newPd / PAGE_SIZE - FIRST_FRAME in dirs
    {
      ghost var m := Value();
      ok, newPd := AllocTableFrame();
      if !ok {
        return;
      }
      ClonedFacts(m);
      var f := newPd / PAGE_SIZE - FIRST_FRAME;
      frames[f] := Zeros();
      CopyKernelEntries(f);
      dirs := dirs + {f};
      assert Value() == Cloned(m).m;
    }

    method CopyKernelEntries(f: nat)
      requires 0 < f < frames.Length && |frames[0]| == ENTRIES && frames[f] == Zeros()
      modifies frames
      ensures frames[..] == old(frames[..])[f := old(frames[0])[..KERNEL_TABLES] + Zeros()[KERNEL_TABLES..]]
    {
      var i := 0;
      while i < 3
        invariant 0 <= i <= 3 && |frames[f]| == ENTRIES
        invariant forall j :: 0 <= j < ENTRIES ==> frames[f][j] == if j < i then old(frames[0])[j] else 0
        invariant forall g :: 0 <= g < frames.Length && g != f ==> frames[g] == old(frames[g])
      {
        var row: seq<Word> := frames[f];
        frames[f] := row[i := frames[0][i]];
        i := i + 1;
      }
      assert frames[f] == old(frames[0])[..KERNEL_TABLES] + Zeros()[KERNEL_TABLES..];
    }

    /** Give entry i of directory d a table, or a table of its own. */
    method EnsureTable(d: nat, i: nat) returns (ok: bool)
      requires Valid() && d in dirs && i < ENTRIES
      modifies this`nextFreeTable, frames
      ensures nextFreeTable >= PAGE_DIR_BASE && nextFreeTable % PAGE_SIZE == 0
      ensures Outcome(ok, Value()) == Unshared(old(Value()), d, i)
    {
      ghost var m := Value();
      var pt;
      ok := true;
      var e := frames[d][i];
      if !Present(e) {
        ok, pt := AllocTableFrame();
        if ok {
          frames[pt / PAGE_SIZE - FIRST_FRAME] := Zeros();
          var row: seq<Word> := frames[d];
          frames[d] := row[i := pt + PG_P + PG_RWW + PG_USU];
        }
      } else if d != 0 && e >= PAGE_TABLE_BASE && e < PAGE_TABLE_AREA_END && e < PAGE_TABLE_BASE + 3 * PAGE_SIZE {
        var old_ := e / PAGE_SIZE - FIRST_FRAME;
        ok, pt := AllocTableFrame();
        if ok {
          frames[pt / PAGE_SIZE - FIRST_FRAME] := frames[old_];
          var row: seq<Word> := frames[d];
          frames[d] := row[i := pt + e % PAGE_SIZE];
        }
      }
    }

    method EnterPage(d: nat, la: Word, flags: nat)
      requires nextFreeTable >= PAGE_DIR_BASE && MemoryShape(Value()) && d < NR_FRAMES && la % PAGE_SIZE == 0
      requires 0 <= TableOf(frames[d][la / PAGE_SIZE / ENTRIES]) < NR_FRAMES
      modifies frames
      ensures Value() == EntrySet(old(Value()), TableOf(old(frames[d][la / PAGE_SIZE / ENTRIES])), la / PAGE_SIZE,
                                  UserBit(flags), WriteBit(flags))
    {
      var t := frames[d][la / PAGE_SIZE / ENTRIES] / PAGE_SIZE - FIRST_FRAME;
      var k := la / PAGE_SIZE % ENTRIES;
      if !Present(frames[t][k]) {
        var row: seq<Word> := frames[t];
        frames[t] := row[k := la + PG_P + flags / PG_RWW % 2 * PG_RWW + flags / PG_USU % 2 * PG_USU];
      }
    }

    method MapPage(d: nat, la: Word, flags: nat) returns (ok: bool)
      requires Valid() && d in dirs && la % PAGE_SIZE == 0
      modifies this`nextFreeTable, frames
      ensures Valid()
      ensures Outcome(ok, Value()) == PageMapped(old(Value()), d, la / PAGE_SIZE,
                                                 UserBit(flags), WriteBit(flags))
    {
      ghost var m := Value();
      UnsharedFacts(m, d, la / PAGE_SIZE / ENTRIES);
      PageMappedInv(m, d, la / PAGE_SIZE, UserBit(flags), WriteBit(flags));
      ok := EnsureTable(d, la / PAGE_SIZE / ENTRIES);
      hide Unshared, EntrySet, PagesInv;
      if ok {
        EnterPage(d, la, flags);
      }
    }

    method MapPages(d: nat, first: Word, end: Word, flags: nat, ghost lo: nat, ghost hi: nat) returns (ok: bool)
      requires Valid() && d in dirs && lo <= hi <= PAGES && first == lo * PAGE_SIZE
      requires end == hi * PAGE_SIZE || (hi == lo && end <= first)
      modifies this`nextFreeTable, frames
      ensures Valid()
      ensures Outcome(ok, Value()) == Mapped(old(Value()), d, lo, hi,
                                             UserBit(flags), WriteBit(flags))
    {
      hide PagesInv, PageMapped, Mapped, UserBit, WriteBit;
      ghost var m := Value();
      ghost var user, writable := UserBit(flags), WriteBit(flags);
      ok := true;
      var la := first;
      ghost var page := lo;
      MappedNone(m, d, lo, user, writable);
      while la < end
        invariant Valid() && d in dirs && ok && la == page * PAGE_SIZE && lo <= page <= hi
        invariant Outcome(true, Value()) == Mapped(m, d, lo, page, user, writable)
      {
        assert la / PAGE_SIZE == page;
        MappedMore(m, d, lo, page, user, writable);
        ok := MapPage(d, la, flags);
        if !ok {
          MappedHalts(m, d, lo, page + 1, hi, user, writable);
          return;
        }
        la, page := la + PAGE_SIZE, page + 1;
      }
    }

    /** Map the range to itself in the directory at cr3. ok is false if the system halts for lack of a frame. */
    method MapRangeIdentity(cr3: nat, start: Word, bytes: Word, flags: nat) returns (ok: bool)
      requires Valid() && cr3 >= PAGE_DIR_BASE && cr3 / PAGE_SIZE - FIRST_FRAME in dirs
      modifies this`nextFreeTable, frames
      ensures Valid()
      ensures Outcome(ok, Value()) == Mapped(old(Value()), cr3 / PAGE_SIZE - FIRST_FRAME,
                                             FirstPage(start), LastPage(start, bytes),
                                             UserBit(flags), WriteBit(flags))
      ensures ok ==> AbsentAsAsked(old(Value()), Value(), cr3 / PAGE_SIZE - FIRST_FRAME, FirstPage(start),
                                   LastPage(start, bytes), flags / 4 % 2 == 1, flags / 2 % 2 == 1)
    {
      ghost var m, d := Value(), cr3 / PAGE_SIZE - FIRST_FRAME;
      var la := start - start % PAGE_SIZE;
      var sum := (start + bytes + PAGE_SIZE - 1) % U32;
      var end := sum - sum % PAGE_SIZE;
      RangeEnds(start, bytes);
      Shapes(m);
      hide PagesInv, FirstPage, LastPage, Mapped, Translate, AsAsked;
      ok := MapPages(cr3 / PAGE_SIZE - FIRST_FRAME, la, end, flags, FirstPage(start), LastPage(start, bytes));
      Shapes(Value());
      forall p: nat | ok && FirstPage(start) <= p < LastPage(start, bytes) && Translate(m, d, p) == Absent
        ensures AsAsked(Translate(Value(), d, p), p, UserBit(flags), WriteBit(flags))
      {
        MappedAsAskedIff(m, d, FirstPage(start), LastPage(start, bytes), UserBit(flags), WriteBit(flags), p);
      }
    }
  }
}
