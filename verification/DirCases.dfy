/** A few calls after start-up that make the directory lose a file nobody has unlinked. */
module DirCases {
  import opened Constants
  import opened DirSpec
  import opened DirOps

  const START_SLOTS := 5

  /** The names mkfs writes, and one letter for each file made later. */
  function NameOf(i: nat): (name: string)
    requires i < PER_SECT
    ensures 0 < |name| < MAX_FILENAME_LEN && IsName(name)
  {
    if i == 0 then "."
    else if i <= 3 then "dev_tty" + [('0' as int + i - 1) as char]
    else if i == 4 then "cmd.tar"
    else [('A' as int + i) as char]
  }

  lemma NamesDiffer(i: nat, j: nat)
    requires i < PER_SECT && j < PER_SECT && i != j
    ensures Key(NameOf(i)) != Key(NameOf(j))
  {
    var a, b := NameOf(i), NameOf(j);
    assert Key(a)[0] == a[0] && Key(b)[0] == b[0];
    assert |a| > 1 && |b| > 1 ==> Key(a)[1] == a[1] && Key(b)[1] == b[1];
    assert |a| > 7 && |b| > 7 ==> Key(a)[7] == a[7] && Key(b)[7] == b[7];
  }

  function RowOf(used: set<nat>, k: nat): (row: seq<Entry>)
    ensures |row| == PER_SECT
  {
    seq(PER_SECT, i requires 0 <= i < PER_SECT =>
      if k == 0 && i in used then Entry(i + 1, Key(NameOf(i))) else Unused())
  }

  /** The root directory with n slots, and entries in used. Entry i is for inode i + 1. */
  function DirOf(used: set<nat>, n: nat): Dir {
    Dir(seq(NR_DEFAULT_FILE_SECTS, k requires 0 <= k < NR_DEFAULT_FILE_SECTS => RowOf(used, k)), n * DIR_ENTRY_SIZE)
  }

  function StartDir(): Dir {
    DirOf({0, 1, 2, 3, 4}, START_SLOTS)
  }

  const CAPACITY := NR_DEFAULT_FILE_SECTS * PER_SECT

  lemma ShapeOf(used: set<nat>, n: nat, e: nat)
    requires n <= PER_SECT && e < CAPACITY
    ensures DirShape(DirOf(used, n)) && Slots(DirOf(used, n)) == n && Capacity(DirOf(used, n)) == CAPACITY
    ensures EntryAt(DirOf(used, n), e) == if e < PER_SECT && e in used then Entry(e + 1, Key(NameOf(e))) else Unused()
  {
    hide NameOf, Key, Unused;
  }

  lemma DirOfInv(used: set<nat>, n: nat)
    requires n <= PER_SECT && forall i :: i in used ==> i < n
    ensures DirInv(DirOf(used, n)) && Slots(DirOf(used, n)) == n && Capacity(DirOf(used, n)) == CAPACITY
  {
    hide DirOf, NameOf, Key, EntryAt, Slots, Capacity, DirShape;
    var d := DirOf(used, n);
    ShapeOf(used, n, 0);
    forall e: nat | e < CAPACITY
      ensures EntryOk(d, e)
    {
      ShapeOf(used, n, e);
      if e < PER_SECT { KeyOf(e); }
    }
    forall e: nat, f: nat | e < CAPACITY && f < CAPACITY
      ensures Apart(d, e, f)
    {
      ShapeOf(used, n, e);
      ShapeOf(used, n, f);
      if e != f && e < PER_SECT && f < PER_SECT { NamesDiffer(e, f); }
    }
  }

  lemma KeyOf(e: nat)
    requires e < PER_SECT
    ensures |Key(NameOf(e))| == MAX_FILENAME_LEN && Key(NameOf(e))[0] != NUL
  {
    hide NameOf;
    assert NameOf(e)[0] in NameOf(e);
  }

  lemma SameRow(used: set<nat>, used': set<nat>, n: nat, n': nat, e: nat, x: Entry)
    requires n <= PER_SECT && n' <= PER_SECT && e < PER_SECT
    requires if x == Unused() then used' == used - {e} else used' == used + {e} && x == Entry(e + 1, Key(NameOf(e)))
    ensures DirOf(used, n).sects[0] == RowOf(used, 0)
    ensures DirOf(used, n).sects[0 := RowOf(used, 0)[e := x]] == DirOf(used', n').sects
  {
    hide NameOf, Key, Unused;
    assert RowOf(used, 0)[e := x] == RowOf(used', 0);
    forall k | 1 <= k < NR_DEFAULT_FILE_SECTS
      ensures RowOf(used', k) == RowOf(used, k)
    {
    }
  }

  lemma CopiedIsKey(name: string)
    requires |name| <= MAX_FILENAME_LEN
    ensures Copied(name, Zeros(MAX_FILENAME_LEN)) == Key(name)
  {
  }

  lemma FreeAt(used: set<nat>, n: nat, e: nat)
    requires n <= PER_SECT && e <= n && e < PER_SECT && e !in used
    requires forall i :: 0 <= i < e ==> i in used
    ensures DirShape(DirOf(used, n)) && FirstFree(DirOf(used, n), 0) == e
  {
    hide DirOf, NameOf, Key, EntryAt, Slots, Capacity, DirShape;
    var d := DirOf(used, n);
    ShapeOf(used, n, e);
    var r := FirstFree(d, 0);
    if r < e {
      ShapeOf(used, n, r);
    }
  }

  /** One call of open that makes the file of entry e, and one of unlink. */
  ghost predicate Creates(d: Dir, e: nat, d': Dir)
    requires e < PER_SECT
  {
    && DirInv(d) && FirstFree(d, 0) == e < Capacity(d) && |EntryAt(d, e).name| == MAX_FILENAME_LEN
    && Added(d, e + 1, NameOf(e)) == d'
  }

  ghost predicate Unlinks(d: Dir, e: nat, d': Dir) {
    DirInv(d) && e < Slots(d) && EntryAt(d, e).inodeNr != 0 && Removed(d, e) == d'
  }

  lemma CreateStep(used: set<nat>, n: nat, e: nat)
    requires n <= PER_SECT && (forall i :: i in used ==> i < n) && e <= n && e < PER_SECT && e !in used
    requires forall i :: 0 <= i < e ==> i in used
    ensures Creates(DirOf(used, n), e, DirOf(used + {e}, if e == n then n + 1 else n))
  {
    hide NameOf, NextIntact, DirInv, EntryOk, Apart;
    var d, n' := DirOf(used, n), if e == n then n + 1 else n;
    DirOfInv(used, n);
    FreeAt(used, n, e);
    ShapeOf(used, n, e);
    CopiedIsKey(NameOf(e));
    SameRow(used, used + {e}, n, n', e, Entry(e + 1, Key(NameOf(e))));
    assert e / PER_SECT == 0 && e % PER_SECT == e;
  }

  /** A file that is not the last is unlinked. */
  lemma UnlinkStep(used: set<nat>, n: nat, e: nat)
    requires n <= PER_SECT && (forall i :: i in used ==> i < n) && e in used && e + 1 < n
    ensures Unlinks(DirOf(used, n), e, DirOf(used - {e}, n))
  {
    hide NameOf, Key, UsedBefore, DirInv;
    DirOfInv(used, n);
    ShapeOf(used, n, e);
    SameRow(used, used - {e}, n, n, e, Unused());
    assert e / PER_SECT == 0 && e % PER_SECT == e;
  }

  // ---------- a directory cut off ----------

  function CutDir(): Dir {
    DirOf({0, 1, 2, 3, 4, 7, 8}, 9)
  }

  /** After start-up four files are created; then the first two are unlinked, which leaves two holes. */
  lemma TwoHoles()
    ensures var d1, d2, d3, d4, d5 :=
        DirOf({0, 1, 2, 3, 4, 5}, 6), DirOf({0, 1, 2, 3, 4, 5, 6}, 7), DirOf({0, 1, 2, 3, 4, 5, 6, 7}, 8),
        DirOf({0, 1, 2, 3, 4, 5, 6, 7, 8}, 9), DirOf({0, 1, 2, 3, 4, 6, 7, 8}, 9);
      && Creates(StartDir(), 5, d1) && Creates(d1, 6, d2) && Creates(d2, 7, d3) && Creates(d3, 8, d4)
      && Unlinks(d4, 5, d5) && Unlinks(d5, 6, CutDir())
  {
    hide DirOf, NameOf, Creates, Unlinks;
    CreateStep({0, 1, 2, 3, 4}, 5, 5);
    assert {0, 1, 2, 3, 4} + {5} == {0, 1, 2, 3, 4, 5};
    CreateStep({0, 1, 2, 3, 4, 5}, 6, 6);
    assert {0, 1, 2, 3, 4, 5} + {6} == {0, 1, 2, 3, 4, 5, 6};
    CreateStep({0, 1, 2, 3, 4, 5, 6}, 7, 7);
    assert {0, 1, 2, 3, 4, 5, 6} + {7} == {0, 1, 2, 3, 4, 5, 6, 7};
    CreateStep({0, 1, 2, 3, 4, 5, 6, 7}, 8, 8);
    assert {0, 1, 2, 3, 4, 5, 6, 7} + {8} == {0, 1, 2, 3, 4, 5, 6, 7, 8};
    UnlinkStep({0, 1, 2, 3, 4, 5, 6, 7, 8}, 9, 5);
    assert {0, 1, 2, 3, 4, 5, 6, 7, 8} - {5} == {0, 1, 2, 3, 4, 6, 7, 8};
    UnlinkStep({0, 1, 2, 3, 4, 6, 7, 8}, 9, 6);
    assert {0, 1, 2, 3, 4, 6, 7, 8} - {6} == {0, 1, 2, 3, 4, 7, 8};
  }

  lemma UsedInCutDir()
    ensures DirInv(CutDir()) && Slots(CutDir()) == 9 && Capacity(CutDir()) == CAPACITY
    ensures UsedBefore(CutDir(), 8) == 6
  {
    hide DirOf, NameOf, Key, Unused, EntryAt, DirInv, Slots, Capacity;
    var used, d := {0, 1, 2, 3, 4, 7, 8}, CutDir();
    DirOfInv(used, 9);
    forall e: nat | e < CAPACITY
      ensures DirShape(d) && Capacity(d) == CAPACITY && (EntryAt(d, e).inodeNr != 0 <==> e < PER_SECT && e in used)
    {
      ShapeOf(used, 9, e);
      Unused0();
    }
    assert UsedBefore(d, 0) == 0;
    assert UsedBefore(d, 2) == 2;
    assert UsedBefore(d, 4) == 4;
    assert UsedBefore(d, 6) == 5;
    assert UsedBefore(d, 8) == 6;
  }

  lemma Unused0()
    ensures Unused().inodeNr == 0
  {
  }

  /** When the last of them is unlinked as well, the size has room for six entries, and the file that stands in the
      eighth is no longer found. */
  lemma FileIsLost()
    ensures var d, name := CutDir(), NameOf(7);
      && Unlinks(d, 8, Removed(d, 8)) && Lookup(d, Key(name)) == 8
      && DirShape(Removed(d, 8)) && SearchLimit(Removed(d, 8)) <= Capacity(Removed(d, 8))
      && Found(Removed(d, 8), Key(name)) == 0 && !DirInv(Removed(d, 8))
  {
    hide DirOf, NameOf, Key, Unused, DirInv;
    var used, d := {0, 1, 2, 3, 4, 7, 8}, CutDir();
    UsedInCutDir();
    ShapeOf(used, 9, 5);
    ShapeOf(used, 9, 7);
    ShapeOf(used, 9, 8);
    Unused0();
    LookupIs(d, Key(NameOf(7)), 7);
    LostName(d, 8, 7);
    RemovedKeepsInvIff(d, 8);
    assert !Packed(d, 8);
  }

  lemma LostName(d: Dir, e: nat, f: nat)
    requires DirInv(d) && e + 1 == Slots(d) && EntryAt(d, e).inodeNr != 0 && f < e && EntryAt(d, f).inodeNr != 0
    requires UsedBefore(d, e) + 1 <= f
    ensures DirShape(Removed(d, e)) && SearchLimit(Removed(d, e)) <= Capacity(Removed(d, e))
    ensures Found(Removed(d, e), EntryAt(d, f).name) == 0
  {
    hide EntryAt, Capacity;
    var d', key := Removed(d, e), EntryAt(d, f).name;
    StillFoundIff(d, e, f);
    var r := FirstMatch(d', key, 0, SearchLimit(d'));
    if r < SearchLimit(d') {
      RemovedEntries(d, e, r);
      assert EntryOk(d, r) && EntryOk(d, f) && Apart(d, r, f);
    }
  }

  // ---------- a name of twelve characters ----------

  const LONG_NAME := "read_me_1st_"

  /** After start-up two files are created and the first is unlinked. A file with a name of twelve characters takes its
      place and its inode, and the second file is gone. */
  lemma LongNameHits()
    ensures var d1, d2, d3 :=
        DirOf({0, 1, 2, 3, 4, 5}, 6), DirOf({0, 1, 2, 3, 4, 5, 6}, 7), DirOf({0, 1, 2, 3, 4, 6}, 7);
      && Creates(StartDir(), 5, d1) && Creates(d1, 6, d2) && Unlinks(d2, 5, d3)
      && DirInv(d3) && IsNew(d3, 6, LONG_NAME) && FirstFree(d3, 0) == 5 < Capacity(d3)
      && |EntryAt(d3, 5).name| == MAX_FILENAME_LEN && Lookup(d3, Key(NameOf(6))) == 7
      && DirShape(Added(d3, 6, LONG_NAME)) && Lookup(Added(d3, 6, LONG_NAME), Key(NameOf(6))) == 0
  {
    hide DirOf, NameOf, Creates, Unlinks, DirInv, Unused, Key, EntryAt, Slots, DirShape, Added, IsNew, IsName;
    CreateStep({0, 1, 2, 3, 4}, 5, 5);
    assert {0, 1, 2, 3, 4} + {5} == {0, 1, 2, 3, 4, 5};
    CreateStep({0, 1, 2, 3, 4, 5}, 6, 6);
    assert {0, 1, 2, 3, 4, 5} + {6} == {0, 1, 2, 3, 4, 5, 6};
    UnlinkStep({0, 1, 2, 3, 4, 5, 6}, 7, 5);
    assert {0, 1, 2, 3, 4, 5, 6} - {5} == {0, 1, 2, 3, 4, 6};
    LongIsNew();
    var used, d := {0, 1, 2, 3, 4, 6}, DirOf({0, 1, 2, 3, 4, 6}, 7);
    FreeAt(used, 7, 5);
    ShapeOf(used, 7, 5);
    ShapeOf(used, 7, 6);
    NextIsHit(d, 6, LONG_NAME);
  }

  lemma LongIsNew()
    ensures var d := DirOf({0, 1, 2, 3, 4, 6}, 7); DirInv(d) && IsNew(d, 6, LONG_NAME)
  {
    hide DirOf, NameOf, DirInv, Key, EntryAt, Capacity;
    var used, d := {0, 1, 2, 3, 4, 6}, DirOf({0, 1, 2, 3, 4, 6}, 7);
    DirOfInv(used, 7);
    ShapeOf(used, 7, 0);
    forall e: nat | e < Capacity(d)
      ensures EntryAt(d, e).inodeNr != 6 && !IsFor(d, e, Key(LONG_NAME))
    {
      ShapeOf(used, 7, e);
      Unused0();
      if e < PER_SECT { ShortDiffers(NameOf(e), LONG_NAME); }
    }
  }

  lemma ShortDiffers(a: string, b: string)
    requires |a| < MAX_FILENAME_LEN == |b| && NUL !in b
    ensures Key(a) != Key(b)
  {
    assert Key(a)[|a|] == NUL && Key(b)[|a|] == b[|a|];
  }
}
