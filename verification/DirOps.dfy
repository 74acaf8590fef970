/** Adding and removing directory entries, and what that does to the map of names. */
module DirOps {
  import opened Constants
  import opened DirSpec

  /** Two directories that differ in entry e only: what that means for the names. */
  lemma LookupAfter(d: Dir, d': Dir, e: nat, key: string)
    requires DirInv(d) && DirInv(d') && Capacity(d') == Capacity(d) && e < Capacity(d)
    requires forall f: nat :: f < Capacity(d) && f != e ==> EntryAt(d', f) == EntryAt(d, f)
    ensures Lookup(d', key) ==
      if IsFor(d', e, key) then EntryAt(d', e).inodeNr
      else if IsFor(d, e, key) then 0
      else Lookup(d, key)
  {
    if IsFor(d', e, key) {
      LookupIs(d', key, e);
    } else if f: nat :| f < Capacity(d) && f != e && IsFor(d, f, key) {
      LookupIs(d, key, f);
      LookupIs(d', key, f);
      assert Apart(d, e, f);
    } else {
      assert forall f: nat :: f < Capacity(d) ==> IsFor(d', f, key) ==> IsFor(d, f, key);
    }
  }

  // ---------- new_dir_entry ----------

  /** The first unused slot, or the one behind the end. */
  function FirstFree(d: Dir, e: nat): (r: nat)
    requires DirShape(d) && e <= Slots(d)
    ensures e <= r <= Slots(d) && (r < Slots(d) ==> EntryAt(d, r).inodeNr == 0)
    ensures forall f: nat :: e <= f < r ==> EntryAt(d, f).inodeNr != 0
    decreases Slots(d) - e
  {
    if e == Slots(d) || EntryAt(d, e).inodeNr == 0 then e else FirstFree(d, e + 1)
  }

  /** A string copied over a name field, with its terminating zero. */
  function Copied(name: string, field: string): (s: string)
    requires |name| <= |field| == MAX_FILENAME_LEN
    ensures |s| == MAX_FILENAME_LEN
  {
    if |name| < MAX_FILENAME_LEN then name + [NUL] + field[|name| + 1..] else name
  }

  /** A sector after an entry has been written at j. The terminating zero of a name of twelve characters goes to the
      lowest byte of the next entry's inode number. */
  function RowWith(row: seq<Entry>, j: nat, nr: nat, name: string): (r: seq<Entry>)
    requires |row| == PER_SECT && j < PER_SECT && |name| <= MAX_FILENAME_LEN == |row[j].name|
    ensures |r| == PER_SECT
  {
    var r := row[j := Entry(nr, Copied(name, row[j].name))];
    if |name| == MAX_FILENAME_LEN && j + 1 < PER_SECT
    then r[j + 1 := r[j + 1].(inodeNr := r[j + 1].inodeNr / 256 * 256)] else r
  }

  function Added(d: Dir, nr: nat, name: string): Dir
    requires DirShape(d) && FirstFree(d, 0) < Capacity(d) && |name| <= MAX_FILENAME_LEN
    requires |EntryAt(d, FirstFree(d, 0)).name| == MAX_FILENAME_LEN
  {
    var e := FirstFree(d, 0);
    Dir(d.sects[e / PER_SECT := RowWith(d.sects[e / PER_SECT], e % PER_SECT, nr, name)],
        if e == Slots(d) then d.size + DIR_ENTRY_SIZE else d.size)
  }

  ghost predicate IsNew(d: Dir, nr: nat, name: string)
    requires DirShape(d)
  {
    && IsName(name) && nr != 0 && Lookup(d, Key(name)) == 0
    && forall e: nat :: e < Capacity(d) ==> EntryAt(d, e).inodeNr != nr
  }

  lemma AddedEntries(d: Dir, nr: nat, name: string, f: nat)
    requires DirInv(d) && IsName(name) && FirstFree(d, 0) < Capacity(d) && f < Capacity(d)
    requires |EntryAt(d, FirstFree(d, 0)).name| == MAX_FILENAME_LEN
    ensures var e := FirstFree(d, 0);
      var d' := Added(d, nr, name);
      && DirShape(d') && Capacity(d') == Capacity(d)
      && EntryAt(d', f) ==
         if f == e then Entry(nr, Key(name))
         else if f == e + 1 && f % PER_SECT != 0 && |name| == MAX_FILENAME_LEN then
           EntryAt(d, f).(inodeNr := EntryAt(d, f).inodeNr / 256 * 256)
         else EntryAt(d, f)
  {
    var e := FirstFree(d, 0);
    assert EntryOk(d, e);
    assert EntryAt(d, e) == Unused();
    assert Copied(name, Zeros(MAX_FILENAME_LEN)) == Key(name);
    assert e == e / PER_SECT * PER_SECT + e % PER_SECT && f == f / PER_SECT * PER_SECT + f % PER_SECT;
  }

  /** Writing the name leaves the entry behind e alone: the name has at most eleven characters, or that entry starts a
      sector, or the byte that is zeroed in it is zero. */
  predicate NextIntact(d: Dir, e: nat, name: string)
    requires DirShape(d) && e < Capacity(d)
  {
    |name| < MAX_FILENAME_LEN || (e + 1) % PER_SECT == 0 || EntryAt(d, e + 1).inodeNr % 256 == 0
  }

  /** A new name stands for its inode, whether it fills a hole or extends the directory, and every other name for what
      it did, when the entry behind it is intact. */
  lemma AddedIsInserted(d: Dir, nr: nat, name: string, key: string)
    requires DirInv(d) && IsNew(d, nr, name) && FirstFree(d, 0) < Capacity(d) && NextIntact(d, FirstFree(d, 0), name)
    ensures |EntryAt(d, FirstFree(d, 0)).name| == MAX_FILENAME_LEN
    ensures DirInv(Added(d, nr, name))
    ensures Lookup(Added(d, nr, name), key) == if key == Key(name) then nr else Lookup(d, key)
  {
    var e := FirstFree(d, 0);
    assert EntryOk(d, e);
    var d' := Added(d, nr, name);
    AddedKeepsInv(d, nr, name);
    forall f: nat | f < Capacity(d)
      ensures EntryAt(d', f) == if f == e then Entry(nr, Key(name)) else EntryAt(d, f)
    {
      IntactEntries(d, nr, name, f);
    }
    LookupAfter(d, d', e, key);
  }

  lemma IntactEntries(d: Dir, nr: nat, name: string, f: nat)
    requires DirInv(d) && IsName(name) && FirstFree(d, 0) < Capacity(d) && NextIntact(d, FirstFree(d, 0), name)
    requires f < Capacity(d)
    ensures |EntryAt(d, FirstFree(d, 0)).name| == MAX_FILENAME_LEN
    ensures var d' := Added(d, nr, name);
      && DirShape(d') && Capacity(d') == Capacity(d)
      && EntryAt(d', f) == if f == FirstFree(d, 0) then Entry(nr, Key(name)) else EntryAt(d, f)
  {
    assert EntryOk(d, FirstFree(d, 0));
    AddedEntries(d, nr, name, f);
  }

  lemma AddedKeepsInv(d: Dir, nr: nat, name: string)
    requires DirInv(d) && IsNew(d, nr, name) && FirstFree(d, 0) < Capacity(d) && NextIntact(d, FirstFree(d, 0), name)
    ensures |EntryAt(d, FirstFree(d, 0)).name| == MAX_FILENAME_LEN && DirInv(Added(d, nr, name))
  {
    var e := FirstFree(d, 0);
    assert EntryOk(d, e);
    var d' := Added(d, nr, name);
    IntactEntries(d, nr, name, e);
    assert Key(name)[0] == name[0] && name[0] in name;
    forall f: nat | f < Capacity(d)
      ensures EntryOk(d', f)
    {
      IntactEntries(d, nr, name, f);
      assert EntryOk(d, f);
    }
    forall f: nat, g: nat | f < Capacity(d) && g < Capacity(d)
      ensures Apart(d', f, g)
    {
      IntactEntries(d, nr, name, f);
      IntactEntries(d, nr, name, g);
      assert Apart(d, f, g);
      NotThere(d, Key(name), f);
      NotThere(d, Key(name), g);
    }
  }

  lemma NotThere(d: Dir, key: string, e: nat)
    requires DirInv(d) && Lookup(d, key) == 0 && e < Capacity(d)
    ensures !IsFor(d, e, key)
  {
    if IsFor(d, e, key) {
      LookupIs(d, key, e);
    }
  }

  /** A new name leaves what all other names stand for alone exactly if the entry behind it is intact. With a name of
      twelve characters, another name may be lost, or come to stand for another inode. */
  lemma TwelveCharsIff(d: Dir, nr: nat, name: string)
    requires DirInv(d) && IsNew(d, nr, name) && FirstFree(d, 0) < Capacity(d)
    ensures var e := FirstFree(d, 0);
      && |EntryAt(d, e).name| == MAX_FILENAME_LEN && DirShape(Added(d, nr, name))
      && ((forall key :: key != Key(name) ==> Lookup(Added(d, nr, name), key) == Lookup(d, key))
          <==> NextIntact(d, e, name))
  {
    var e := FirstFree(d, 0);
    assert EntryOk(d, e);
    AddedEntries(d, nr, name, e);
    if NextIntact(d, e, name) {
      forall key | key != Key(name)
        ensures Lookup(Added(d, nr, name), key) == Lookup(d, key)
      {
        AddedIsInserted(d, nr, name, key);
      }
    } else {
      NextIsHit(d, nr, name);
    }
  }

  lemma ClearedByte(nr: nat)
    requires nr % 256 != 0
    ensures nr / 256 * 256 != nr
  {
  }

  /** The entry that is hit stays the only one that can be for its name. */
  lemma OnlyNext(d: Dir, nr: nat, name: string, f: nat)
    requires DirInv(d) && IsNew(d, nr, name) && FirstFree(d, 0) < Capacity(d) && !NextIntact(d, FirstFree(d, 0), name)
    requires f < Capacity(d)
    ensures |EntryAt(d, FirstFree(d, 0)).name| == MAX_FILENAME_LEN && DirShape(Added(d, nr, name))
    ensures var e, d', key := FirstFree(d, 0), Added(d, nr, name), EntryAt(d, FirstFree(d, 0) + 1).name;
      && key != Key(name) && (IsFor(d', f, key) ==> f == e + 1) && EntryAt(d', e + 1).name == key
      && EntryAt(d', e + 1).inodeNr == EntryAt(d, e + 1).inodeNr / 256 * 256
  {
    hide Added, IsNew, DirShape, Capacity, Key, RowWith;
    var e := FirstFree(d, 0);
    AddedNext(d, nr, name, f);
    assert EntryOk(d, e) && EntryOk(d, e + 1);
    NotThere(d, Key(name), e + 1);
    assert Apart(d, f, e + 1);
  }

  lemma AddedNext(d: Dir, nr: nat, name: string, f: nat)
    requires DirInv(d) && IsNew(d, nr, name) && FirstFree(d, 0) < Capacity(d) && !NextIntact(d, FirstFree(d, 0), name)
    requires f < Capacity(d)
    ensures |name| == MAX_FILENAME_LEN && Lookup(d, Key(name)) == 0 && FirstFree(d, 0) + 1 < Capacity(d)
    ensures |EntryAt(d, FirstFree(d, 0)).name| == MAX_FILENAME_LEN
    ensures var e, d' := FirstFree(d, 0), Added(d, nr, name);
      && DirShape(d') && Capacity(d') == Capacity(d) && EntryAt(d, e + 1).inodeNr % 256 != 0
      && EntryAt(d', e + 1) == EntryAt(d, e + 1).(inodeNr := EntryAt(d, e + 1).inodeNr / 256 * 256)
      && EntryAt(d', f) == if f == e then Entry(nr, Key(name))
                           else if f == e + 1 then EntryAt(d', e + 1) else EntryAt(d, f)
  {
    hide Added, Key, RowWith;
    var e := FirstFree(d, 0);
    assert EntryOk(d, e);
    AddedEntries(d, nr, name, e + 1);
    AddedEntries(d, nr, name, f);
  }

  /** What becomes of the name behind: the lowest byte of its inode number is zeroed. */
  lemma NextIsHit(d: Dir, nr: nat, name: string)
    requires DirInv(d) && IsNew(d, nr, name) && FirstFree(d, 0) < Capacity(d) && !NextIntact(d, FirstFree(d, 0), name)
    ensures |EntryAt(d, FirstFree(d, 0)).name| == MAX_FILENAME_LEN && DirShape(Added(d, nr, name))
    ensures var key := EntryAt(d, FirstFree(d, 0) + 1).name;
      && key != Key(name) && Lookup(d, key) == EntryAt(d, FirstFree(d, 0) + 1).inodeNr
      && Lookup(Added(d, nr, name), key) == Lookup(d, key) / 256 * 256 != Lookup(d, key)
  {
    hide Added, IsNew, DirShape, Capacity, Key, RowWith;
    var e := FirstFree(d, 0);
    AddedNext(d, nr, name, e);
    var d', key := Added(d, nr, name), EntryAt(d, e + 1).name;
    ClearedByte(EntryAt(d, e + 1).inodeNr);
    LookupIs(d, key, e + 1);
    forall f: nat | f < Capacity(d) && IsFor(d', f, key)
      ensures f == e + 1
    {
      OnlyNext(d, nr, name, f);
    }
    OnlyNext(d, nr, name, e);
    if IsFor(d', e + 1, key) {
      var f: nat :| f < Capacity(d) && IsFor(d', f, key) && Lookup(d', key) == EntryAt(d', f).inodeNr;
    }
  }

  // ---------- unlink ----------

  /** The used entries among the first e. */
  function UsedBefore(d: Dir, e: nat): (n: nat)
    requires DirShape(d) && e <= Capacity(d)
    ensures n <= e
  {
    if e == 0 then 0 else UsedBefore(d, e - 1) + if EntryAt(d, e - 1).inodeNr != 0 then 1 else 0
  }

  /** Entry e wiped, and the size set to the number of used entries before it if it is the last. */
  function Removed(d: Dir, e: nat): Dir
    requires DirShape(d) && e < Slots(d)
  {
    var row: seq<Entry> := d.sects[e / PER_SECT];
    Dir(d.sects[e / PER_SECT := row[e % PER_SECT := Unused()]],
        if e + 1 == Slots(d) then UsedBefore(d, e) * DIR_ENTRY_SIZE else d.size)
  }

  /** No unused entry comes before a used one, among the first e. */
  ghost predicate Packed(d: Dir, e: nat)
    requires DirShape(d) && e <= Capacity(d)
  {
    forall f: nat, g: nat :: g < f < e && EntryAt(d, f).inodeNr != 0 ==> EntryAt(d, g).inodeNr != 0
  }

  lemma {:induction false} PackedCount(d: Dir, e: nat, f: nat)
    requires DirShape(d) && e <= Capacity(d) && Packed(d, e) && f < e
    ensures EntryAt(d, f).inodeNr != 0 <==> f < UsedBefore(d, e)
    decreases e
  {
    if f < e - 1 {
      PackedCount(d, e - 1, f);
      if EntryAt(d, e - 1).inodeNr != 0 {
        assert EntryAt(d, f).inodeNr != 0;
      }
    } else if e > 1 {
      PackedCount(d, e - 1, e - 2);
    }
  }

  lemma {:induction false} HoleCount(d: Dir, e: nat, g: nat)
    requires DirShape(d) && e <= Capacity(d) && g < e && EntryAt(d, g).inodeNr == 0
    ensures UsedBefore(d, e) < e
    decreases e
  {
    if g < e - 1 {
      HoleCount(d, e - 1, g);
    }
  }

  /** With a hole, some used entry lies at or behind the place that the count gives. */
  lemma {:induction false} BehindCount(d: Dir, e: nat, g: nat, f: nat) returns (h: nat)
    requires DirShape(d) && e <= Capacity(d) && g < f < e
    requires EntryAt(d, g).inodeNr == 0 && EntryAt(d, f).inodeNr != 0
    ensures h < e && EntryAt(d, h).inodeNr != 0 && h >= UsedBefore(d, e)
    decreases e
  {
    if EntryAt(d, e - 1).inodeNr != 0 {
      h := e - 1;
      HoleCount(d, e - 1, g);
    } else {
      h := BehindCount(d, e - 1, g, f);
    }
  }

  lemma RemovedEntries(d: Dir, e: nat, f: nat)
    requires DirInv(d) && e < Slots(d) && f < Capacity(d)
    ensures DirShape(Removed(d, e)) && Capacity(Removed(d, e)) == Capacity(d)
    ensures EntryAt(Removed(d, e), f) == if f == e then Unused() else EntryAt(d, f)
  {
    assert e == e / PER_SECT * PER_SECT + e % PER_SECT && f == f / PER_SECT * PER_SECT + f % PER_SECT;
  }

  /** Unlinking leaves the directory in order exactly if the entry is not the last, or no unused entry comes before a
      used one. Otherwise the size cuts used entries off. */
  lemma RemovedKeepsInvIff(d: Dir, e: nat)
    requires DirInv(d) && e < Slots(d) && EntryAt(d, e).inodeNr != 0
    ensures DirInv(Removed(d, e)) <==> e + 1 < Slots(d) || Packed(d, e)
  {
    var d' := Removed(d, e);
    RemovedEntries(d, e, e);
    if e + 1 < Slots(d) || Packed(d, e) {
      RemovedKeepsInv(d, e);
    } else {
      var f: nat, g: nat :| g < f < e && EntryAt(d, f).inodeNr != 0 && EntryAt(d, g).inodeNr == 0;
      var h := BehindCount(d, e, g, f);
      RemovedEntries(d, e, h);
      assert !EntryOk(d', h);
    }
  }

  lemma RemovedKeepsInv(d: Dir, e: nat)
    requires DirInv(d) && e < Slots(d) && EntryAt(d, e).inodeNr != 0 && (e + 1 < Slots(d) || Packed(d, e))
    ensures DirInv(Removed(d, e))
  {
    var d' := Removed(d, e);
    RemovedEntries(d, e, e);
    forall f: nat | f < Capacity(d)
      ensures EntryOk(d', f)
    {
      RemovedEntries(d, e, f);
      assert EntryOk(d, f);
      if e + 1 == Slots(d) && f < e {
        PackedCount(d, e, f);
      }
    }
    forall f: nat, g: nat | f < Capacity(d) && g < Capacity(d)
      ensures Apart(d', f, g)
    {
      RemovedEntries(d, e, f);
      RemovedEntries(d, e, g);
      assert Apart(d, f, g);
    }
  }

  /** Then just the one name is gone. */
  lemma RemovedIsDeleted(d: Dir, e: nat, key: string)
    requires DirInv(d) && e < Slots(d) && EntryAt(d, e).inodeNr != 0 && (e + 1 < Slots(d) || Packed(d, e))
    ensures DirShape(Removed(d, e))
    ensures Lookup(Removed(d, e), key) == if key == EntryAt(d, e).name then 0 else Lookup(d, key)
  {
    var d' := Removed(d, e);
    RemovedKeepsInv(d, e);
    RemovedEntries(d, e, e);
    forall f: nat | f < Capacity(d) && f != e
      ensures EntryAt(d', f) == EntryAt(d, f)
    {
      RemovedEntries(d, e, f);
    }
    LookupAfter(d, d', e, key);
  }

  /** When the last entry is unlinked, a name that remains is still found exactly if its entry lies within what
      search_file reads for the new size. */
  lemma StillFoundIff(d: Dir, e: nat, f: nat)
    requires DirInv(d) && e + 1 == Slots(d) && EntryAt(d, e).inodeNr != 0 && f < e && EntryAt(d, f).inodeNr != 0
    ensures var d' := Removed(d, e);
      && DirShape(d') && SearchLimit(d') <= Capacity(d')
      && (Found(d', EntryAt(d, f).name) == EntryAt(d, f).inodeNr
          <==> f <= d'.size / 16 && f < (d'.size + 511) / 512 * 32)
  {
    var d', key := Removed(d, e), EntryAt(d, f).name;
    RemovedEntries(d, e, f);
    SearchLimits(d');
    var r := FirstMatch(d', key, 0, SearchLimit(d'));
    if r < SearchLimit(d') {
      RemovedEntries(d, e, r);
      assert EntryOk(d, r) && EntryOk(d, f) && Apart(d, r, f);
    }
  }

  /** After a name has been added and removed again, the directory maps names as before. */
  lemma AddThenRemove(d: Dir, nr: nat, name: string, key: string)
    requires DirInv(d) && IsNew(d, nr, name) && FirstFree(d, 0) < Capacity(d) && NextIntact(d, FirstFree(d, 0), name)
    ensures var e := FirstFree(d, 0);
      && |EntryAt(d, e).name| == MAX_FILENAME_LEN
      && var d' := Added(d, nr, name);
      && DirInv(d') && e < Slots(d')
      && (e + 1 < Slots(d') || Packed(d', e))
      && DirShape(Removed(d', e)) && Lookup(Removed(d', e), key) == Lookup(d, key)
  {
    var e := FirstFree(d, 0);
    assert EntryOk(d, e);
    AddedIsInserted(d, nr, name, key);
    var d' := Added(d, nr, name);
    AddedEntries(d, nr, name, e);
    assert Slots(d') == if e == Slots(d) then e + 1 else Slots(d);
    forall f: nat | f < e
      ensures EntryAt(d', f).inodeNr != 0
    {
      AddedEntries(d, nr, name, f);
    }
    RemovedIsDeleted(d', e, key);
  }

  // ---------- sizes ----------

  /** What open and unlink make of the directory's size: with a new entry it stays or has one entry more, and with the
      last one gone it has at least one less. */
  lemma SizesAfter(d: Dir, nr: nat, name: string, e: nat)
    requires DirInv(d) && IsName(name) && FirstFree(d, 0) < Capacity(d) && e < Slots(d)
    ensures |EntryAt(d, FirstFree(d, 0)).name| == MAX_FILENAME_LEN
    ensures Added(d, nr, name).size == d.size || Added(d, nr, name).size == d.size + DIR_ENTRY_SIZE
    ensures if e + 1 == Slots(d) then Removed(d, e).size + DIR_ENTRY_SIZE <= d.size else Removed(d, e).size == d.size
  {
    assert EntryOk(d, FirstFree(d, 0));
    assert d.size == Slots(d) * DIR_ENTRY_SIZE;
  }

  // ---------- room ----------

  function Elems(xs: seq<nat>): set<nat> {
    set x | x in xs
  }

  lemma {:induction false} AllDiffer(xs: seq<nat>)
    requires forall i, j :: 0 <= i < j < |xs| ==> xs[i] != xs[j]
    ensures |Elems(xs)| == |xs|
  {
    if xs != [] {
      var n := |xs| - 1;
      AllDiffer(xs[..n]);
      assert xs == xs[..n] + [xs[n]];
      assert Elems(xs) == Elems(xs[..n]) + {xs[n]};
    }
  }

  lemma {:induction false} AtMost(s: set<nat>, n: nat)
    requires forall x :: x in s ==> 0 < x <= n
    ensures |s| <= n
    decreases n
  {
    if n == 0 {
      assert s == {};
    } else {
      AtMost(s - {n}, n - 1);
    }
  }

  /** There is always room for one more entry: new_dir_entry does not check, but there are fewer inodes than entries. */
  lemma AlwaysRoom(d: Dir, inodes: nat)
    requires DirInv(d) && (forall e: nat :: e < Capacity(d) ==> EntryAt(d, e).inodeNr <= inodes) && inodes < Capacity(d)
    ensures FirstFree(d, 0) <= inodes && |EntryAt(d, FirstFree(d, 0)).name| == MAX_FILENAME_LEN
  {
    hide EntryAt, Capacity;
    var e := FirstFree(d, 0);
    var xs := seq(e, i requires 0 <= i < e => EntryAt(d, i).inodeNr);
    forall f: nat, g: nat | f < g < e
      ensures xs[f] != xs[g]
    {
      assert Apart(d, f, g);
    }
    AllDiffer(xs);
    AtMost(Elems(xs), inodes);
    assert EntryOk(d, e);
  }
}
