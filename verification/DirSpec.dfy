/** The root directory as a table of names, and the three ways the file system walks it. */
module DirSpec {
  import opened Constants

  const PER_SECT := 32            // SECTOR_SIZE / DIR_ENTRY_SIZE
  const MAX_FILENAME_LEN := 12

  /** An entry as it lies on the disk. It is unused if inodeNr is 0. */
  datatype Entry = Entry(inodeNr: nat, name: string)

  /** The sectors set aside for the directory, and the size its inode has. */
  datatype Dir = Dir(sects: seq<seq<Entry>>, size: nat)

  function Zeros(n: nat): (s: string)
    ensures |s| == n
  {
    seq(n, i => NUL)
  }

  function Unused(): Entry {
    Entry(0, Zeros(MAX_FILENAME_LEN))
  }

  /** What strip_path leaves: up to twelve characters. */
  predicate IsName(name: string) {
    0 < |name| <= MAX_FILENAME_LEN && NUL !in name
  }

  /** The twelve bytes an entry for the name has. */
  function Key(name: string): string
    requires |name| <= MAX_FILENAME_LEN
  {
    name + Zeros(MAX_FILENAME_LEN - |name|)
  }

  /** Different names have different entries. */
  lemma KeysDiffer(a: string, b: string)
    requires IsName(a) && IsName(b) && a != b
    ensures Key(a) != Key(b)
  {
    if |a| < |b| {
      LongerDiffers(a, b);
    } else if |b| < |a| {
      LongerDiffers(b, a);
    } else {
      var i :| 0 <= i < |a| && a[i] != b[i];
      assert Key(a)[i] == a[i] && Key(b)[i] == b[i];
    }
  }

  lemma LongerDiffers(a: string, b: string)
    requires IsName(a) && IsName(b) && |a| < |b|
    ensures Key(a) != Key(b)
  {
    assert b[|a|] in b;
    assert Key(a)[|a|] == NUL && Key(b)[|a|] == b[|a|];
  }

  function Slots(d: Dir): nat {
    d.size / DIR_ENTRY_SIZE
  }

  function Capacity(d: Dir): nat {
    |d.sects| * PER_SECT
  }

  predicate DirShape(d: Dir) {
    && (forall i :: 0 <= i < |d.sects| ==> |d.sects[i]| == PER_SECT)
    && d.size % DIR_ENTRY_SIZE == 0 && Slots(d) <= Capacity(d)
  }

  function EntryAt(d: Dir, e: nat): Entry
    requires DirShape(d) && e < Capacity(d)
  {
    d.sects[e / PER_SECT][e % PER_SECT]
  }

  predicate EntryOk(d: Dir, e: nat)
    requires DirShape(d) && e < Capacity(d)
  {
    var x := EntryAt(d, e);
    && |x.name| == MAX_FILENAME_LEN
    && (if x.inodeNr == 0 then x == Unused() else x.name[0] != NUL && e < Slots(d))
  }

  predicate Apart(d: Dir, e: nat, f: nat)
    requires DirShape(d) && e < Capacity(d) && f < Capacity(d)
  {
    EntryAt(d, e).inodeNr != 0 && EntryAt(d, f).inodeNr != 0 && e != f ==>
      EntryAt(d, e).name != EntryAt(d, f).name && EntryAt(d, e).inodeNr != EntryAt(d, f).inodeNr
  }

  /** Unused entries are zero, also those behind the end; names and inodes occur once. */
  ghost predicate DirInv(d: Dir) {
    && DirShape(d)
    && (forall e: nat :: e < Capacity(d) ==> EntryOk(d, e))
    && (forall e: nat, f: nat :: e < Capacity(d) && f < Capacity(d) ==> Apart(d, e, f))
  }

  predicate IsFor(d: Dir, e: nat, key: string)
    requires DirShape(d) && e < Capacity(d)
  {
    EntryAt(d, e).inodeNr != 0 && EntryAt(d, e).name == key
  }

  /** The directory as a map: the inode that the name stands for, 0 if there is no such name. */
  ghost function Lookup(d: Dir, key: string): (nr: nat)
    requires DirShape(d)
  {
    if exists e: nat :: e < Capacity(d) && IsFor(d, e, key) then
      var e: nat :| e < Capacity(d) && IsFor(d, e, key);
      EntryAt(d, e).inodeNr
    else 0
  }

  lemma LookupIs(d: Dir, key: string, e: nat)
    requires DirInv(d) && e < Capacity(d) && IsFor(d, e, key)
    ensures Lookup(d, key) == EntryAt(d, e).inodeNr != 0
  {
    var f: nat :| f < Capacity(d) && IsFor(d, f, key) && Lookup(d, key) == EntryAt(d, f).inodeNr;
    assert Apart(d, e, f);
  }

  // ---------- search_file ----------

  /** The entries search_file compares: one more than there are, as far as it reads sectors. */
  function SearchLimit(d: Dir): nat {
    var read := (d.size + SECTOR_SIZE - 1) / SECTOR_SIZE * PER_SECT;
    if Slots(d) + 1 <= read then Slots(d) + 1 else read
  }

  function FirstMatch(d: Dir, key: string, e: nat, limit: nat): (r: nat)
    requires DirShape(d) && e <= limit <= Capacity(d)
    ensures e <= r <= limit && (r < limit ==> EntryAt(d, r).name == key)
    ensures forall f: nat :: e <= f < r ==> EntryAt(d, f).name != key
    decreases limit - e
  {
    if e == limit || EntryAt(d, e).name == key then e else FirstMatch(d, key, e + 1, limit)
  }

  /** What search_file returns. */
  function Found(d: Dir, key: string): nat
    requires DirShape(d) && SearchLimit(d) <= Capacity(d)
  {
    var e := FirstMatch(d, key, 0, SearchLimit(d));
    if e < SearchLimit(d) then EntryAt(d, e).inodeNr else 0
  }

  lemma SearchLimits(d: Dir)
    requires DirShape(d)
    ensures Slots(d) <= SearchLimit(d) <= Capacity(d)
  {
    var n := Slots(d);
    assert d.size == n * DIR_ENTRY_SIZE;
    assert (d.size + SECTOR_SIZE - 1) / SECTOR_SIZE == (n + PER_SECT - 1) / PER_SECT;
  }

  /** search_file looks the name up, although it may look at one entry behind the end. */
  lemma FoundIsLookup(d: Dir, name: string)
    requires DirInv(d) && IsName(name)
    ensures SearchLimit(d) <= Capacity(d) && Found(d, Key(name)) == Lookup(d, Key(name))
  {
    SearchLimits(d);
    var key, e := Key(name), FirstMatch(d, Key(name), 0, SearchLimit(d));
    assert key[0] == name[0] && name[0] in name;
    if e < SearchLimit(d) {
      assert EntryOk(d, e);
      LookupIs(d, key, e);
    } else {
      forall f: nat | f < Capacity(d)
        ensures !IsFor(d, f, key)
      {
        assert EntryOk(d, f);
      }
    }
  }
}
