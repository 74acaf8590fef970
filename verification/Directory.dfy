/** The directory's sectors, searched and changed in place, and the names in paths. */
module Directory {
  import opened Constants
  import opened DirSpec
  import opened DirOps

  /** The first entry with the given inode number among those up to the end. */
  function FirstWith(d: Dir, nr: nat, e: nat): (r: nat)
    requires DirShape(d) && e <= Slots(d)
    ensures e <= r <= Slots(d) && (r < Slots(d) ==> EntryAt(d, r).inodeNr == nr)
    ensures forall f: nat :: e <= f < r ==> EntryAt(d, f).inodeNr != nr
    decreases Slots(d) - e
  {
    if e == Slots(d) || EntryAt(d, e).inodeNr == nr then e else FirstWith(d, nr, e + 1)
  }

  class RootDir {
    const sects: array<seq<Entry>>
    var size: nat

    ghost function Value(): Dir
      reads this, sects
    {
      Dir(sects[..], size)
    }

    /** The inode number for a name, 0 if it is not there. The empty name, of "/", is the directory itself. */
    method SearchFile(filename: string, self: nat) returns (nr: nat)
      requires DirShape(Value()) && (filename == "" || IsName(filename))
      ensures filename == "" ==> nr == self
      ensures filename != "" ==> SearchLimit(Value()) <= Capacity(Value()) && nr == Found(Value(), Key(filename))
      ensures filename != "" && DirInv(Value()) ==> nr == Lookup(Value(), Key(filename))
    {
      if filename == "" {
        return self;
      }
      SearchLimits(Value());
      nr := SearchKey(Key(filename));
      if DirInv(Value()) {
        FoundIsLookup(Value(), filename);
      }
    }

    method SearchKey(key: string) returns (nr: nat)
      requires DirShape(Value()) && SearchLimit(Value()) <= Capacity(Value())
      ensures nr == Found(Value(), key)
    {
      ghost var d := Value();
      ghost var limit := SearchLimit(d);
      SectorsSearched(d);
      var nrDirBlks := (size + SECTOR_SIZE - 1) / SECTOR_SIZE;
      var m := 0;
      var i := 0;
      var done := false;
      while i < nrDirBlks
        invariant i <= nrDirBlks && m == PER_SECT * i <= limit && m <= Slots(d)
        invariant FirstMatch(d, key, 0, limit) == FirstMatch(d, key, m, limit)
      {
        done, nr, m := SearchSector(d, i, key, m);
        if done {
          return;
        }
        i := i + 1;
      }
      return 0;
    }

    /** The entries of one sector. done says that the search is over, with the result nr. */
    method SearchSector(ghost d: Dir, i: nat, key: string, m: nat) returns (done: bool, nr: nat, m': nat)
      requires d == Value() && DirShape(d) && SearchLimit(d) <= Capacity(d)
      requires m == PER_SECT * i && i < (size + SECTOR_SIZE - 1) / SECTOR_SIZE && m <= Slots(d)
      requires FirstMatch(d, key, 0, SearchLimit(d)) == FirstMatch(d, key, m, SearchLimit(d))
      ensures done ==> nr == Found(d, key)
      ensures !done ==> m' == m + PER_SECT <= SearchLimit(d) && m' <= Slots(d)
                        && FirstMatch(d, key, 0, SearchLimit(d)) == FirstMatch(d, key, m', SearchLimit(d))
    {
      hide DirShape, SearchLimit, FirstMatch, EntryAt;
      SectorsSearched(d);
      SlotOf(d, i, 0);
      var nrDirEntries := size / DIR_ENTRY_SIZE;
      var fsbuf := sects[i];
      ghost var limit := SearchLimit(d);
      m' := m;
      var j := 0;
      while j < PER_SECT
        invariant j <= PER_SECT && m' == m + j <= limit && m' <= nrDirEntries
        invariant FirstMatch(d, key, 0, limit) == FirstMatch(d, key, m', limit)
      {
        SlotOf(d, i, j);
        EntryCompared(d, key, m', limit);
        if fsbuf[j].name == key {
          return true, fsbuf[j].inodeNr, m';
        }
        m' := m' + 1;
        if m' > nrDirEntries {
          return true, 0, m';
        }
        j := j + 1;
      }
      return false, 0, m';
    }

    /** Enter a name that is not there. */
    method NewDirEntry(inodeNr: nat, filename: string)
      requires DirInv(Value()) && IsName(filename) && FirstFree(Value(), 0) < Capacity(Value())
      requires |EntryAt(Value(), FirstFree(Value(), 0)).name| == MAX_FILENAME_LEN
      modifies this`size, sects
      ensures Value() == Added(old(Value()), inodeNr, filename)
    {
      ghost var d := Value();
      var i, j, found := FindFree();
      if !found {
        size := size + DIR_ENTRY_SIZE;
      }
      var fsbuf := sects[i];
      sects[i] := RowWith(fsbuf, j, inodeNr, filename);
      assert sects[..] == d.sects[i := RowWith(fsbuf, j, inodeNr, filename)];
    }

    /** The sector and the place in it of the first unused entry, or of the one behind the end. */
    method FindFree() returns (i: nat, j: nat, found: bool)
      requires DirShape(Value()) && FirstFree(Value(), 0) < Capacity(Value())
      ensures var e := FirstFree(Value(), 0);
        i == e / PER_SECT && j == e % PER_SECT && (found <==> e < Slots(Value()))
    {
      ghost var d := Value();
      var nrDirBlks := (size + SECTOR_SIZE) / SECTOR_SIZE;
      SectorsRead(d);
      var m := 0;
      var done := false;
      i, j := 0, 0;
      while i < nrDirBlks
        invariant i <= nrDirBlks && m == PER_SECT * i <= Slots(d)
        invariant FirstFree(d, 0) == FirstFree(d, m)
      {
        done, j, found, m := FindFreeIn(d, i, m);
        if done {
          return;
        }
        i := i + 1;
      }
    }

    method FindFreeIn(ghost d: Dir, i: nat, m: nat) returns (done: bool, j: nat, found: bool, m': nat)
      requires d == Value() && DirShape(d) && m == PER_SECT * i <= Slots(d) && FirstFree(d, 0) < Capacity(d)
      requires FirstFree(d, 0) == FirstFree(d, m)
      ensures done ==> var e := FirstFree(d, 0); i == e / PER_SECT && j == e % PER_SECT && (found <==> e < Slots(d))
      ensures !done ==> m' == m + PER_SECT <= Slots(d) && FirstFree(d, 0) == FirstFree(d, m')
    {
      hide DirShape;
      SlotsFit(d);
      var nrDirEntries := size / DIR_ENTRY_SIZE;
      m' := m;
      j := 0;
      while j < PER_SECT
        invariant j <= PER_SECT && m' == m + j <= Slots(d)
        invariant FirstFree(d, 0) == FirstFree(d, m')
      {
        m' := m' + 1;
        if m' > nrDirEntries {
          PlaceOf(i, j);
          return true, j, false, m';
        }
        SlotOf(d, i, j);
        if sects[i][j].inodeNr == 0 {
          return true, j, true, m';
        }
        j := j + 1;
      }
      return false, 0, false, m';
    }

    /** Wipe the entry of an inode, and cut the size if it was the last. The system halts if there is none. */
    method RemoveEntry(inodeNr: nat) returns (ok: bool)
      requires DirShape(Value()) && inodeNr != 0
      modifies this`size, sects
      ensures var e := FirstWith(old(Value()), inodeNr, 0);
        if e < Slots(old(Value())) then ok && Value() == Removed(old(Value()), e)
        else !ok && Value() == old(Value())
    {
      ghost var d := Value();
      var i, j, m, dirSize;
      i, j, ok, m, dirSize := FindEntry(inodeNr);
      if ok {
        var fsbuf := sects[i];
        sects[i] := fsbuf[j := Unused()];
        if m == size / DIR_ENTRY_SIZE {
          size := dirSize;
        }
        assert sects[..] == d.sects[i := fsbuf[j := Unused()]];
      }
    }

    /** Where the inode's entry is: m is its number, counted from 1. dirSize is the room of the used ones before. */
    method FindEntry(inodeNr: nat) returns (i: nat, j: nat, found: bool, m: nat, dirSize: nat)
      requires DirShape(Value()) && inodeNr != 0
      ensures var e := FirstWith(Value(), inodeNr, 0);
        && (found <==> e < Slots(Value()))
        && (found ==>
              && i == e / PER_SECT && j == e % PER_SECT && m == e + 1
              && dirSize == UsedBefore(Value(), e) * DIR_ENTRY_SIZE)
    {
      ghost var d := Value();
      var nrDirBlks := (size + SECTOR_SIZE) / SECTOR_SIZE;
      SectorsRead(d);
      m, dirSize := 0, 0;
      i, j := 0, 0;
      var done := false;
      while i < nrDirBlks
        invariant i <= nrDirBlks && m == PER_SECT * i <= Slots(d)
        invariant FirstWith(d, inodeNr, 0) == FirstWith(d, inodeNr, m)
        invariant dirSize == UsedBefore(d, m) * DIR_ENTRY_SIZE
      {
        done, j, found, m, dirSize := FindEntryIn(d, i, inodeNr, m, dirSize);
        if done {
          return;
        }
        i := i + 1;
      }
    }

    method FindEntryIn(ghost d: Dir, i: nat, inodeNr: nat, m: nat, dirSize: nat)
      returns (done: bool, j: nat, found: bool, m': nat, dirSize': nat)
      requires d == Value() && DirShape(d) && inodeNr != 0 && m == PER_SECT * i <= Slots(d)
      requires FirstWith(d, inodeNr, 0) == FirstWith(d, inodeNr, m)
      requires dirSize == UsedBefore(d, m) * DIR_ENTRY_SIZE
      ensures done ==>
                var e := FirstWith(d, inodeNr, 0);
                && (found <==> e < Slots(d))
                && (found ==> i == e / PER_SECT && j == e % PER_SECT && m' == e + 1
                              && dirSize' == UsedBefore(d, e) * DIR_ENTRY_SIZE)
      ensures !done ==> m' == m + PER_SECT <= Slots(d)
                        && FirstWith(d, inodeNr, 0) == FirstWith(d, inodeNr, m')
                        && dirSize' == UsedBefore(d, m') * DIR_ENTRY_SIZE
    {
      hide DirShape, FirstWith, UsedBefore, EntryAt;
      SlotsFit(d);
      var nrDirEntries := size / DIR_ENTRY_SIZE;
      m', dirSize' := m, dirSize;
      j := 0;
      while j < PER_SECT
        invariant j <= PER_SECT && m' == m + j <= Slots(d)
        invariant FirstWith(d, inodeNr, 0) == FirstWith(d, inodeNr, m')
        invariant dirSize' == UsedBefore(d, m') * DIR_ENTRY_SIZE
      {
        m' := m' + 1;
        if m' > nrDirEntries {
          EndReached(d, inodeNr);
          return true, j, false, m', dirSize';
        }
        SlotOf(d, i, j);
        EntryPassed(d, inodeNr, m' - 1);
        if sects[i][j].inodeNr == inodeNr {
          return true, j, true, m', dirSize';
        }
        if sects[i][j].inodeNr != 0 {
          dirSize' := dirSize' + DIR_ENTRY_SIZE;
        }
        j := j + 1;
      }
      return false, 0, false, m', dirSize';
    }
  }

  lemma EndReached(d: Dir, nr: nat)
    requires DirShape(d)
    ensures FirstWith(d, nr, Slots(d)) == Slots(d)
  {
  }

  lemma EntryPassed(d: Dir, nr: nat, e: nat)
    requires DirShape(d) && e < Slots(d)
    ensures FirstWith(d, nr, e) == if EntryAt(d, e).inodeNr == nr then e else FirstWith(d, nr, e + 1)
    ensures UsedBefore(d, e + 1) == UsedBefore(d, e) + if EntryAt(d, e).inodeNr != 0 then 1 else 0
  {
  }

  lemma EntryCompared(d: Dir, key: string, e: nat, limit: nat)
    requires DirShape(d) && e < limit <= Capacity(d)
    ensures FirstMatch(d, key, limit, limit) == limit
    ensures FirstMatch(d, key, e, limit) ==
            if EntryAt(d, e).name == key then e else FirstMatch(d, key, e + 1, limit)
  {
  }

  lemma SlotsFit(d: Dir)
    requires DirShape(d)
    ensures Slots(d) <= Capacity(d)
  {
  }

  lemma PlaceOf(i: nat, j: nat)
    requires j < PER_SECT
    ensures (PER_SECT * i + j) / PER_SECT == i && (PER_SECT * i + j) % PER_SECT == j
  {
  }

  lemma SlotOf(d: Dir, i: nat, j: nat)
    requires DirShape(d) && PER_SECT * i + j < Capacity(d) && j < PER_SECT
    ensures i < |d.sects| && |d.sects[i]| == PER_SECT && EntryAt(d, PER_SECT * i + j) == d.sects[i][j]
    ensures (PER_SECT * i + j) / PER_SECT == i && (PER_SECT * i + j) % PER_SECT == j
  {
    PlaceOf(i, j);
  }

  /** new_dir_entry and unlink read one sector more than search_file when the last one is full. */
  lemma SectorsRead(d: Dir)
    requires DirShape(d)
    ensures Slots(d) < (d.size + SECTOR_SIZE) / SECTOR_SIZE * PER_SECT
  {
    assert d.size == Slots(d) * DIR_ENTRY_SIZE;
  }

  lemma SectorsSearched(d: Dir)
    requires DirShape(d)
    ensures var read := (d.size + SECTOR_SIZE - 1) / SECTOR_SIZE;
      && read * PER_SECT <= Capacity(d) && Slots(d) <= read * PER_SECT
      && SearchLimit(d) == if Slots(d) + 1 <= read * PER_SECT then Slots(d) + 1 else read * PER_SECT
  {
    SearchLimits(d);
  }

  // ---------- strip_path ----------

  /** The path without the slash it may begin with. */
  function Basename(path: string): string {
    if path != "" && path[0] == '/' then path[1..] else path
  }

  function Truncated(s: string): string {
    if |s| > MAX_FILENAME_LEN then s[..MAX_FILENAME_LEN] else s
  }

  /** The file name in a path, cut to twelve characters. ok is false exactly if there is a slash in what is kept; one
      further behind goes unnoticed. */
  method StripPath(path: string) returns (ok: bool, filename: string)
    ensures ok <==> '/' !in Truncated(Basename(path))
    ensures ok ==> filename == Truncated(Basename(path))
    // the first twelve characters behind a leading slash
    ensures var k := if |path| > 0 && path[0] == '/' then 1 else 0;
      var n := if |path| - k > 12 then 12 else |path| - k;
      (ok <==> '/' !in path[k..k + n]) && (ok ==> filename == path[k..k + n])
    ensures ok && NUL !in path ==> filename == "" || IsName(filename)
  {
    var s := if path != "" && path[0] == '/' then 1 else 0;
    ghost var base := Basename(path);
    ghost var first := s;
    filename := "";
    while s < |path|
      invariant first <= s <= |path| && |filename| == s - first < MAX_FILENAME_LEN
      invariant filename == base[..s - first] && '/' !in filename
    {
      if path[s] == '/' {
        assert Truncated(base)[s - first] == '/';
        return false, "";
      }
      filename := filename + [path[s]];
      s := s + 1;
      if |filename| >= MAX_FILENAME_LEN {
        break;
      }
    }
    ok := true;
  }
}
