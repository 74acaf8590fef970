/** The sector map that mkfs writes: the first files fit in front of cmd.tar, and the one that does not quite fit takes
    cmd.tar's sectors with it when it is unlinked. */
module MapCases {
  import opened Constants
  import opened Bitmap
  import opened Extents

  const INSTALL_START_SECT := 0x8000
  const INSTALL_NR_SECTS := 0x800
  const INODE_SECTS := 256
  const FILES_THAT_FIT := 14

  /** The bit of cmd.tar's first sector, with a sector map of k sectors. */
  function CmdTar(k: nat): int {
    INSTALL_START_SECT - (1 + 1 + 1 + k + INODE_SECTS) + 1
  }

  /** The bit behind the reserved one, the root directory and m files. */
  function Behind(m: nat): nat {
    1 + NR_DEFAULT_FILE_SECTS + NR_DEFAULT_FILE_SECTS * m
  }

  /** The map after mkfs and the creation of m files. */
  function MapWith(k: nat, m: nat): (bits: Bits)
    ensures |bits| == SECTOR_BITS * k
    ensures forall i :: 0 <= i < |bits| ==> bits[i] == (i < Behind(m) || CmdTar(k) <= i < CmdTar(k) + INSTALL_NR_SECTS)
  {
    seq(SECTOR_BITS * k, i => i < Behind(m) || CmdTar(k) <= i < CmdTar(k) + INSTALL_NR_SECTS)
  }

  /** A disk that holds cmd.tar and some more, and whose map has room in front of cmd.tar. */
  predicate DiskSize(k: nat) {
    9 <= k < 1789
  }

  lemma FirstClearIs(bits: Bits, s: nat)
    requires s < |bits| && !bits[s] && forall i :: 0 <= i < s ==> bits[i]
    ensures FirstClear(bits) == s
  {
    hide FirstClear;
  }

  lemma EnoughClear(bits: Bits, s: nat, n: nat)
    requires s + n <= |bits| && forall i :: s <= i < s + n ==> !bits[i]
    ensures n <= Clears(bits)
  {
    ClearsWithin(bits, s, s + n);
    ClearsWithin(bits, s + n, |bits|);
    assert bits[..|bits|] == bits;
  }

  /** Each of the first files gets the sectors behind the last one. */
  lemma FileFits(k: nat, m: nat)
    requires DiskSize(k) && m < FILES_THAT_FIT
    ensures NR_DEFAULT_FILE_SECTS <= Clears(MapWith(k, m)) && Contiguous(MapWith(k, m), NR_DEFAULT_FILE_SECTS)
    ensures Marked(MapWith(k, m), NR_DEFAULT_FILE_SECTS) == MapWith(k, m + 1)
  {
    hide Marked, Clears;
    var bits := MapWith(k, m);
    FirstClearIs(bits, Behind(m));
    EnoughClear(bits, Behind(m), NR_DEFAULT_FILE_SECTS);
    MarkedIsFilled(bits, NR_DEFAULT_FILE_SECTS);
    assert Filled(bits, Behind(m), NR_DEFAULT_FILE_SECTS) == MapWith(k, m + 1);
  }

  /** The next file starts in front of cmd.tar and ends behind it. Unlinking it frees the sectors of cmd.tar, and leaves
      a sector that belongs to no file marked. */
  lemma CmdTarIsFreed(k: nat) returns (lost: nat)
    requires DiskSize(k)
    ensures var bits := MapWith(k, FILES_THAT_FIT);
      var n := NR_DEFAULT_FILE_SECTS;
      && n <= Clears(bits) && 0 <= CmdTar(k) < |bits| && bits[CmdTar(k)]
      && !Cleared(Marked(bits, n), FirstClear(bits), n)[CmdTar(k)]
      && lost < |bits| && !bits[lost] && Cleared(Marked(bits, n), FirstClear(bits), n)[lost]
  {
    hide Marked, Clears;
    var bits := MapWith(k, FILES_THAT_FIT);
    FirstClearIs(bits, Behind(FILES_THAT_FIT));
    EnoughClear(bits, CmdTar(k) + INSTALL_NR_SECTS, NR_DEFAULT_FILE_SECTS);
    lost := FreeingHitsOthers(bits, NR_DEFAULT_FILE_SECTS, CmdTar(k));
  }
}
