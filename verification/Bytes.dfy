/** Bits of a byte, least significant first. */
module Bytes {
  import opened FileSpec

  function Bit(b: Byte, k: nat): bool
    requires k < 8
  {
    (b >> k) & 1 == 1
  }

  function SetBit(b: Byte, k: nat): Byte
    requires k < 8
  {
    b | (1 << k)
  }

  function ClearBit(b: Byte, k: nat): Byte
    requires k < 8
  {
    b & !(1 << k)
  }

  lemma SetBitSets(b: Byte, k: nat, j: nat)
    requires k < 8 && j < 8
    ensures Bit(SetBit(b, k), j) == (j == k || Bit(b, j))
  {
    ShiftCases(k);
    ShiftCases(j);
  }

  lemma ClearBitClears(b: Byte, k: nat, j: nat)
    requires k < 8 && j < 8
    ensures Bit(ClearBit(b, k), j) == (j != k && Bit(b, j))
  {
    ShiftCases(k);
    ShiftCases(j);
  }

  lemma ShiftCases(k: nat)
    requires k < 8
    ensures k == 0 || k == 1 || k == 2 || k == 3 || k == 4 || k == 5 || k == 6 || k == 7
  {
  }
}
