/** Allocation maps as sequences of bits: marking the first free bits, and freeing a run of them. */
module Bitmap {
  import opened FileSpec
  import opened Bytes

  type Bits = seq<bool>

  /** How many bits are clear. */
  function Clears(bits: Bits): nat {
    if bits == [] then 0 else Clears(bits[..|bits|-1]) + if bits[|bits|-1] then 0 else 1
  }

  /** The map after the first n clear bits have been set. */
  function Marked(bits: Bits, n: nat): (r: Bits)
    ensures |r| == |bits|
  {
    if bits == [] then []
    else Marked(bits[..|bits|-1], n) + [bits[|bits|-1] || Clears(bits[..|bits|-1]) < n]
  }

  /** How many of n are still to be set behind bits. */
  function Left(bits: Bits, n: nat): nat {
    if Clears(bits) < n then n - Clears(bits) else 0
  }

  /** The first clear bit, |bits| if there is none. */
  function FirstClear(bits: Bits): (r: nat)
    ensures r <= |bits| && (r < |bits| ==> !bits[r])
    ensures forall i :: 0 <= i < r ==> bits[i]
  {
    if bits == [] || !bits[0] then 0 else 1 + FirstClear(bits[1..])
  }

  /** The map after the n bits from s on have been cleared. */
  function Cleared(bits: Bits, s: nat, n: nat): (r: Bits)
    ensures |r| == |bits|
    ensures forall i :: 0 <= i < |bits| ==> r[i] == (bits[i] && !(s <= i < s + n))
  {
    seq(|bits|, i requires 0 <= i < |bits| => bits[i] && !(s <= i < s + n))
  }

  // ---------- marking is done piecewise ----------

  lemma {:induction false} ClearsAppend(a: Bits, b: Bits)
    ensures Clears(a + b) == Clears(a) + Clears(b)
    decreases |b|
  {
    if b == [] {
      assert a + b == a;
    } else {
      assert (a + b)[..|a + b| - 1] == a + b[..|b| - 1];
      ClearsAppend(a, b[..|b| - 1]);
    }
  }

  lemma {:induction false} MarkedAppend(a: Bits, b: Bits, n: nat)
    ensures Marked(a + b, n) == Marked(a, n) + Marked(b, Left(a, n))
    ensures Left(a + b, n) == Left(b, Left(a, n))
    decreases |b|
  {
    ClearsAppend(a, b);
    if b == [] {
      assert a + b == a;
    } else {
      assert (a + b)[..|a + b| - 1] == a + b[..|b| - 1];
      MarkedAppend(a, b[..|b| - 1], n);
      ClearsAppend(a, b[..|b| - 1]);
    }
  }

  lemma {:induction false} MarkedNone(bits: Bits)
    ensures Marked(bits, 0) == bits && Left(bits, 0) == 0
  {
    if bits != [] {
      MarkedNone(bits[..|bits|-1]);
    }
  }

  lemma FirstClearAppend(a: Bits, b: Bits)
    ensures FirstClear(a + b) == if FirstClear(a) < |a| then FirstClear(a) else |a| + FirstClear(b)
  {
    var r := if FirstClear(a) < |a| then FirstClear(a) else |a| + FirstClear(b);
    assert forall i :: 0 <= i < r ==> (a + b)[i];
    assert r < |a + b| ==> !(a + b)[r];
  }

  // ---------- what marking does ----------

  lemma {:induction false} MarkedAt(bits: Bits, n: nat, i: nat)
    requires i < |bits|
    ensures Marked(bits, n)[i] == (bits[i] || Clears(bits[..i]) < n)
  {
    if i < |bits| - 1 {
      MarkedAt(bits[..|bits|-1], n, i);
      assert bits[..|bits|-1][..i] == bits[..i];
    }
  }

  /** It sets n bits that were clear, or all there are, and clears none. */
  lemma {:induction false} MarkedCount(bits: Bits, n: nat)
    ensures Clears(Marked(bits, n)) == Clears(bits) - (if n < Clears(bits) then n else Clears(bits))
    ensures forall i :: 0 <= i < |bits| && bits[i] ==> Marked(bits, n)[i]
  {
    if bits != [] {
      MarkedCount(bits[..|bits|-1], n);
    }
  }

  lemma {:induction false} ClearsWithin(bits: Bits, i: nat, j: nat)
    requires i <= j <= |bits|
    ensures Clears(bits[..i]) <= Clears(bits[..j]) <= Clears(bits[..i]) + (j - i)
    ensures Clears(bits[..j]) == Clears(bits[..i]) + (j - i) <==> forall k :: i <= k < j ==> !bits[k]
    decreases j - i
  {
    if i < j {
      ClearsWithin(bits, i, j - 1);
      assert bits[..j][..j - 1] == bits[..j - 1];
    }
  }

  lemma ClearsBeforeFirst(bits: Bits)
    ensures Clears(bits[..FirstClear(bits)]) == 0
  {
    AllSet(bits[..FirstClear(bits)]);
  }

  lemma {:induction false} AllSet(bits: Bits)
    requires forall i :: 0 <= i < |bits| ==> bits[i]
    ensures Clears(bits) == 0
  {
    if bits != [] {
      AllSet(bits[..|bits|-1]);
    }
  }

  /** All n bits from the first clear one on are clear. */
  ghost predicate Contiguous(bits: Bits, n: nat) {
    var s := FirstClear(bits);
    s + n <= |bits| && forall i :: s <= i < s + n ==> !bits[i]
  }

  /** With n clear bits to be had, the run of n from the first one is inside the map, and set afterwards. */
  lemma RunIsMarked(bits: Bits, n: nat)
    requires n <= Clears(bits)
    ensures FirstClear(bits) + n <= |bits|
    ensures forall i :: FirstClear(bits) <= i < FirstClear(bits) + n ==> Marked(bits, n)[i]
  {
    var s := FirstClear(bits);
    ClearsBeforeFirst(bits);
    ClearsWithin(bits, s, |bits|);
    assert bits[..|bits|] == bits;
    forall i | s <= i < s + n
      ensures Marked(bits, n)[i]
    {
      ClearsWithin(bits, s, i);
      MarkedAt(bits, n, i);
    }
  }

  // ---------- bytes ----------

  function ByteBits(b: Byte): (r: Bits)
    ensures |r| == 8
  {
    seq(8, k requires 0 <= k < 8 => Bit(b, k))
  }

  function BitsOf(bytes: seq<Byte>): (r: Bits)
    ensures |r| == 8 * |bytes|
  {
    if bytes == [] then [] else BitsOf(bytes[..|bytes|-1]) + ByteBits(bytes[|bytes|-1])
  }

  lemma {:induction false} BitsOfAppend(a: seq<Byte>, b: seq<Byte>)
    ensures BitsOf(a + b) == BitsOf(a) + BitsOf(b)
    decreases |b|
  {
    if b == [] {
      assert a + b == a;
    } else {
      assert (a + b)[..|a + b| - 1] == a + b[..|b| - 1];
      BitsOfAppend(a, b[..|b| - 1]);
    }
  }

  lemma {:induction false} BitsOfAt(bytes: seq<Byte>, i: nat, k: nat)
    requires i < |bytes| && k < 8
    ensures BitsOf(bytes)[8 * i + k] == Bit(bytes[i], k)
  {
    if i < |bytes| - 1 {
      BitsOfAt(bytes[..|bytes|-1], i, k);
    }
  }
}
