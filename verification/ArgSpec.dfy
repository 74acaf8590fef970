/** The argument block that execv builds in its caller and do_exec moves into the new program's stack. */
module ArgSpec {
  import opened Constants

  const PROC_IMAGE_SIZE_DEFAULT := 0x100000
  const PROC_ORIGIN_STACK := 0x400
  const ORIG_STACK := PROC_IMAGE_SIZE_DEFAULT - PROC_ORIGIN_STACK
  const PTR := 4   // sizeof(char*)

  type Octet = x: int | 0 <= x < 256

  /** A string without its terminating zero. */
  predicate IsString(s: seq<Octet>) {
    forall i :: 0 <= i < |s| ==> s[i] != 0
  }

  predicate AreStrings(argv: seq<seq<Octet>>) {
    forall k :: 0 <= k < |argv| ==> IsString(argv[k])
  }

  /** The word stored at i, least significant byte first. */
  function WordAt(b: seq<Octet>, i: nat): int
    requires i + PTR <= |b|
  {
    b[i] as int + 0x100 * b[i + 1] as int + 0x1_0000 * b[i + 2] as int + 0x100_0000 * b[i + 3] as int
  }

  function ByteOf(w: int, k: nat): Octet
    requires 0 <= w < U32 && k < PTR
  {
    if k == 0 then w % 0x100
    else if k == 1 then w / 0x100 % 0x100
    else if k == 2 then w / 0x100 / 0x100 % 0x100
    else w / 0x100 / 0x100 / 0x100
  }

  lemma WordOfBytes(b: seq<Octet>, i: nat, w: int)
    requires i + PTR <= |b| && 0 <= w < U32 && forall k: nat :: k < PTR ==> b[i + k] == ByteOf(w, k)
    ensures WordAt(b, i) == w
  {
    assert b[i + 0] == ByteOf(w, 0) && b[i + 1] == ByteOf(w, 1) && b[i + 2] == ByteOf(w, 2) && b[i + 3] == ByteOf(w, 3);
    BytesOfWord(w);
  }

  lemma BytesOfWord(w: int)
    requires 0 <= w < U32
    ensures ByteOf(w, 0) as int + 0x100 * ByteOf(w, 1) as int + 0x1_0000 * ByteOf(w, 2) as int
            + 0x100_0000 * ByteOf(w, 3) as int == w
  {
    var q := w / 0x100;
    var r := q / 0x100;
    assert w == 0x100 * q + w % 0x100 && q == 0x100 * r + q % 0x100 && r == 0x100 * (r / 0x100) + r % 0x100;
  }

  /** Where the k-th string lies in the block: behind the pointers, their terminator, and the strings before it. */
  function Offset(argv: seq<seq<Octet>>, k: nat): (off: nat)
    requires k <= |argv|
    ensures off >= PTR * (|argv| + 1) + k
  {
    if k == 0 then PTR * (|argv| + 1) else Offset(argv, k - 1) + |argv[k - 1]| + 1
  }

  lemma {:induction false} OffsetMonotone(argv: seq<seq<Octet>>, j: nat, k: nat)
    requires j < k <= |argv|
    ensures Offset(argv, j) + |argv[j]| + 1 <= Offset(argv, k)
    decreases k
  {
    if j < k - 1 {
      OffsetMonotone(argv, j, k - 1);
    }
  }

  /** The argument list, laid out for a block at base: pointers to the strings, a null pointer, the strings with a
      zero behind each. */
  ghost predicate IsBlock(b: seq<Octet>, argv: seq<seq<Octet>>, base: nat) {
    && |b| == Offset(argv, |argv|)
    && HasPointers(b, argv, base, |argv|) && WordAt(b, PTR * |argv|) == 0
    && HasStrings(b, argv, |argv|)
  }

  ghost predicate HasPointers(b: seq<Octet>, argv: seq<seq<Octet>>, base: nat, n: nat)
    requires n <= |argv| && PTR * (|argv| + 1) <= |b|
  {
    forall k: nat :: k < n ==> WordAt(b, PTR * k) == base + Offset(argv, k)
  }

  ghost predicate HasStrings(b: seq<Octet>, argv: seq<seq<Octet>>, n: nat)
    requires n <= |argv| && Offset(argv, n) <= |b|
  {
    forall k: nat :: k < n ==> HasString(b, argv, k)
  }

  ghost predicate HasString(b: seq<Octet>, argv: seq<seq<Octet>>, k: nat)
    requires k < |argv|
  {
    && Offset(argv, k + 1) <= |b|
    && b[Offset(argv, k)..Offset(argv, k) + |argv[k]|] == argv[k] && b[Offset(argv, k) + |argv[k]|] == 0
  }

  /** The list fits: execv's assertions hold. */
  predicate Fits(argv: seq<seq<Octet>>) {
    argv == [] || Offset(argv, |argv|) < PROC_ORIGIN_STACK
  }

  /** The bytes of all strings, each with its zero. */
  function Bytes(argv: seq<seq<Octet>>): nat {
    if argv == [] then 0 else Bytes(argv[..|argv| - 1]) + |argv[|argv| - 1]| + 1
  }

  lemma {:induction false} OffsetIsBytes(argv: seq<seq<Octet>>, k: nat)
    requires k <= |argv|
    ensures Offset(argv, k) == 4 * (|argv| + 1) + Bytes(argv[..k])
  {
    if k > 0 {
      OffsetIsBytes(argv, k - 1);
      assert argv[..k][..k - 1] == argv[..k - 1];
    }
  }

  /** A list that is not empty fits exactly if its pointers, with the null pointer, and its strings have together fewer
      than 1024 bytes. */
  lemma FitsIff(argv: seq<seq<Octet>>)
    ensures Fits(argv) <==> argv == [] || 4 * (|argv| + 1) + Bytes(argv) < 1024
  {
    OffsetIsBytes(argv, |argv|);
    assert argv[..|argv|] == argv;
  }

  // ---------- what a program finds ----------

  /** The string that starts at i. */
  function StringAt(b: seq<Octet>, i: nat): seq<Octet>
    requires i <= |b|
    decreases |b| - i
  {
    if i == |b| || b[i] == 0 then [] else [b[i]] + StringAt(b, i + 1)
  }

  lemma {:induction false} StringAtIs(b: seq<Octet>, i: nat, s: seq<Octet>)
    requires IsString(s) && i + |s| < |b| && b[i..i + |s|] == s && b[i + |s|] == 0
    ensures StringAt(b, i) == s
    decreases |s|
  {
    if s != [] {
      assert b[i] == s[0] && b[i + 1..i + 1 + |s[1..]|] == s[1..];
      StringAtIs(b, i + 1, s[1..]);
    }
  }

  /** The number of pointers in front of the null pointer. */
  function PointerCount(b: seq<Octet>, k: nat): nat
    requires PTR * k <= |b|
    decreases |b| - PTR * k
  {
    if PTR * k + PTR > |b| || WordAt(b, PTR * k) == 0 then k else PointerCount(b, k + 1)
  }

  /** The argument list as a program reads it: it follows the pointers, in a block at base, up to the null pointer. */
  function ReadArgs(b: seq<Octet>, base: nat, k: nat): seq<seq<Octet>>
    requires PTR * k <= |b|
    decreases |b| - PTR * k
  {
    if PTR * k + PTR > |b| || WordAt(b, PTR * k) == 0 then []
    else
      var at := WordAt(b, PTR * k) - base;
      [if 0 <= at <= |b| then StringAt(b, at) else []] + ReadArgs(b, base, k + 1)
  }

  lemma BlockEntry(b: seq<Octet>, argv: seq<seq<Octet>>, base: nat, k: nat)
    requires IsBlock(b, argv, base) && AreStrings(argv) && k < |argv|
    ensures PTR * k + PTR <= |b| && WordAt(b, PTR * k) - base == Offset(argv, k) && WordAt(b, PTR * k) > 0
    ensures Offset(argv, k) <= |b| && StringAt(b, Offset(argv, k)) == argv[k]
  {
    hide WordAt, StringAt, Offset;
    OffsetMonotone(argv, k, |argv|);
    assert HasString(b, argv, k);
    assert WordAt(b, PTR * k) == base + Offset(argv, k);
    StringAtIs(b, Offset(argv, k), argv[k]);
  }

  lemma BlockEnd(b: seq<Octet>, argv: seq<seq<Octet>>, base: nat)
    requires IsBlock(b, argv, base)
    ensures PTR * |argv| + PTR <= |b| && WordAt(b, PTR * |argv|) == 0
  {
  }

  /** A program that reads a block finds the argument list it was laid out for. */
  lemma {:induction false} ReadBack(b: seq<Octet>, argv: seq<seq<Octet>>, base: nat, k: nat)
    requires IsBlock(b, argv, base) && AreStrings(argv) && k <= |argv|
    ensures PTR * k <= |b| && PointerCount(b, k) == |argv| && ReadArgs(b, base, k) == argv[k..]
    decreases |argv| - k
  {
    hide IsBlock, AreStrings, Offset, WordAt, StringAt;
    BlockEnd(b, argv, base);
    if k < |argv| {
      BlockEntry(b, argv, base, k);
      ReadBack(b, argv, base, k + 1);
      assert argv[k..] == [argv[k]] + argv[k + 1..];
    }
  }

  /** Every pointer of a block leads into the block. */
  lemma PointersInside(b: seq<Octet>, argv: seq<seq<Octet>>, base: nat, k: nat)
    requires IsBlock(b, argv, base) && k < |argv|
    ensures base <= WordAt(b, PTR * k) && WordAt(b, PTR * k) + |argv[k]| < base + |b|
  {
    OffsetMonotone(argv, k, |argv|);
    assert WordAt(b, PTR * k) == base + Offset(argv, k);
  }

  // ---------- relocation ----------

  /** Moving a block: the pointers change by the distance, and nothing else does. */
  lemma Relocated(b: seq<Octet>, argv: seq<seq<Octet>>, base: nat, c: seq<Octet>, base': nat)
    requires IsBlock(b, argv, base) && |c| == |b|
    requires forall k: nat :: k < |argv| ==> WordAt(c, PTR * k) == WordAt(b, PTR * k) + base' - base
    requires forall i :: PTR * |argv| <= i < |b| ==> c[i] == b[i]
    ensures IsBlock(c, argv, base')
  {
    forall k: nat | k < |argv|
      ensures HasString(c, argv, k)
    {
      OffsetMonotone(argv, k, |argv|);
      assert HasString(b, argv, k);
      assert c[Offset(argv, k)..Offset(argv, k) + |argv[k]|] == b[Offset(argv, k)..Offset(argv, k) + |argv[k]|];
    }
    forall k: nat | k < |argv|
      ensures WordAt(c, PTR * k) == base' + Offset(argv, k)
    {
      assert WordAt(b, PTR * k) == base + Offset(argv, k);
    }
  }
}
