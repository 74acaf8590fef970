/** execv's argument block, and its move into the new program by do_exec. */
module Args {
  import opened Constants
  import opened ArgSpec

  method StoreWord(a: array<Octet>, i: nat, w: int)
    requires i + PTR <= a.Length && 0 <= w < U32
    modifies a
    ensures WordAt(a[..], i) == w
    ensures forall k :: 0 <= k < a.Length && !(i <= k < i + PTR) ==> a[k] == old(a[k])
  {
    a[i], a[i + 1], a[i + 2], a[i + 3] := ByteOf(w, 0), ByteOf(w, 1), ByteOf(w, 2), ByteOf(w, 3);
    WordOfBytes(a[..], i, w);
  }

  lemma WordSame(b: seq<Octet>, c: seq<Octet>, i: nat)
    requires i + PTR <= |b| && i + PTR <= |c| && b[i..i + PTR] == c[i..i + PTR]
    ensures WordAt(b, i) == WordAt(c, i)
  {
    var v, w := b[i..i + PTR], c[i..i + PTR];
    assert v[0] == w[0] && v[1] == w[1] && v[2] == w[2] && v[3] == w[3];
  }

  /** A whole block at the front of a buffer. */
  lemma BlockInFront(b: seq<Octet>, argv: seq<seq<Octet>>, base: nat)
    requires PTR * (|argv| + 1) <= Offset(argv, |argv|) <= |b| && HasPointers(b, argv, base, |argv|)
    requires WordAt(b, PTR * |argv|) == 0 && HasStrings(b, argv, |argv|)
    ensures IsBlock(b[..Offset(argv, |argv|)], argv, base)
  {
    hide WordAt, HasString, Offset;
    var c := b[..Offset(argv, |argv|)];
    forall k: nat | k <= |argv|
      ensures WordAt(c, PTR * k) == WordAt(b, PTR * k)
    {
      assert b[PTR * k..PTR * k + PTR] == c[PTR * k..PTR * k + PTR];
      WordSame(b, c, PTR * k);
    }
    forall k: nat | k < |argv|
      ensures HasString(c, argv, k)
    {
      StringInFront(b, argv, k);
    }
  }

  lemma StringInFront(b: seq<Octet>, argv: seq<seq<Octet>>, k: nat)
    requires k < |argv| && Offset(argv, |argv|) <= |b| && HasString(b, argv, k)
    ensures HasString(b[..Offset(argv, |argv|)], argv, k)
  {
    var c := b[..Offset(argv, |argv|)];
    OffsetMonotone(argv, k, |argv|);
    assert k + 1 < |argv| ==> Offset(argv, k + 1) <= Offset(argv, |argv|) by {
      if k + 1 < |argv| { OffsetMonotone(argv, k + 1, |argv|); }
    }
    assert c[Offset(argv, k)..Offset(argv, k) + |argv[k]|] == b[Offset(argv, k)..Offset(argv, k) + |argv[k]|];
  }

  /** Room for the pointers and their terminator, the latter stored. */
  method StackPointers(argv: seq<seq<Octet>>, argStack: array<Octet>) returns (ok: bool, stackLen: nat)
    requires argStack.Length == PROC_ORIGIN_STACK
    modifies argStack
    ensures !ok ==> !Fits(argv)
    ensures ok ==> stackLen == PTR * (|argv| + 1) < PROC_ORIGIN_STACK && WordAt(argStack[..], PTR * |argv|) == 0
  {
    stackLen := 0;
    var p := 0;
    while p < |argv|
      invariant p <= |argv| && stackLen == PTR * p
      invariant p > 0 ==> stackLen + PTR < PROC_ORIGIN_STACK
    {
      if stackLen + 2 * PTR >= PROC_ORIGIN_STACK {
        return false, 0;
      }
      stackLen := stackLen + PTR;
      p := p + 1;
    }
    StoreWord(argStack, stackLen, 0);
    stackLen := stackLen + PTR;
    ok := true;
  }

  /** Byte k belongs to the p-th pointer or the p-th string. */
  predicate IsPart(argv: seq<seq<Octet>>, p: nat, k: int)
    requires p < |argv|
  {
    PTR * p <= k < PTR * p + PTR || Offset(argv, p) <= k < Offset(argv, p + 1)
  }

  /** Store the p-th pointer and the p-th string. */
  method StackString(argv: seq<seq<Octet>>, p: nat, argStack: array<Octet>, base: nat)
    requires p < |argv| && argStack.Length == PROC_ORIGIN_STACK && base + PROC_ORIGIN_STACK <= U32
    requires Offset(argv, p + 1) < PROC_ORIGIN_STACK && PTR * (|argv| + 1) < PROC_ORIGIN_STACK
    modifies argStack
    ensures WordAt(argStack[..], PTR * p) == base + Offset(argv, p) && HasString(argStack[..], argv, p)
    ensures forall k :: 0 <= k < argStack.Length && !IsPart(argv, p, k) ==> argStack[k] == old(argStack[k])
  {
    var stackLen := Offset(argv, p);
    StoreWord(argStack, PTR * p, base + stackLen);
    ghost var was := argStack[..];
    var s := argv[p];
    forall k | 0 <= k < |s| {
      argStack[stackLen + k] := s[k];
    }
    argStack[stackLen + |s|] := 0;
    assert argStack[stackLen..stackLen + |s|] == s;
    assert argStack[..][stackLen..stackLen + |s|] == argStack[stackLen..stackLen + |s|];
    assert argStack[..][PTR * p..PTR * p + PTR] == was[PTR * p..PTR * p + PTR];
    WordSame(was, argStack[..], PTR * p);
  }

  /** What StackString leaves alone of the block so far. */
  lemma BlockGrows(b: seq<Octet>, c: seq<Octet>, argv: seq<seq<Octet>>, base: nat, p: nat)
    requires p < |argv| && |c| == |b| && Offset(argv, p + 1) <= |b| && PTR * (|argv| + 1) <= |b|
    requires HasPointers(b, argv, base, p) && HasStrings(b, argv, p) && WordAt(b, PTR * |argv|) == 0
    requires WordAt(c, PTR * p) == base + Offset(argv, p) && HasString(c, argv, p)
    requires forall k :: 0 <= k < |b| && !IsPart(argv, p, k) ==> c[k] == b[k]
    ensures HasPointers(c, argv, base, p + 1) && HasStrings(c, argv, p + 1) && WordAt(c, PTR * |argv|) == 0
  {
    hide WordAt;
    forall k: nat | k <= |argv| && k != p
      ensures WordAt(c, PTR * k) == WordAt(b, PTR * k)
    {
      assert b[PTR * k..PTR * k + PTR] == c[PTR * k..PTR * k + PTR];
      WordSame(b, c, PTR * k);
    }
    forall k: nat | k < p
      ensures HasString(c, argv, k)
    {
      OffsetMonotone(argv, k, p);
      assert HasString(b, argv, k);
      assert c[Offset(argv, k)..Offset(argv, k) + |argv[k]|] == b[Offset(argv, k)..Offset(argv, k) + |argv[k]|];
    }
  }

  /** Build the argument block in argStack, which lies at base. ok says that no assertion has stopped the program. */
  method Execv(argv: seq<seq<Octet>>, argStack: array<Octet>, base: nat) returns (ok: bool, stackLen: nat)
    requires argStack.Length == PROC_ORIGIN_STACK && base + PROC_ORIGIN_STACK <= U32
    modifies argStack
    ensures ok <==> Fits(argv)
    ensures ok ==> stackLen <= PROC_ORIGIN_STACK && IsBlock(argStack[..stackLen], argv, base)
  {
    ok, stackLen := StackPointers(argv, argStack);
    if !ok {
      return;
    }
    var p := 0;
    while p < |argv|
      invariant p <= |argv| && stackLen == Offset(argv, p) < PROC_ORIGIN_STACK
      invariant HasPointers(argStack[..], argv, base, p) && HasStrings(argStack[..], argv, p)
      invariant WordAt(argStack[..], PTR * |argv|) == 0
    {
      if stackLen + |argv[p]| + 1 >= PROC_ORIGIN_STACK {
        OffsetMonotone(argv, p, |argv|);
        return false, 0;
      }
      ghost var was := argStack[..];
      StackString(argv, p, argStack, base);
      BlockGrows(was, argStack[..], argv, base, p);
      stackLen := stackLen + |argv[p]| + 1;
      p := p + 1;
    }
    BlockInFront(argStack[..], argv, base);
    assert argStack[..][..stackLen] == argStack[..stackLen];
  }

  // ---------- do_exec ----------

  /** Relocate the pointers of the block by delta, up to the null pointer, and count them. */
  method Relocate(stackcopy: array<Octet>, delta: int) returns (argc: nat)
    requires PTR * PointerCount(stackcopy[..], 0) + PTR <= stackcopy.Length
    modifies stackcopy
    ensures argc == old(PointerCount(stackcopy[..], 0)) && PTR * argc + PTR <= stackcopy.Length
    ensures forall k: nat :: k < argc ==>
      WordAt(stackcopy[..], PTR * k) == (old(WordAt(stackcopy[..], PTR * k)) + delta) % U32
    ensures forall i :: PTR * argc <= i < stackcopy.Length ==> stackcopy[i] == old(stackcopy[i])
  {
    hide WordAt;
    ghost var was := stackcopy[..];
    argc := 0;
    while WordAt(stackcopy[..], PTR * argc) != 0
      invariant PTR * argc + PTR <= stackcopy.Length && PointerCount(was, argc) == PointerCount(was, 0)
      invariant WordAt(stackcopy[..], PTR * argc) == WordAt(was, PTR * argc)
      invariant forall k: nat :: k < argc ==> WordAt(stackcopy[..], PTR * k) == (WordAt(was, PTR * k) + delta) % U32
      invariant forall i :: PTR * argc <= i < stackcopy.Length ==> stackcopy[i] == was[i]
      decreases stackcopy.Length - PTR * argc
    {
      ghost var before := stackcopy[..];
      StoreWord(stackcopy, PTR * argc, (WordAt(stackcopy[..], PTR * argc) + delta) % U32);
      CountedOnce(was, argc);
      WordsKept(before, stackcopy[..], argc);
      argc := argc + 1;
      assert was[PTR * argc..PTR * argc + PTR] == stackcopy[..][PTR * argc..PTR * argc + PTR];
      WordSame(was, stackcopy[..], PTR * argc);
    }
  }

  lemma {:induction false} CountAtLeast(b: seq<Octet>, k: nat)
    requires PTR * k <= |b|
    ensures k <= PointerCount(b, k)
    decreases |b| - PTR * k
  {
    if PTR * k + PTR <= |b| && WordAt(b, PTR * k) != 0 {
      CountAtLeast(b, k + 1);
    }
  }

  lemma CountedOnce(b: seq<Octet>, k: nat)
    requires PTR * k + PTR <= |b| && WordAt(b, PTR * k) != 0
    ensures PointerCount(b, k) == PointerCount(b, k + 1) >= k + 1
  {
    CountAtLeast(b, k + 1);
  }

  lemma WordsKept(b: seq<Octet>, c: seq<Octet>, n: nat)
    requires |b| == |c| && PTR * n <= |b| && forall i :: 0 <= i < PTR * n ==> c[i] == b[i]
    ensures forall k: nat :: k < n ==> WordAt(c, PTR * k) == WordAt(b, PTR * k)
  {
    hide WordAt;
    forall k: nat | k < n
      ensures WordAt(c, PTR * k) == WordAt(b, PTR * k)
    {
      assert b[PTR * k..PTR * k + PTR] == c[PTR * k..PTR * k + PTR];
      WordSame(b, c, PTR * k);
    }
  }

  /** Move the block of len bytes that the caller has at buf to the top of the new image, which is stack. The block
      has the arguments argv, or is empty. */
  method DoExec(block: seq<Octet>, buf: nat, stack: array<Octet>, ghost argv: seq<seq<Octet>>) returns (argc: nat)
    requires stack.Length == PROC_ORIGIN_STACK && |block| <= PROC_ORIGIN_STACK && buf + |block| <= U32
    requires if block == [] then argv == [] else IsBlock(block, argv, buf) && AreStrings(argv)
    modifies stack
    ensures argc == |argv|
    ensures block != [] ==> IsBlock(stack[..|block|], argv, ORIG_STACK)
    ensures forall i :: |block| <= i < stack.Length ==> stack[i] == old(stack[i])
  {
    hide WordAt, IsBlock, Offset, PointerCount, ReadArgs, AreStrings;
    var stackcopy := new Octet[|block|](i requires 0 <= i < |block| => block[i]);
    assert stackcopy[..] == block;
    var delta := ORIG_STACK - buf;
    argc := 0;
    if |block| != 0 {
      ReadBack(block, argv, buf, 0);
      BlockEnd(block, argv, buf);
      argc := Relocate(stackcopy, delta);
      BlockMoved(block, argv, buf, stackcopy[..]);
    }
    ghost var moved := stackcopy[..];
    forall i | 0 <= i < |block| {
      stack[i] := stackcopy[i];
    }
    assert stack[..|block|] == moved;
  }

  /** The relocation is exact: no pointer of the block wraps around. */
  lemma BlockMoved(b: seq<Octet>, argv: seq<seq<Octet>>, base: nat, c: seq<Octet>)
    requires IsBlock(b, argv, base) && |c| == |b| <= PROC_ORIGIN_STACK
    requires forall k: nat :: k < |argv| ==> WordAt(c, PTR * k) == (WordAt(b, PTR * k) + (ORIG_STACK - base)) % U32
    requires forall i :: PTR * |argv| <= i < |b| ==> c[i] == b[i]
    ensures IsBlock(c, argv, ORIG_STACK)
  {
    assert b[PTR * |argv|..PTR * |argv| + PTR] == c[PTR * |argv|..PTR * |argv| + PTR];
    WordSame(b, c, PTR * |argv|);
    forall k: nat | k < |argv|
      ensures WordAt(c, PTR * k) == WordAt(b, PTR * k) + ORIG_STACK - base
    {
      PointersInside(b, argv, base, k);
    }
    Relocated(b, argv, base, c, ORIG_STACK);
  }

  /** End to end: whatever list execv accepts, the new program finds, as many arguments as there were, each pointer
      in its own stack area and each string unchanged. */
  method ExecvThenRun(argv: seq<seq<Octet>>, argStack: array<Octet>, base: nat, stack: array<Octet>)
    returns (ok: bool, argc: nat, len: nat)
    requires argStack.Length == stack.Length == PROC_ORIGIN_STACK && base + PROC_ORIGIN_STACK <= U32
    requires AreStrings(argv) && argStack != stack
    modifies argStack, stack
    ensures ok <==> Fits(argv)
    ensures ok ==> len <= PROC_ORIGIN_STACK && IsBlock(stack[..len], argv, ORIG_STACK)
    ensures ok ==> argc == |argv| && ReadArgs(stack[..len], ORIG_STACK, 0) == argv
  {
    hide WordAt, IsBlock, Offset, ReadArgs, AreStrings, Fits;
    argc := 0;
    ok, len := Execv(argv, argStack, base);
    if ok {
      BlockNotEmpty(argStack[..len], argv, base);
      argc := DoExec(argStack[..len], base, stack, argv);
      ReadBack(stack[..len], argv, ORIG_STACK, 0);
      assert argv[0..] == argv;
    }
  }

  lemma BlockNotEmpty(b: seq<Octet>, argv: seq<seq<Octet>>, base: nat)
    requires IsBlock(b, argv, base)
    ensures b != []
  {
  }
}
