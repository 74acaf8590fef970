/** Runs of a bitmap that are in use, and what allocating and freeing does to them. */
module Extents {
  import opened Bitmap

  ghost predicate RunFree(bits: Bits, s: nat, n: nat) {
    s + n <= |bits| && forall i :: s <= i < s + n ==> !bits[i]
  }

  /** The map after the n bits from s on have been set. */
  function Filled(bits: Bits, s: nat, n: nat): (r: Bits)
    ensures |r| == |bits|
    ensures forall i :: 0 <= i < |bits| ==> r[i] == (bits[i] || s <= i < s + n)
  {
    seq(|bits|, i requires 0 <= i < |bits| => bits[i] || s <= i < s + n)
  }

  /** Setting a free run and clearing it again restores the map. */
  lemma FillThenClear(bits: Bits, s: nat, n: nat)
    requires RunFree(bits, s, n)
    ensures Cleared(Filled(bits, s, n), s, n) == bits
  {
  }

  // ---------- what is allocated ----------

  /** The runs given out and not yet taken back: their lengths, by the first bit. */
  type Live = map<nat, nat>

  ghost predicate Covered(live: Live, i: nat) {
    exists s :: s in live && s <= i < s + live[s]
  }

  /** The map shows exactly the live runs, and they do not overlap. */
  ghost predicate Exact(bits: Bits, live: Live) {
    && (forall s :: s in live ==> 0 < live[s] && s + live[s] <= |bits|)
    && (forall s, t :: s in live && t in live && s != t ==> s + live[s] <= t || t + live[t] <= s)
    && (forall i: nat :: i < |bits| ==> (bits[i] <==> Covered(live, i)))
  }

  lemma CoveredByMore(live: Live, s: nat, n: nat, i: nat)
    requires s !in live
    ensures Covered(live[s := n], i) <==> Covered(live, i) || s <= i < s + n
  {
    var live' := live[s := n];
    if s <= i < s + n {
      assert s in live' && live'[s] == n;
    } else if Covered(live, i) {
      var t :| t in live && t <= i < t + live[t];
      assert t in live' && live'[t] == live[t];
    }
  }

  lemma CoveredByFewer(live: Live, s: nat, i: nat)
    requires s in live
    requires forall t :: t in live && t != s ==> s + live[s] <= t || t + live[t] <= s
    ensures Covered(live - {s}, i) <==> Covered(live, i) && !(s <= i < s + live[s])
  {
    var live' := live - {s};
    if Covered(live, i) && !(s <= i < s + live[s]) {
      var t :| t in live && t <= i < t + live[t];
      assert t in live' && live'[t] == live[t];
    }
  }

  /** Whatever lies in a free run is apart from all that is live. */
  lemma FreeRunIsApart(bits: Bits, live: Live, s: nat, n: nat, t: nat)
    requires Exact(bits, live) && RunFree(bits, s, n) && 0 < n && t in live
    ensures s + n <= t || t + live[t] <= s
  {
    var i := if s <= t then t else s;
    assert i < t + live[t] ==> Covered(live, i);
  }

  lemma KeysAreSet(bits: Bits, live: Live)
    requires Exact(bits, live)
    ensures forall s :: s in live ==> bits[s]
  {
    forall s | s in live
      ensures bits[s]
    {
      assert Covered(live, s);
    }
  }

  lemma AllocateKeepsExact(bits: Bits, live: Live, s: nat, n: nat)
    requires Exact(bits, live) && RunFree(bits, s, n) && 0 < n
    ensures s !in live && Exact(Filled(bits, s, n), live[s := n])
  {
    forall t | t in live
      ensures s + n <= t || t + live[t] <= s
    {
      FreeRunIsApart(bits, live, s, n, t);
    }
    forall i: nat | i < |bits|
      ensures Filled(bits, s, n)[i] <==> Covered(live[s := n], i)
    {
      CoveredByMore(live, s, n, i);
    }
  }

  lemma FreeKeepsExact(bits: Bits, live: Live, s: nat)
    requires Exact(bits, live) && s in live
    ensures Exact(Cleared(bits, s, live[s]), live - {s})
  {
    forall i: nat | i < |bits|
      ensures Cleared(bits, s, live[s])[i] <==> Covered(live - {s}, i)
    {
      CoveredByFewer(live, s, i);
    }
  }

  // ---------- files ----------

  /** With all bits of the run free, marking the first n free bits is marking the run. */
  lemma MarkedIsFilled(bits: Bits, n: nat)
    requires n <= Clears(bits) && Contiguous(bits, n)
    ensures Marked(bits, n) == Filled(bits, FirstClear(bits), n)
  {
    hide Clears, Marked, Filled, FirstClear;
    forall i | 0 <= i < |bits|
      ensures Marked(bits, n)[i] == Filled(bits, FirstClear(bits), n)[i]
    {
      MarkedInRun(bits, n, i);
    }
  }

  lemma MarkedInRun(bits: Bits, n: nat, i: nat)
    requires n <= Clears(bits) && Contiguous(bits, n) && i < |bits|
    ensures Marked(bits, n)[i] == (bits[i] || FirstClear(bits) <= i < FirstClear(bits) + n)
  {
    hide Clears, Marked, FirstClear;
    var s := FirstClear(bits);
    ClearsBeforeFirst(bits);
    RunIsMarked(bits, n);
    MarkedAt(bits, n, i);
    if s + n <= i {
      ClearsWithin(bits, s, s + n);
      ClearsWithin(bits, s + n, i);
    }
  }

  /** Allocating n bits and freeing the run of n that starts with the first of them restores the map exactly
      when that run was clear to begin with. Otherwise bits of other files are freed and bits are lost. */
  lemma AllocateThenFreeIff(bits: Bits, n: nat)
    requires n <= Clears(bits)
    ensures Cleared(Marked(bits, n), FirstClear(bits), n) == bits <==> Contiguous(bits, n)
  {
    var s := FirstClear(bits);
    RunIsMarked(bits, n);
    if Contiguous(bits, n) {
      MarkedIsFilled(bits, n);
      FillThenClear(bits, s, n);
    } else {
      var i :| s <= i < s + n && bits[i];
      assert !Cleared(Marked(bits, n), s, n)[i];
    }
  }

  /** A sector in use within n of the first free one: it is freed with the file, although it belongs to another, and
      some sector that was free stays marked for good. */
  lemma FreeingHitsOthers(bits: Bits, n: nat, used: nat) returns (lost: nat)
    requires n <= Clears(bits) && FirstClear(bits) <= used < FirstClear(bits) + n && used < |bits| && bits[used]
    ensures var r := Cleared(Marked(bits, n), FirstClear(bits), n);
      !r[used] && lost < |bits| && !bits[lost] && r[lost]
  {
    hide Clears, Marked, FirstClear;
    var s := FirstClear(bits);
    RunIsMarked(bits, n);
    ClearsBeforeFirst(bits);
    ClearsWithin(bits, s, s + n);
    lost := NextClear(bits, s + n, n);
    MarkedAt(bits, n, lost);
  }

  /** Fewer than n clear bits come before from, so one comes later; the first that does has fewer than n before it. */
  lemma NextClear(bits: Bits, from: nat, n: nat) returns (i: nat)
    requires from <= |bits| && Clears(bits[..from]) < n <= Clears(bits)
    ensures from <= i < |bits| && !bits[i] && Clears(bits[..i]) < n
    decreases |bits| - from
  {
    assert bits[..|bits|] == bits;
    ClearsWithin(bits, from, |bits|);
    if !bits[from] {
      i := from;
    } else {
      ClearsWithin(bits, from, from + 1);
      i := NextClear(bits, from + 1, n);
    }
  }

  /** Creating a file keeps the sector map exact and the files apart exactly if the n sectors from the first free one
      on are all free. If not, the new file shares sectors with an old one. */
  lemma CreateKeepsExactIff(bits: Bits, files: Live, n: nat)
    requires Exact(bits, files) && 0 < n <= Clears(bits)
    ensures FirstClear(bits) !in files
    ensures Exact(Marked(bits, n), files[FirstClear(bits) := n]) <==> Contiguous(bits, n)
  {
    hide Clears, Marked, FirstClear, Covered;
    var s := FirstClear(bits);
    RunIsMarked(bits, n);
    KeysAreSet(bits, files);
    if Contiguous(bits, n) {
      MarkedIsFilled(bits, n);
      AllocateKeepsExact(bits, files, s, n);
    } else {
      var i :| s <= i < s + n && bits[i];
      SharedIsNotExact(bits, files, s, n, i, Marked(bits, n));
    }
  }

  lemma SharedIsNotExact(bits: Bits, files: Live, s: nat, n: nat, i: nat, bits': Bits)
    requires Exact(bits, files) && s !in files && s <= i < s + n && i < |bits| && bits[i]
    ensures !Exact(bits', files[s := n])
  {
    assert Covered(files, i);
    var t :| t in files && t <= i < t + files[t];
    var files' := files[s := n];
    assert s in files' && t in files' && s != t;
    assert !(s + files'[s] <= t || t + files'[t] <= s);
  }

  /** Removing a file keeps the map exact. */
  lemma UnlinkKeepsExact(bits: Bits, files: Live, s: nat)
    requires Exact(bits, files) && s in files
    ensures Exact(Cleared(bits, s, files[s]), files - {s})
  {
    FreeKeepsExact(bits, files, s);
  }
}
