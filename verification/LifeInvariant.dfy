/** Fork, exit, kill and wait keep the family tree whole. */
module LifeInvariant {
  import opened ProcTable
  import opened LifeSpec

  lemma BornInv(roots: set<int>)
    requires RootsOk(roots)
    ensures LifeInv(Born(), roots)
  {
  }

  // ---------- fork ----------

  lemma {:induction false} ForkDescends(l: Life, roots: set<int>, caller: int, p: int, k: nat)
    requires Family(l, roots) && IsPid(caller) && FirstFree(l, 0) < NR_SLOTS
    requires p in roots || (FIRST_FORKED <= p < NR_SLOTS && !Free(l, p))
    requires RootsOk(roots) && Descends(l.parent, roots, p, k)
    ensures Descends(Fork(l, caller).parent, roots, p, k)
    decreases k
  {
    if k > 0 {
      assert !Free(l, p) && Live(l, l.parent[p]);
      assert k == 1 ==> l.parent[p] in roots;
      assert k > 1 ==> FIRST_FORKED <= l.parent[p] < NR_SLOTS;
      ForkDescends(l, roots, caller, l.parent[p], k - 1);
    }
  }

  lemma ForkKeepsInv(l: Life, roots: set<int>, caller: int)
    requires LifeInv(l, roots) && RootsOk(roots)
    requires caller in roots || FIRST_FORKED <= caller < NR_SLOTS
    requires Live(l, caller)
    ensures LifeInv(Fork(l, caller), roots)
    ensures FirstFree(l, 0) >= FIRST_FORKED
  {
    hide Fork, DescendsFrom, Family, NoMissedExit;
    ForkTakesForkedSlot(l, roots);
    ForkKeepsFamily(l, roots, caller);
    ForkMissesNoExit(l, roots, caller);
  }

  lemma ForkTakesForkedSlot(l: Life, roots: set<int>)
    requires Family(l, roots)
    ensures FirstFree(l, 0) >= FIRST_FORKED
  {
    assert FirstFree(l, 0) < FIRST_FORKED ==> Live(l, FirstFree(l, 0));
  }

  lemma ForkMissesNoExit(l: Life, roots: set<int>, caller: int)
    requires Family(l, roots) && NoMissedExit(l) && IsPid(caller) && Live(l, caller)
    ensures NoMissedExit(Fork(l, caller))
  {
    hide DescendsFrom;
    ForkTakesForkedSlot(l, roots);
    var c, l' := FirstFree(l, 0), Fork(l, caller);
    assert FlagsOk(l.flags[caller]);
    assert c < NR_SLOTS ==> !Live(l, c) && forall i :: IsPid(i) ==> l.parent[i] != c;
    forall q, p | IsPid(q) && Waiting in l'.flags[q]
      ensures !ZombieOf(l', q, p)
    {
      assert p != c ==> !ZombieOf(l, q, p) || q == c;
    }
  }

  lemma ForkKeepsFamily(l: Life, roots: set<int>, caller: int)
    requires Family(l, roots) && NoMissedExit(l) && RootsOk(roots)
    requires caller in roots || FIRST_FORKED <= caller < NR_SLOTS
    requires Live(l, caller)
    ensures Family(Fork(l, caller), roots)
  {
    hide NoMissedExit;
    ForkTakesForkedSlot(l, roots);
    var c, l' := FirstFree(l, 0), Fork(l, caller);
    if c < NR_SLOTS {
      assert Free(l, c) && !Live(l, c);
      assert forall p :: IsPid(p) ==> (Live(l', p) <==> Live(l, p) || p == c);
      assert forall i :: IsPid(i) ==> l.parent[i] != c;
      if caller in roots {
        assert Descends(l.parent, roots, caller, 0);
      }
      forall p | FIRST_FORKED <= p < NR_SLOTS && !Free(l', p)
        ensures IsPid(l'.parent[p]) && Live(l', l'.parent[p]) && DescendsFrom(l'.parent, roots, p)
      {
        var from := if p == c then caller else p;
        assert from in roots || !Free(l, from);
        var k: nat :| Descends(l.parent, roots, from, k);
        ForkDescends(l, roots, caller, from, k);
        assert Descends(l'.parent, roots, p, if p == c then k + 1 else k);
        assert l'.parent[p] != c;
      }
    }
  }

  // ---------- exit and kill ----------

  lemma {:induction false} ReparentedDescends(parent: seq<int>, roots: set<int>, pid: int, p: int, k: nat)
      returns (j: nat)
    requires |parent| == NR_SLOTS && RootsOk(roots) && Descends(parent, roots, p, k)
    ensures Descends(Reparented(parent, pid), roots, p, j)
    decreases k
  {
    if k == 0 {
      return 0;
    }
    if parent[p] == pid {
      assert Descends(Reparented(parent, pid), roots, INIT, 0);
      return 1;
    }
    j := ReparentedDescends(parent, roots, pid, parent[p], k - 1);
    j := j + 1;
  }

  lemma ExitFlags(l: Life, roots: set<int>, pid: int, status: int)
    requires LifeInv(l, roots) && RootsOk(roots)
    requires FIRST_FORKED <= pid < NR_SLOTS && !Free(l, pid)
    ensures var l' := Exit(l, pid, status);
      && LifeShape(l') && l'.parent == Reparented(l.parent, pid)
      && !Live(l', pid)
      && forall p :: IsPid(p) && p != pid ==>
        && (Live(l', p) <==> Live(l, p))
        && (Free(l, p) ==> Free(l', p))
        && (Free(l', p) && !Free(l, p) ==> ZombieOf(l, pid, p))
  {
    hide DescendsFrom, Depart, Adopt;
    var q := l.parent[pid];
    assert Live(l, q);
    DepartFlags(Silenced(l, pid), pid, status);
    AdoptFlags(Depart(Silenced(l, pid), pid, status), pid);
  }

  lemma AdoptFlags(l: Life, pid: int)
    requires LifeShape(l)
    ensures var l' := Adopt(l, pid);
      && LifeShape(l') && l'.parent == Reparented(l.parent, pid)
      && (forall p :: IsPid(p) ==>
            || l'.flags[p] == l.flags[p] || l'.flags[p] == l.flags[p] - {Waiting}
            || (l'.flags[p] == {FreeSlot} && ZombieOf(l, pid, p)))
  {
  }

  /** The dying process ends up as a zombie or as a free slot, and its parent may be waiting no more. */
  lemma DepartFlags(l: Life, pid: int, status: int)
    requires LifeShape(l) && IsPid(pid) && IsPid(l.parent[pid]) && l.flags[pid] == {Receiving}
    ensures var l' := Depart(l, pid, status);
      && LifeShape(l') && l'.parent == l.parent && !Live(l', pid)
      && (forall p :: IsPid(p) && p != pid ==> l'.flags[p] == l.flags[p] || l'.flags[p] == l.flags[p] - {Waiting})
  {
  }

  lemma ExitKeepsFamily(l: Life, roots: set<int>, pid: int, status: int)
    requires LifeInv(l, roots) && RootsOk(roots)
    requires FIRST_FORKED <= pid < NR_SLOTS && !Free(l, pid)
    ensures Family(Exit(l, pid, status), roots)
  {
    var l' := Exit(l, pid, status);
    ExitFlags(l, roots, pid, status);
    forall p | FIRST_FORKED <= p < NR_SLOTS && !Free(l', p)
      ensures IsPid(l'.parent[p]) && Live(l', l'.parent[p]) && DescendsFrom(l'.parent, roots, p)
    {
      assert !Free(l, p);
      var k: nat :| Descends(l.parent, roots, p, k);
      var j := ReparentedDescends(l.parent, roots, pid, p, k);
      assert Live(l, l.parent[p]) && Live(l, INIT);
    }
    forall p, c | FIRST_FORKED <= p < NR_SLOTS && IsPid(c) && !Live(l', p)
      ensures l'.parent[c] != p
    {
      assert p != pid ==> !Live(l, p);
    }
  }

  lemma ExitKeepsInv(l: Life, roots: set<int>, pid: int, status: int)
    requires LifeInv(l, roots) && RootsOk(roots)
    requires FIRST_FORKED <= pid < NR_SLOTS && !Free(l, pid)
    ensures LifeInv(Exit(l, pid, status), roots)
  {
    ExitKeepsFamily(l, roots, pid, status);
    var l' := Exit(l, pid, status);
    var q := l.parent[pid];
    assert Live(l, q);
    var l1 := Depart(Silenced(l, pid), pid, status);
    assert forall p :: IsPid(p) ==> FlagsOk(l1.flags[p]);
    forall r, p | IsPid(r) && Waiting in l'.flags[r]
      ensures !ZombieOf(l', r, p)
    {
      assert Waiting in l.flags[r] && Waiting in l1.flags[r] && r != pid;
      assert !ZombieOf(l, r, p);
      assert r == INIT ==> !ZombieOf(l1, pid, p);
      assert IsPid(p) && Hanging in l'.flags[p] ==> Hanging in l1.flags[p];
      assert IsPid(p) && p != pid && Hanging in l1.flags[p] ==> Hanging in l.flags[p];
      assert p == pid && Hanging in l1.flags[p] ==> r != q;
    }
  }

  // ---------- wait ----------

  lemma WaitKeepsInv(l: Life, roots: set<int>, caller: int)
    requires LifeInv(l, roots) && RootsOk(roots) && IsPid(caller) && Live(l, caller)
    ensures LifeInv(Wait(l, caller), roots)
  {
    var l' := Wait(l, caller);
    assert forall p :: IsPid(p) ==> (Live(l', p) <==> Live(l, p));
    assert forall p :: IsPid(p) && !Free(l', p) ==> !Free(l, p);
    assert forall q, p :: IsPid(q) && Waiting in l'.flags[q] && ZombieOf(l', q, p) ==> ZombieOf(l, q, p);
  }
}
