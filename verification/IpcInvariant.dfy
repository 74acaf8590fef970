/** Every kernel step keeps the invariant of the rendezvous protocol. */
module IpcInvariant {
  import opened ProcTable
  import opened SendGraph
  import opened IpcSpec

  lemma InitialInv()
    ensures Inv(INITIAL)
  {
    assert forall p :: !HasEdge(Edges(INITIAL), p);
    assert forall a: int, k: nat :: 0 < k ==> !Walk(Edges(INITIAL), a, a, k);
  }

  // ---------- removing one pid from a list ----------

  lemma {:induction false} WithoutNoDup(q: seq<int>, x: int)
    requires NoDup(q)
    ensures NoDup(Without(q, x))
  {
    if q != [] {
      WithoutNoDup(q[1..], x);
      assert q[0] !in q[1..];
    }
  }

  lemma {:induction false} WithoutAbsent(q: seq<int>, x: int)
    requires x !in q
    ensures Without(q, x) == q
  {
    if q != [] {
      WithoutAbsent(q[1..], x);
    }
  }

  /** In a list without repetitions, removing the element at k closes the gap and keeps the order. */
  lemma {:induction false} WithoutSplices(q: seq<int>, k: nat)
    requires NoDup(q) && k < |q|
    ensures Without(q, q[k]) == q[..k] + q[k+1..]
  {
    if k == 0 {
      WithoutAbsent(q[1..], q[0]);
    } else {
      WithoutSplices(q[1..], k - 1);
      assert q[1..][k - 1] == q[k];
      assert q[1..][..k - 1] == q[1..k];
      assert q[1..][k..] == q[k+1..];
      assert q[..k] == [q[0]] + q[1..k];
    }
  }

  // ---------- steps ----------

  /** A send that the cycle test rejects is exactly one that would make the sending graph cyclic. */
  lemma SendClosesCycle(st: State, s: int, d: int, m: int)
    requires Inv(st) && IsPid(s) && IsPid(d) && st.procs[s].flags == {}
    requires !Accepts(st.procs[d], s)
    ensures Acyclic(Edges(Send(st, s, d, m))) <==> !Reaches(Edges(st), d, s)
  {
    AddEdgeAcyclic(Edges(st), s, d);
    assert Edges(Send(st, s, d, m)) == Edges(st)[s := d];
  }

  lemma SendKeepsInv(st: State, s: int, d: int, m: int)
    requires Inv(st) && IsPid(s) && IsPid(d) && s != d && m != 0
    requires st.procs[s].flags == {}
    requires !Reaches(Edges(st), d, s)
    ensures Inv(Send(st, s, d, m))
  {
    var st' := Send(st, s, d, m);
    if Accepts(st.procs[d], s) {
      assert Edges(st') == Edges(st);
      assert forall e :: IsPid(e) ==> QueueExact(st, e);
      assert forall a, b :: Sends(st', a, b) <==> Sends(st, a, b);
    } else {
      SendClosesCycle(st, s, d, m);
      assert !Sends(st, s, d) && QueueExact(st, d);
      assert s !in st.queues[d];
      assert forall a, b :: Sends(st', a, b) <==> Sends(st, a, b) || (a == s && b == d);
      forall e | IsPid(e)
        ensures QueueExact(st', e)
      {
        assert QueueExact(st, e);
      }
    }
  }

  lemma ReceiveKeepsInv(st: State, r: int, src: int, m: int)
    requires Inv(st) && IsPid(r) && r != src && m != 0
    requires IsPid(src) || src == ANY || src == INTERRUPT
    requires st.procs[r].flags == {}
    ensures Inv(Receive(st, r, src, m))
  {
    var st' := Receive(st, r, src, m);
    var f := Chosen(st, r, src);
    assert f != NO_TASK ==> f in st.queues[r] && Sends(st, f, r) by {
      assert QueueExact(st, r);
    }
    if st.procs[r].intPending && (src == ANY || src == INTERRUPT) {
      assert Edges(st') == Edges(st);
      assert forall a, b :: Sends(st', a, b) <==> Sends(st, a, b);
      assert forall e :: IsPid(e) ==> QueueExact(st, e);
    } else if IsPid(f) {
      SubgraphAcyclic(Edges(st), Edges(st'));
      assert forall a, b :: Sends(st', a, b) <==> Sends(st, a, b) && a != f;
      WithoutNoDup(st.queues[r], f);
      forall e | IsPid(e)
        ensures QueueExact(st', e)
      {
        assert QueueExact(st, e);
      }
    } else {
      forall s | Sends(st, s, r)
        ensures s != src && src != ANY
      {
        assert QueueExact(st, r) && s in st.queues[r] && st.queues[r][0] in st.queues[r];
      }
      assert Edges(st') == Edges(st);
      assert forall a, b :: Sends(st', a, b) <==> Sends(st, a, b);
      assert forall e :: IsPid(e) ==> QueueExact(st, e);
    }
  }

  lemma InformKeepsInv(st: State, t: int)
    requires Inv(st) && IsPid(t)
    ensures Inv(Inform(st, t))
  {
    var st' := Inform(st, t);
    assert Edges(st') == Edges(st);
    assert forall a, b :: Sends(st', a, b) <==> Sends(st, a, b);
    assert forall e :: IsPid(e) ==> QueueExact(st, e);
  }

  lemma AbortKeepsInv(st: State, pid: int, retval: int)
    requires Inv(st) && IsPid(pid)
    ensures Inv(Abort(st, pid, retval))
  {
    hide Abort, QueueExact, SlotOk, NoMissedRendezvous, Acyclic, Edges;
    AbortSlots(st, pid, retval);
    AbortGraph(st, pid, retval);
    forall e | IsPid(e)
      ensures QueueExact(Abort(st, pid, retval), e)
    {
      AbortQueue(st, pid, retval, e);
    }
  }

  lemma AbortSends(st: State, pid: int, retval: int)
    requires Inv(st) && IsPid(pid)
    ensures var st' := Abort(st, pid, retval);
      Shape(st') && forall a, b :: Sends(st', a, b) <==> Sends(st, a, b) && a != pid && b != pid
  {
  }

  lemma AbortSlots(st: State, pid: int, retval: int)
    requires Inv(st) && IsPid(pid)
    ensures var st' := Abort(st, pid, retval);
      Shape(st') && (forall i :: IsPid(i) ==> SlotOk(st'.procs[i])) && NoMissedRendezvous(st')
  {
    hide QueueExact, Acyclic;
    AbortSends(st, pid, retval);
  }

  lemma AbortGraph(st: State, pid: int, retval: int)
    requires Inv(st) && IsPid(pid)
    ensures Shape(Abort(st, pid, retval)) && Acyclic(Edges(Abort(st, pid, retval)))
  {
    hide QueueExact, NoMissedRendezvous;
    SubgraphAcyclic(Edges(st), Edges(Abort(st, pid, retval)));
  }

  lemma AbortQueue(st: State, pid: int, retval: int, e: int)
    requires Inv(st) && IsPid(pid) && IsPid(e)
    ensures Shape(Abort(st, pid, retval)) && QueueExact(Abort(st, pid, retval), e)
  {
    hide SlotOk, NoMissedRendezvous, Acyclic;
    AbortSends(st, pid, retval);
    assert QueueExact(st, e);
    WithoutNoDup(st.queues[e], pid);
  }

  /** Nothing in the table still refers to pid, and nothing will: no later send can match it. */
  lemma AbortIsolates(st: State, pid: int, retval: int)
    requires Inv(st) && IsPid(pid)
    ensures var st' := Abort(st, pid, retval);
      && st'.queues[pid] == []
      && (forall d :: IsPid(d) ==> pid !in st'.queues[d])
      && (forall s :: !Sends(st', s, pid))
      && (forall p :: IsPid(p) ==> !(Receiving in st'.procs[p].flags && st'.procs[p].recvFrom == pid))
      && st'.procs[pid].flags != {}
      && (forall s :: IsPid(s) ==> !Accepts(st'.procs[pid], s))
      && !AcceptsInterrupt(st'.procs[pid])
    // the other lists keep their members and their order
    ensures forall d :: IsPid(d) && d != pid ==>
      Abort(st, pid, retval).queues[d] == Without(st.queues[d], pid)
    // and slots with no tie to pid keep everything
    ensures forall i | IsPid(i) && i != pid && !Sends(st, i, pid)
        && !(Receiving in st.procs[i].flags && st.procs[i].recvFrom == pid) ::
      Abort(st, pid, retval).procs[i] == st.procs[i]
  {
    AbortKeepsInv(st, pid, retval);
    var st' := Abort(st, pid, retval);
    assert forall d :: IsPid(d) ==> QueueExact(st', d);
  }

  /** The family tree sees nothing of a teardown but the flags of pid itself. */
  lemma AbortTreeFlags(st: State, pid: int, retval: int)
    requires Shape(st) && IsPid(pid)
    ensures var st' := Abort(st, pid, retval);
      && st'.procs[pid].flags == {Receiving}
      && forall i, f :: IsPid(i) && i != pid && f in {Waiting, Hanging, FreeSlot} ==>
        (f in st'.procs[i].flags <==> f in st.procs[i].flags)
  {
  }

  /** fork copies the slot with its list head and its own state: it keeps the invariant exactly when
      neither slot has waiting senders and the parent itself is not one. */
  lemma ForkKeepsInvIff(st: State, parent: int, child: int)
    requires Inv(st) && IsPid(parent) && IsPid(child)
    requires FreeSlot !in st.procs[parent].flags && FreeSlot in st.procs[child].flags
    ensures Inv(Fork(st, parent, child)) <==>
      st.queues[parent] == [] && st.queues[child] == [] && Sending !in st.procs[parent].flags
  {
    var st' := Fork(st, parent, child);
    assert QueueExact(st, parent) && QueueExact(st, child);
    if st.queues[parent] == [] && st.queues[child] == [] && Sending !in st.procs[parent].flags {
      SubgraphAcyclic(Edges(st), Edges(st'));
      assert forall a, b :: Sends(st', a, b) <==> Sends(st, a, b);
      forall e | IsPid(e)
        ensures QueueExact(st', e)
      {
        assert QueueExact(st, e);
      }
    } else if st.queues[parent] != [] {
      var s := st.queues[parent][0];
      assert s in st.queues[parent] && Sends(st, s, parent);
      assert s in st'.queues[child] && !Sends(st', s, child);
      assert !QueueExact(st', child);
    } else if st.queues[child] != [] {
      var s := st.queues[child][0];
      assert s in st.queues[child] && Sends(st, s, child);
      assert Sends(st', s, child) && s !in st'.queues[child];
      assert !QueueExact(st', child);
    } else {
      var d := st.procs[parent].sendTo;
      assert QueueExact(st, d) && !Sends(st, child, d);
      assert Sends(st, parent, d) && parent in st.queues[d];
      assert Sends(st', child, d) && child !in st'.queues[d];
      assert !QueueExact(st', d);
    }
  }

  /** It can fail from the very first calls: TestA sends to INIT, then INIT forks. */
  lemma ForkCanBreakInv(m: int)
    requires m != 0
    ensures Inv(Send(INITIAL, 7, INIT, m))
    ensures !Inv(Fork(Send(INITIAL, 7, INIT, m), INIT, 10))
  {
    InitialInv();
    assert !HasEdge(Edges(INITIAL), INIT);
    assert forall k: nat :: !Walk(Edges(INITIAL), INIT, 7, k);
    SendKeepsInv(INITIAL, 7, INIT, m);
    ForkKeepsInvIff(Send(INITIAL, 7, INIT, m), INIT, 10);
  }

  /** The memory manager's changes to WAITING, HANGING and FREE_SLOT. */
  ghost predicate FlagsChangeOk(st: State, p: int, flags: set<Flag>)
    requires Shape(st) && IsPid(p)
  {
    var s := st.procs[p];
    // do_wait marks a caller that is, or is about to be, blocked on the memory manager
    || (flags == s.flags + {Waiting} && p != TASK_MM
        && (s.flags == {} || (s.flags == {Receiving} && s.recvFrom == TASK_MM)))
    // the parent's wait is over
    || (flags == s.flags - {Waiting})
    // a torn down process becomes a zombie, a zombie or a torn down process becomes a free slot
    || (s.flags - {Hanging} == {Receiving} && s.recvFrom == NO_TASK
        && (flags == {Receiving, Hanging} || flags == {FreeSlot}))
  }

  lemma SetFlagsKeepsInv(st: State, p: int, flags: set<Flag>)
    requires Inv(st) && IsPid(p) && FlagsChangeOk(st, p, flags)
    ensures Inv(SetFlags(st, p, flags))
  {
    var st' := SetFlags(st, p, flags);
    assert SlotOk(st.procs[p]);
    assert Sending in st.procs[p].flags <==> Sending in flags;
    assert Edges(st') == Edges(st);
    assert forall a, b :: Sends(st', a, b) <==> Sends(st, a, b);
    assert forall e :: IsPid(e) ==> QueueExact(st, e);
  }

  lemma WriteKeepsInv(st: State, p: int, address: int, m: Message)
    requires Inv(st) && IsPid(p)
    ensures Inv(Write(st, p, address, m))
  {
    var st' := Write(st, p, address, m);
    assert Edges(st') == Edges(st);
    assert forall a, b :: Sends(st', a, b) <==> Sends(st, a, b);
    assert forall e :: IsPid(e) ==> QueueExact(st, e);
  }

  lemma StampFacts(st: State, p: int, m: int)
    requires Inv(st) && IsPid(p) && st.procs[p].flags == {}
    ensures Inv(Stamp(st, p, m)) && Edges(Stamp(st, p, m)) == Edges(st)
    ensures forall q :: IsPid(q) && q != p ==> Stamp(st, p, m).procs[q] == st.procs[q]
    ensures forall a, b :: Sends(Stamp(st, p, m), a, b) <==> Sends(st, a, b)
  {
    WriteKeepsInv(st, p, m, Load(st.procs[p].mem, m).(source := p));
  }
}
