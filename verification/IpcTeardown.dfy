/** The teardown of a process, stage by stage, and what the stages come to together. */
module IpcTeardown {
  import opened ProcTable
  import opened SendGraph
  import opened IpcSpec
  import opened IpcInvariant
  import opened SendLists

  /** Everybody in q is released. */
  function ReleaseAll(procs: seq<ProcState>, q: seq<int>): (r: seq<ProcState>)
    requires |procs| == NR_SLOTS && AllPids(q)
    ensures |r| == NR_SLOTS
    ensures forall i :: IsPid(i) ==> r[i] == if i in q then Released(procs[i]) else procs[i]
    decreases q
  {
    if q == [] then procs else ReleaseAll(procs[q[0] := Released(procs[q[0]])], q[1..])
  }

  function UnlinkAll(next: seq<int>, q: seq<int>): (r: seq<int>)
    requires |next| == NR_SLOTS && AllPids(q)
    ensures |r| == NR_SLOTS
    ensures forall i :: IsPid(i) ==> r[i] == if i in q then NIL else next[i]
    decreases q
  {
    if q == [] then next else UnlinkAll(next[q[0] := NIL], q[1..])
  }

  /** Stage 1: everybody in the list of pid runs again. */
  function Woken(st: State, pid: int, q: seq<int>): State
    requires Shape(st) && IsPid(pid) && AllPids(q)
  {
    State(ReleaseAll(st.procs, q), st.queues[pid := []])
  }

  function WokenLinks(l: Links, pid: int, q: seq<int>): Links
    requires |l.head| == |l.next| == NR_SLOTS && IsPid(pid) && AllPids(q)
  {
    Links(l.head[pid := NIL], UnlinkAll(l.next, q))
  }

  /** Stage 2: pid leaves the list it stands in. */
  function Withdrawn(st: State, pid: int): State
    requires Shape(st) && IsPid(pid)
  {
    var d := st.procs[pid].sendTo;
    if Sending in st.procs[pid].flags && IsPid(d)
    then st.(queues := st.queues[d := Without(st.queues[d], pid)])
    else st
  }

  /** Stage 3: pid is blocked in a receive that nothing can complete. */
  function Reset(st: State, pid: int): State
    requires Shape(st) && IsPid(pid)
  {
    st.(procs := st.procs[pid := st.procs[pid].(
      flags := {Receiving}, sendTo := NO_TASK, recvFrom := NO_TASK, msg := 0, intPending := false)])
  }

  /** Stage 4: whoever waits for pid gets an error answer; whoever still sends to it runs again. */
  function AnsweredReceiver(p: ProcState, pid: int, retval: int): ProcState {
    if Receiving in p.flags && p.recvFrom == pid then
      if p.msg != 0 then Completed(p, Load(p.mem, p.msg).(kind := SYSCALL_RET, retval := retval))
      else p.(flags := p.flags - {Receiving}, recvFrom := NO_TASK, msg := 0)
    else p
  }

  function AnsweredSender(p: ProcState, pid: int): ProcState {
    if Sending in p.flags && p.sendTo == pid then Released(p) else p
  }

  function Answered(p: ProcState, pid: int, retval: int): ProcState {
    AnsweredSender(AnsweredReceiver(p, pid, retval), pid)
  }

  /** The first n slots have been gone through. */
  function AnsweredUpTo(st: State, pid: int, retval: int, n: nat): (r: State)
    requires Shape(st) && n <= NR_SLOTS
    ensures Shape(r) && r.queues == st.queues
    ensures forall i :: IsPid(i) ==> r.procs[i] == if i < n then Answered(st.procs[i], pid, retval) else st.procs[i]
  {
    if n == 0 then st
    else
      var r := AnsweredUpTo(st, pid, retval, n - 1);
      r.(procs := r.procs[n - 1 := Answered(r.procs[n - 1], pid, retval)])
  }

  lemma NoSelfSend(st: State, pid: int)
    requires Inv(st)
    ensures !Sends(st, pid, pid)
  {
    if Sends(st, pid, pid) {
      LoopIsWalk(Edges(st), pid);
    }
  }

  lemma AbortInStages(st: State, pid: int, retval: int)
    requires Inv(st) && IsPid(pid) && AllPids(st.queues[pid])
    ensures AnsweredUpTo(Reset(Withdrawn(Woken(st, pid, st.queues[pid]), pid), pid), pid, retval, NR_SLOTS)
         == Abort(st, pid, retval)
  {
    assert QueueExact(st, pid);
    var s1 := Woken(st, pid, st.queues[pid]);
    var s2 := Withdrawn(s1, pid);
    var st' := Abort(st, pid, retval);
    NoSelfSend(st, pid);
    forall i | IsPid(i)
      ensures Answered(Reset(s2, pid).procs[i], pid, retval) == st'.procs[i]
    {
      assert SlotOk(st.procs[i]);
    }
    forall d | IsPid(d)
      ensures s2.queues[d] == st'.queues[d]
    {
      assert QueueExact(st, d);
      if !Sends(st, pid, d) {
        WithoutAbsent(st.queues[d], pid);
      }
    }
    assert s2.queues == st'.queues;
  }

  lemma WokenLists(l: Links, queues: seq<seq<int>>, pid: int)
    requires Lists(l, queues) && Disjoint(queues) && IsPid(pid) && AllPids(queues[pid])
    ensures Lists(WokenLinks(l, pid, queues[pid]), queues[pid := []])
  {
    var l' := WokenLinks(l, pid, queues[pid]);
    forall e | IsPid(e) && e != pid
      ensures ListIs(l', e, queues[e])
    {
      assert ListIs(l, e, queues[e]);
      ListUntouched(l, l', e, queues[e]);
    }
  }

  lemma UnlinkedLists(l: Links, queues: seq<seq<int>>, pid: int)
    requires Lists(l, queues) && IsPid(pid)
    requires forall d :: IsPid(d) ==> pid !in queues[d]
    ensures Lists(l.(next := l.next[pid := NIL]), queues)
  {
    var l' := l.(next := l.next[pid := NIL]);
    forall e | IsPid(e)
      ensures ListIs(l', e, queues[e])
    {
      assert ListIs(l, e, queues[e]) && pid !in queues[e];
      ListUntouched(l, l', e, queues[e]);
    }
  }

  /** Between the first two stages the links still describe the lists, and pid can be found where it stands. */
  lemma BeforeWithdrawal(st: State, l: Links, pid: int)
    requires Inv(st) && Lists(l, st.queues) && IsPid(pid)
    ensures AllPids(st.queues[pid])
    ensures var s1, l1 := Woken(st, pid, st.queues[pid]), WokenLinks(l, pid, st.queues[pid]);
      && Lists(l1, s1.queues) && Disjoint(s1.queues)
      && (Sending in s1.procs[pid].flags && IsPid(s1.procs[pid].sendTo) ==>
            CanSplice(l1, s1.queues, s1.procs[pid].sendTo, pid))
    ensures forall d :: IsPid(d) ==> pid !in Withdrawn(Woken(st, pid, st.queues[pid]), pid).queues[d]
    ensures forall i :: IsPid(i) ==>
      !Sends(Reset(Withdrawn(Woken(st, pid, st.queues[pid]), pid), pid), i, pid)
  {
    hide NoMissedRendezvous, Acyclic, CanSplice, WokenLinks;
    InvDisjoint(st);
    assert ListIs(l, pid, st.queues[pid]) && QueueExact(st, pid) && SlotOk(st.procs[pid]);
    NoSelfSend(st, pid);
    WokenLists(l, st.queues, pid);
    var s1 := Woken(st, pid, st.queues[pid]);
    var d := st.procs[pid].sendTo;
    if Sends(st, pid, d) {
      assert QueueExact(st, d) && pid in st.queues[d];
      ListsCanSplice(WokenLinks(l, pid, st.queues[pid]), s1.queues, d, pid);
    }
    forall e | IsPid(e) ensures pid !in Withdrawn(s1, pid).queues[e] { assert QueueExact(st, e); }
  }

  /** x stands in the list of d, and can be spliced out of it wherever it stands. */
  ghost predicate CanSplice(l: Links, queues: seq<seq<int>>, d: int, x: int) {
    && LinksShape(l) && |queues| == NR_SLOTS && IsPid(d)
    && ListIs(l, d, queues[d]) && AllPids(queues[d]) && NoDup(queues[d]) && x in queues[d]
    && forall k: nat :: k < |queues[d]| && queues[d][k] == x ==>
      Lists(Spliced(l, d, queues[d], k), queues[d := Without(queues[d], x)])
  }

  lemma ListsCanSplice(l: Links, queues: seq<seq<int>>, d: int, x: int)
    requires Lists(l, queues) && Disjoint(queues) && IsPid(d) && x in queues[d]
    ensures CanSplice(l, queues, d, x)
  {
    assert ListIs(l, d, queues[d]);
    forall k: nat | k < |queues[d]| && queues[d][k] == x
      ensures Lists(Spliced(l, d, queues[d], k), queues[d := Without(queues[d], x)])
    {
      SplicedLists(l, queues, d, k);
    }
  }
}
