/** Messages and the family tree together: the flags of a slot belong to both, and neither breaks the other. */
module LifeIpc {
  import opened ProcTable
  import opened SendGraph
  import opened IpcSpec
  import opened IpcInvariant
  import opened LifeSpec
  import opened LifeInvariant
  import IpcRuns
  import LifeRuns

  function FlagsOf(st: State): (flags: seq<set<Flag>>)
    requires Shape(st)
    ensures |flags| == NR_SLOTS
  {
    seq(NR_SLOTS, i requires 0 <= i < NR_SLOTS => st.procs[i].flags)
  }

  function WithFlags(st: State, flags: seq<set<Flag>>): (st': State)
    requires Shape(st) && |flags| == NR_SLOTS
    ensures Shape(st') && FlagsOf(st') == flags
  {
    st.(procs := seq(NR_SLOTS, i requires 0 <= i < NR_SLOTS => st.procs[i].(flags := flags[i])))
  }

  lemma OwnFlags(st: State)
    requires Shape(st)
    ensures WithFlags(st, FlagsOf(st)) == st
  {
  }

  /** A change of one slot's flags that keeps the messages in order. */
  lemma OneChange(st: State, flags: seq<set<Flag>>, p: int, f: set<Flag>)
    requires Shape(st) && |flags| == NR_SLOTS && IsPid(p) && Inv(WithFlags(st, flags))
    requires FlagsChangeOk(WithFlags(st, flags), p, f)
    ensures Inv(WithFlags(st, flags[p := f]))
  {
    hide Inv, FlagsChangeOk;
    SetFlagsKeepsInv(WithFlags(st, flags), p, f);
    assert SetFlags(WithFlags(st, flags), p, f) == WithFlags(st, flags[p := f]);
  }

  // ---------- messages, as the family tree sees them ----------

  /** The flags of the tree are the same in both, and free slots have the same flags. */
  ghost predicate TreeSame(st: State, st': State) {
    && Shape(st) && Shape(st')
    && forall p :: IsPid(p) ==> SlotSame(st.procs[p].flags, st'.procs[p].flags)
  }

  predicate SlotSame(flags: set<Flag>, flags': set<Flag>) {
    && (Waiting in flags <==> Waiting in flags') && (Hanging in flags <==> Hanging in flags')
    && (FreeSlot in flags <==> FreeSlot in flags') && (FreeSlot in flags ==> flags' == flags)
  }

  lemma SendTree(st: State, s: int, d: int, m: int)
    requires Shape(st) && IsPid(s) && IsPid(d) && st.procs[s].flags == {} && FreeSlot !in st.procs[d].flags
    ensures TreeSame(st, Send(st, s, d, m))
  {
  }

  lemma ReceiveTree(st: State, r: int, src: int, m: int)
    requires Shape(st) && IsPid(r) && st.procs[r].flags == {}
    requires forall p :: IsPid(p) ==> SlotOk(st.procs[p])
    requires st.queues[r] != [] ==> Sends(st, st.queues[r][0], r)
    ensures TreeSame(st, Receive(st, r, src, m))
  {
    hide Without, Load;
    var f := Chosen(st, r, src);
    if IsPid(f) {
      assert SlotOk(st.procs[f]) && Sends(st, f, r);
    }
  }

  lemma StampTree(st: State, p: int, m: int)
    requires Shape(st) && IsPid(p)
    ensures Shape(Stamp(st, p, m)) && TreeSame(st, Stamp(st, p, m))
    ensures forall q :: IsPid(q) ==> Stamp(st, p, m).procs[q].flags == st.procs[q].flags
  {
  }

  lemma InformTree(st: State, t: int)
    requires Shape(st) && IsPid(t) && SlotOk(st.procs[t])
    ensures TreeSame(st, Inform(st, t))
  {
  }

  lemma StepTree(st: State, op: IpcRuns.Op)
    requires Inv(st) && IpcRuns.Enabled(st, op) && (op.OpSend? || op.OpReceive? || op.OpInform? || op.OpWrite?)
    ensures TreeSame(st, IpcRuns.Next(st, op))
  {
    hide Inv, Send, Receive, Stamp, Inform, SlotOk, TreeSame, Reaches, FlagsChangeOk;
    InvShape(st);
    match op
    case OpSend(s, d, m) =>
      StampTree(st, s, m);
      SendTree(Stamp(st, s, m), s, d, m);
      TreeTrans(st, Stamp(st, s, m), Send(Stamp(st, s, m), s, d, m));
    case OpReceive(r, src, m) =>
      StampTree(st, r, m);
      ReceiveReady(st, r, m);
      ReceiveTree(Stamp(st, r, m), r, src, m);
      TreeTrans(st, Stamp(st, r, m), Receive(Stamp(st, r, m), r, src, m));
    case OpInform(t) => InvShapeAt(st, t); InformTree(st, t);
    case OpWrite(p, address, msg) => WriteTree(st, p, address, msg);
  }

  lemma TreeTrans(st: State, st1: State, st2: State)
    requires TreeSame(st, st1) && TreeSame(st1, st2)
    ensures TreeSame(st, st2)
  {
  }

  lemma WriteTree(st: State, p: int, address: int, m: Message)
    requires Shape(st) && IsPid(p)
    ensures TreeSame(st, Write(st, p, address, m))
  {
  }

  lemma InvShapeAt(st: State, p: int)
    requires Inv(st) && IsPid(p)
    ensures Shape(st) && SlotOk(st.procs[p])
  {
  }

  lemma ReceiveReady(st: State, r: int, m: int)
    requires Inv(st) && IsPid(r) && st.procs[r].flags == {}
    ensures var st1 := Stamp(st, r, m);
      && Shape(st1) && (forall p :: IsPid(p) ==> SlotOk(st1.procs[p]))
      && (st1.queues[r] != [] ==> Sends(st1, st1.queues[r][0], r))
  {
    StampFacts(st, r, m);
    var st1 := Stamp(st, r, m);
    assert QueueExact(st1, r);
    assert st1.queues[r] != [] ==> st1.queues[r][0] in st1.queues[r];
  }

  /** Sending, receiving and interrupts are traffic: they leave the flags of the tree alone, and free slots. */
  lemma StepIsTraffic(st: State, l: Life, roots: set<int>, op: IpcRuns.Op)
    requires Inv(st) && IpcRuns.Enabled(st, op) && (op.OpSend? || op.OpReceive? || op.OpInform? || op.OpWrite?)
    requires LifeShape(l) && l.flags == FlagsOf(st)
    ensures Shape(IpcRuns.Next(st, op))
    ensures LifeRuns.Enabled(l, roots, LifeRuns.OpTraffic(FlagsOf(IpcRuns.Next(st, op))))
  {
    hide Inv, IpcRuns.Next, IpcRuns.Enabled;
    StepTree(st, op);
  }

  /** The teardown of pid is traffic for all others, and leaves pid with the flags that the tree expects. */
  lemma AbortIsSilence(st: State, l: Life, roots: set<int>, pid: int, retval: int)
    requires Inv(st) && IsPid(pid) && LifeShape(l) && l.flags == FlagsOf(st)
    ensures var st1 := Abort(st, pid, retval);
      && Shape(st1)
      && var l1 := l.(flags := FlagsOf(st1)[pid := l.flags[pid]]);
      && LifeRuns.Enabled(l, roots, LifeRuns.OpTraffic(l1.flags))
      && Silenced(l1, pid).flags == FlagsOf(st1)
  {
    hide Acyclic, NoMissedRendezvous, Without, QueueExact;
    AbortTreeFlags(st, pid, retval);
    forall p | IsPid(p)
      ensures SlotOk(st.procs[p])
    {
    }
  }

  // ---------- the family tree, as the messages see it ----------

  /** A zombie, or a process just torn down, is released. */
  lemma ReleaseKeepsIpc(st: State, flags: seq<set<Flag>>, p: int)
    requires Shape(st) && |flags| == NR_SLOTS && IsPid(p) && Inv(WithFlags(st, flags))
    requires Hanging in flags[p] || (flags[p] == {Receiving} && st.procs[p].recvFrom == NO_TASK)
    ensures Inv(WithFlags(st, flags[p := {FreeSlot}]))
  {
    hide Acyclic, NoMissedRendezvous, QueueExact;
    assert SlotOk(WithFlags(st, flags).procs[p]);
    OneChange(st, flags, p, {FreeSlot});
  }

  lemma StopKeepsIpc(st: State, flags: seq<set<Flag>>, p: int)
    requires Shape(st) && |flags| == NR_SLOTS && IsPid(p) && Inv(WithFlags(st, flags))
    ensures Inv(WithFlags(st, flags[p := flags[p] - {Waiting}]))
  {
    hide Inv;
    OneChange(st, flags, p, flags[p] - {Waiting});
  }

  lemma DepartKeepsIpc(st: State, l: Life, pid: int, status: int)
    requires Shape(st) && LifeShape(l) && Inv(WithFlags(st, l.flags)) && IsPid(pid) && IsPid(l.parent[pid])
    requires l.flags[pid] == {Receiving} && st.procs[pid].recvFrom == NO_TASK
    ensures Inv(WithFlags(st, Depart(l, pid, status).flags))
  {
    hide Inv;
    var q := l.parent[pid];
    if Waiting in l.flags[q] {
      StopKeepsIpc(st, l.flags, q);
      ReleaseKeepsIpc(st, l.flags[q := l.flags[q] - {Waiting}], pid);
    } else {
      OneChange(st, l.flags, pid, {Receiving, Hanging});
      assert l.flags[pid] + {Hanging} == {Receiving, Hanging};
    }
  }

  lemma AdoptKeepsIpc(st: State, l: Life, pid: int)
    requires Shape(st) && LifeShape(l) && Inv(WithFlags(st, l.flags))
    ensures LifeShape(Adopt(l, pid)) && Inv(WithFlags(st, Adopt(l, pid).flags))
  {
    hide Inv;
    var z := FirstZombie(l, pid, 0);
    if Waiting in l.flags[INIT] && z < NR_SLOTS {
      StopKeepsIpc(st, l.flags, INIT);
      ReleaseKeepsIpc(st, l.flags[INIT := l.flags[INIT] - {Waiting}], z);
    }
  }

  /** A whole exit: the teardown of the messages, then what it changes in the tree. The messages stay in order all the
      way, and the flags end up as the tree has them. */
  lemma ExitKeepsIpc(st: State, l: Life, roots: set<int>, pid: int, status: int)
    requires Inv(st) && LifeInv(l, roots) && l.flags == FlagsOf(st)
    requires FIRST_FORKED <= pid < NR_SLOTS && !Free(l, pid)
    ensures var st1 := Abort(st, pid, -1);
      && Shape(st1)
      && var l1 := l.(flags := FlagsOf(st1)[pid := l.flags[pid]]);
      && LifeRuns.Enabled(l, roots, LifeRuns.OpTraffic(l1.flags)) && IsPid(l1.parent[pid])
      && LifeShape(Exit(l1, pid, status)) && Inv(WithFlags(st1, Exit(l1, pid, status).flags))
  {
    hide Inv, Abort, NoMissedExit, FlagsOf, WithFlags, Silenced, Depart, Adopt;
    ParentOf(l, roots, pid);
    InvShape(st);
    AbortIsSilence(st, l, roots, pid, -1);
    AbortKeepsInv(st, pid, -1);
    TornSlot(st, pid);
    var st1 := Abort(st, pid, -1);
    OwnFlags(st1);
    var l1 := Silenced(l.(flags := FlagsOf(st1)[pid := l.flags[pid]]), pid);
    SilencedShape(l.(flags := FlagsOf(st1)[pid := l.flags[pid]]), pid);
    DepartKeepsIpc(st1, l1, pid, status);
    DepartShape(l1, pid, status);
    AdoptKeepsIpc(st1, Depart(l1, pid, status), pid);
  }

  lemma ParentOf(l: Life, roots: set<int>, pid: int)
    requires LifeInv(l, roots) && FIRST_FORKED <= pid < NR_SLOTS && !Free(l, pid)
    ensures LifeShape(l) && IsPid(l.parent[pid])
  {
  }

  lemma InvShape(st: State)
    requires Inv(st)
    ensures Shape(st)
  {
  }

  lemma LifeInvShape(l: Life, roots: set<int>)
    requires LifeInv(l, roots)
    ensures LifeShape(l)
  {
  }

  lemma TornSlot(st: State, pid: int)
    requires Shape(st) && IsPid(pid)
    ensures Shape(Abort(st, pid, -1)) && Abort(st, pid, -1).procs[pid].recvFrom == NO_TASK
  {
  }

  lemma SilencedShape(l: Life, pid: int)
    requires LifeShape(l) && IsPid(pid)
    ensures LifeShape(Silenced(l, pid)) && Silenced(l, pid).parent == l.parent
    ensures Silenced(l, pid).flags[pid] == {Receiving}
  {
  }

  lemma DepartShape(l: Life, pid: int, status: int)
    requires LifeShape(l) && IsPid(pid) && IsPid(l.parent[pid])
    ensures LifeShape(Depart(l, pid, status))
  {
  }

  /** A wait that is served: the caller has asked the memory manager, and is about to receive the answer or does. */
  lemma WaitKeepsIpc(st: State, l: Life, caller: int)
    requires Inv(st) && LifeShape(l) && l.flags == FlagsOf(st) && IsPid(caller) && caller != TASK_MM
    requires l.flags[caller] == {} || (l.flags[caller] == {Receiving} && st.procs[caller].recvFrom == TASK_MM)
    ensures LifeShape(Wait(l, caller)) && Inv(WithFlags(st, Wait(l, caller).flags))
  {
    hide Inv;
    InvShape(st);
    OwnFlags(st);
    var z := FirstZombie(l, caller, 0);
    if z < NR_SLOTS {
      ReleaseKeepsIpc(st, l.flags, z);
    } else if HasChildSlot(l, caller) {
      OneChange(st, l.flags, caller, l.flags[caller] + {Waiting});
    }
  }

  /** A fork gives both the same flags, but the messages stay in order exactly if nobody is sending to either slot, and
      the parent to nobody. */
  lemma ForkKeepsIpcIff(st: State, l: Life, roots: set<int>, caller: int)
    requires Inv(st) && LifeInv(l, roots) && l.flags == FlagsOf(st)
    requires IsPid(caller) && Live(l, caller) && FirstFree(l, 0) < NR_SLOTS
    ensures LifeShape(LifeSpec.Fork(l, caller))
    ensures var st' := IpcSpec.Fork(st, caller, FirstFree(l, 0));
      && Shape(st') && FlagsOf(st') == LifeSpec.Fork(l, caller).flags
      && (Inv(st') <==> st.queues[caller] == [] && st.queues[FirstFree(l, 0)] == [] && Sending !in l.flags[caller])
  {
    hide Acyclic, NoMissedRendezvous, Family, NoMissedExit;
    LifeInvShape(l, roots);
    var c := FirstFree(l, 0);
    ForkKeepsInvIff(st, caller, c);
  }

  // ---------- both together, over every run ----------

  datatype System = System(st: State, l: Life)

  datatype Act =
    | Passes(op: IpcRuns.Op)               // a message, an interrupt, or a process writing its memory
    | Forks(caller: int)
    | Ends(pid: int, status: int)          // exit, or kill with status -1
    | Waits(caller: int)

  ghost predicate InStep(s: System, roots: set<int>) {
    Inv(s.st) && LifeInv(s.l, roots) && s.l.flags == FlagsOf(s.st)
  }

  ghost predicate CanAct(s: System, roots: set<int>, a: Act)
    requires InStep(s, roots)
  {
    match a
    case Passes(op) => IpcRuns.Enabled(s.st, op) && (op.OpSend? || op.OpReceive? || op.OpInform? || op.OpWrite?)
    case Forks(caller) =>
      && IsPid(caller) && Live(s.l, caller) && (caller in roots || FIRST_FORKED <= caller)
      && FirstFree(s.l, 0) < NR_SLOTS && s.st.queues[caller] == [] && s.st.queues[FirstFree(s.l, 0)] == []
      && Sending !in s.l.flags[caller]
    case Ends(pid, _) => FIRST_FORKED <= pid < NR_SLOTS && !Free(s.l, pid)
    case Waits(caller) =>
      && IsPid(caller) && caller != TASK_MM
      && (s.l.flags[caller] == {} || (s.l.flags[caller] == {Receiving} && s.st.procs[caller].recvFrom == TASK_MM))
  }

  /** The tree once the messages of pid are torn down, with the flags of all others as the teardown leaves them. */
  function Quieted(s: System, pid: int): Life
    requires Shape(s.st) && LifeShape(s.l) && IsPid(pid)
  {
    s.l.(flags := FlagsOf(Abort(s.st, pid, -1))[pid := s.l.flags[pid]])
  }

  /** t is s after the act a. */
  ghost predicate Acts(s: System, roots: set<int>, a: Act, t: System) {
    && InStep(s, roots) && CanAct(s, roots, a)
    && match a
      case Passes(op) =>
        && t.st == IpcRuns.Next(s.st, op)
        && Shape(t.st) && t.l == s.l.(flags := FlagsOf(t.st))
      case Forks(caller) =>
        && t.st == IpcSpec.Fork(s.st, caller, FirstFree(s.l, 0)) && t.l == LifeSpec.Fork(s.l, caller)
      case Ends(pid, status) =>
        && IsPid(s.l.parent[pid]) && t.l == Exit(Quieted(s, pid), pid, status)
        && LifeShape(t.l) && t.st == WithFlags(Abort(s.st, pid, -1), t.l.flags)
      case Waits(caller) =>
        && t.l == Wait(s.l, caller)
        && LifeShape(t.l) && t.st == WithFlags(s.st, t.l.flags)
  }

  lemma ActsInStep(s: System, roots: set<int>, a: Act, t: System)
    requires RootsOk(roots) && Acts(s, roots, a, t)
    ensures InStep(t, roots)
  {
    hide Inv, LifeInv, RootsOk, IpcRuns.Next, IpcRuns.Enabled, Exit, Wait, LifeSpec.Fork, IpcSpec.Fork, Abort;
    InvShape(s.st);
    LifeInvShape(s.l, roots);
    match a
    case Passes(op) =>
      IpcRuns.NextKeepsInv(s.st, op);
      StepIsTraffic(s.st, s.l, roots, op);
      LifeRuns.TrafficKeepsInv(s.l, roots, FlagsOf(t.st));
    case Forks(caller) =>
      ForkKeepsIpcIff(s.st, s.l, roots, caller);
      ForkKeepsInv(s.l, roots, caller);
    case Ends(pid, status) =>
      ExitKeepsIpc(s.st, s.l, roots, pid, status);
      LifeRuns.TrafficKeepsInv(s.l, roots, Quieted(s, pid).flags);
      ExitKeepsInv(Quieted(s, pid), roots, pid, status);
    case Waits(caller) =>
      WaitKeepsIpc(s.st, s.l, caller);
      WaiterLives(s.l, roots, caller);
      WaitKeepsInv(s.l, roots, caller);
  }

  lemma WaiterLives(l: Life, roots: set<int>, caller: int)
    requires LifeInv(l, roots) && IsPid(caller) && l.flags[caller] <= {Receiving}
    ensures Live(l, caller)
  {
  }

  function Boot(): System {
    System(IpcRuns.Start().st, Born())
  }

  ghost predicate IsRun(ss: seq<System>, roots: set<int>, acts: seq<Act>) {
    && |ss| == |acts| + 1 && RootsOk(roots) && ss[0] == Boot()
    && forall i :: 0 <= i < |acts| ==> Acts(ss[i], roots, acts[i], ss[i + 1])
  }

  /** Over every run of both, the messages and the family tree are in order, and mean the same flags. */
  lemma {:induction false} BothHold(ss: seq<System>, roots: set<int>, acts: seq<Act>, k: nat)
    requires IsRun(ss, roots, acts) && k < |ss|
    ensures InStep(ss[k], roots)
  {
    hide Inv, LifeInv, Acts;
    if k == 0 {
      InitialInv();
      BornInv(roots);
      assert FlagsOf(Boot().st) == Born().flags;
    } else {
      BothHold(ss, roots, acts, k - 1);
      assert Acts(ss[k - 1], roots, acts[k - 1], ss[k - 1 + 1]);
      ActsInStep(ss[k - 1], roots, acts[k - 1], ss[k]);
    }
  }
}
