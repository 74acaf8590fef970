/** What each step of the kernel means for the fields of the slots, and what becomes of every interrupt over a run. */
module IpcResults {
  import opened ProcTable
  import opened SendGraph
  import opened IpcSpec
  import opened IpcInvariant
  import opened IpcRuns

  /** Every slot but one, and every list, is as before. */
  ghost predicate OnlySlot(st: State, st': State, p: int) {
    && Shape(st) && Shape(st') && st'.queues == st.queues
    && forall q :: IsPid(q) && q != p ==> st'.procs[q] == st.procs[q]
  }

  /** Everything but what is at one address is as before. */
  ghost predicate OnlyAt(mem: Memory, mem': Memory, address: int) {
    forall a :: a != address ==> Load(mem', a) == Load(mem, a)
  }

  // ---------- interrupts ----------

  /** p is blocked for an interrupt, or for anything. */
  predicate Listens(p: ProcState) {
    Receiving in p.flags && (p.recvFrom == INTERRUPT || p.recvFrom == ANY)
  }

  /** An interrupt is latched, and nothing else changes, unless the task is blocked for it. Then the task runs, and
      finds the interrupt at the address it gave. */
  lemma InformMeans(st: State, t: int)
    requires Inv(st) && IsPid(t)
    ensures OnlySlot(st, Inform(st, t), t)
    ensures var p, p' := st.procs[t], Inform(st, t).procs[t];
      if Listens(p) then
        && p'.flags == {} && p'.msg == 0 && p'.recvFrom == NO_TASK && p'.sendTo == NO_TASK && !p'.intPending
        && Load(p'.mem, p.msg) == Load(p.mem, p.msg).(source := INTERRUPT, kind := HARD_INT)
        && OnlyAt(p.mem, p'.mem, p.msg)
      else p'.intPending && p' == p.(intPending := true)
  {
    hide QueueExact, NoMissedRendezvous, Acyclic, Without;
    assert SlotOk(st.procs[t]);
  }

  /** A latched interrupt is what the next receive of anything takes, before any sender: the caller does not block,
      reads the interrupt, and has none latched. */
  lemma LatchedIsTaken(st: State, r: int, src: int, m: int)
    requires Inv(st) && IsPid(r) && st.procs[r].flags == {} && st.procs[r].intPending
    requires src == ANY || src == INTERRUPT
    ensures OnlySlot(st, Receive(st, r, src, m), r)
    ensures var p, p' := st.procs[r], Receive(st, r, src, m).procs[r];
      && p'.flags == {} && p'.msg == 0 && p'.recvFrom == NO_TASK && !p'.intPending
      && Load(p'.mem, m) == Message(INTERRUPT, HARD_INT, 0, 0) && OnlyAt(p.mem, p'.mem, m)
  {
    hide QueueExact, NoMissedRendezvous, Acyclic, Without;
    assert SlotOk(st.procs[r]);
  }

  // ---------- blocking ----------

  /** A receive that finds neither an interrupt nor a sender blocks the caller for just what it asked for. */
  lemma ReceiveBlocks(st: State, r: int, src: int, m: int)
    requires Inv(st) && IsPid(r) && st.procs[r].flags == {}
    requires st.procs[r].intPending ==> src != ANY && src != INTERRUPT
    requires forall s :: Sends(st, s, r) ==> src != ANY && src != s
    ensures OnlySlot(st, Receive(st, r, src, m), r)
    ensures var p, p' := st.procs[r], Receive(st, r, src, m).procs[r];
      && p'.flags == {Receiving} && p'.msg == m && p'.recvFrom == src
      && p'.sendTo == NO_TASK && p'.mem == p.mem && p'.intPending == p.intPending
  {
    hide NoMissedRendezvous, Acyclic, Without;
    assert SlotOk(st.procs[r]) && QueueExact(st, r);
    if st.queues[r] != [] {
      assert st.queues[r][0] in st.queues[r];
      assert Sends(st, st.queues[r][0], r);
    }
  }

  /** A send to a process that does not wait for it blocks the sender, last in the list of its addressee. */
  lemma SendBlocks(st: State, s: int, d: int, m: int)
    requires Inv(st) && IsPid(s) && IsPid(d) && s != d && st.procs[s].flags == {}
    requires !(Receiving in st.procs[d].flags && (st.procs[d].recvFrom == s || st.procs[d].recvFrom == ANY))
    ensures Shape(Send(st, s, d, m))
    ensures var st', p, p' := Send(st, s, d, m), st.procs[s], Send(st, s, d, m).procs[s];
      && p'.flags == {Sending} && p'.msg == m && p'.sendTo == d
      && p'.recvFrom == NO_TASK && p'.mem == p.mem && p'.intPending == p.intPending
      && st'.queues[d] == st.queues[d] + [s]
      && forall q :: IsPid(q) ==> (q != s ==> st'.procs[q] == st.procs[q]) && (q != d ==> st'.queues[q] == st.queues[q])
  {
    hide QueueExact, NoMissedRendezvous, Acyclic;
    assert SlotOk(st.procs[s]);
  }

  // ---------- teardown ----------

  /** A receiver that waited for the process torn down runs again, and finds the answer of a system call, with the value
      given. */
  lemma ReceiverIsAnswered(st: State, pid: int, retval: int, i: int)
    requires Inv(st) && IsPid(pid) && IsPid(i) && i != pid
    requires Receiving in st.procs[i].flags && st.procs[i].recvFrom == pid
    ensures Shape(Abort(st, pid, retval))
    ensures var p, p' := st.procs[i], Abort(st, pid, retval).procs[i];
      && p'.flags == p.flags - {Receiving} && p'.msg == 0 && p'.recvFrom == NO_TASK && p'.intPending == p.intPending
      && p.msg != 0 && Load(p'.mem, p.msg) == Load(p.mem, p.msg).(kind := SYSCALL_RET, retval := retval)
      && OnlyAt(p.mem, p'.mem, p.msg)
  {
    hide QueueExact, NoMissedRendezvous, Acyclic, Without;
    assert SlotOk(st.procs[i]);
  }

  /** A sender to it runs again, with nothing handed over. The process itself is blocked for nobody. */
  lemma SenderIsReleased(st: State, pid: int, retval: int, i: int)
    requires Inv(st) && IsPid(pid) && IsPid(i)
    requires i == pid || (Sending in st.procs[i].flags && st.procs[i].sendTo == pid)
    ensures Shape(Abort(st, pid, retval))
    ensures var p, p' := st.procs[i], Abort(st, pid, retval).procs[i];
      && p'.msg == 0 && p'.sendTo == NO_TASK && p'.recvFrom == NO_TASK && p'.mem == p.mem
      && (i == pid ==> p'.flags == {Receiving} && !p'.intPending)
      && (i != pid ==> p'.flags == {} && p'.intPending == p.intPending)
  {
    hide QueueExact, NoMissedRendezvous, Acyclic, Without;
    assert SlotOk(st.procs[i]);
  }

  // ---------- fork ----------

  /** A child has all that its parent has, memory and state, and nobody else changes. */
  lemma ForkCopies(st: State, parent: int, child: int)
    requires Inv(st) && Enabled(st, OpFork(parent, child))
    ensures Shape(Next(st, OpFork(parent, child)))
    ensures var st', p := Next(st, OpFork(parent, child)), st.procs[parent];
      && st'.procs[child] == p && (forall a :: Load(st'.procs[child].mem, a) == Load(p.mem, a))
      && st'.queues == st.queues && forall q :: IsPid(q) && q != child ==> st'.procs[q] == st.procs[q]
  {
    hide QueueExact, NoMissedRendezvous, Acyclic, SlotOk;
  }

  // ---------- interrupts over runs ----------

  /** In step j an interrupt comes to be latched at t: t is informed while it is not blocked for it, or t is made from a
      process at which one is. */
  ghost predicate Latches(ws: seq<World>, ops: seq<Op>, j: nat, t: int)
    requires IsRun(ws, ops) && j < |ops| && IsPid(t)
  {
    StepShape(ws, ops, j);
    match ops[j]
    case OpInform(u) => u == t && !Listens(ws[j].st.procs[t])
    case OpFork(parent, child) => child == t && ws[j].st.procs[parent].intPending
    case _ => false
  }

  /** In step j none is latched at t any more: t receives an interrupt or anything, is torn down, or is made from a
      process at which none is. */
  ghost predicate Clears(ws: seq<World>, ops: seq<Op>, j: nat, t: int)
    requires IsRun(ws, ops) && j < |ops| && IsPid(t)
  {
    StepShape(ws, ops, j);
    match ops[j]
    case OpReceive(r, src, _) => r == t && (src == ANY || src == INTERRUPT)
    case OpAbort(pid, _) => pid == t
    case OpFork(parent, child) => child == t && !ws[j].st.procs[parent].intPending
    case _ => false
  }

  lemma StepShape(ws: seq<World>, ops: seq<Op>, j: nat)
    requires IsRun(ws, ops) && j < |ops|
    ensures Shape(ws[j].st) && Enabled(ws[j].st, ops[j]) && Inv(ws[j].st) && WorldShape(ws[j])
    ensures ws[j + 1] == Step(ws[j], ops[j]) && ws[j + 1].st == Next(ws[j].st, ops[j]) && Shape(ws[j + 1].st)
  {
    hide Step, Next, Enabled, Inv;
    assert StepsTo(ws[j], ops[j], ws[j + 1]);
    NextShape(ws[j].st, ops[j]);
    StepState(ws[j], ops[j]);
  }

  lemma NextShape(st: State, op: Op)
    requires Inv(st) && Enabled(st, op)
    ensures Shape(st) && Shape(Next(st, op))
  {
    NextKeepsInv(st, op);
  }

  lemma StepState(w: World, op: Op)
    requires WorldShape(w) && Inv(w.st) && Enabled(w.st, op)
    ensures Step(w, op).st == Next(w.st, op)
  {
  }

  /** An interrupt has come to be latched at t in some step, and no step since has cleared it. */
  ghost predicate Awaits(ws: seq<World>, ops: seq<Op>, k: nat, t: int)
    requires IsRun(ws, ops) && k <= |ops| && IsPid(t)
  {
    exists j: nat :: j < k && Latches(ws, ops, j, t) && forall i: nat :: j < i < k ==> !Clears(ws, ops, i, t)
  }

  lemma LatchAfterStep(ws: seq<World>, ops: seq<Op>, j: nat, t: int)
    requires IsRun(ws, ops) && j < |ops| && IsPid(t)
    ensures Shape(ws[j].st) && Shape(ws[j + 1].st)
    ensures ws[j + 1].st.procs[t].intPending ==
      if Latches(ws, ops, j, t) then true else if Clears(ws, ops, j, t) then false else ws[j].st.procs[t].intPending
  {
    hide Next, Inv, Step;
    StepShape(ws, ops, j);
    LatchAfter(ws[j].st, ops[j], t);
  }

  lemma LatchAfter(st: State, op: Op, t: int)
    requires Inv(st) && Enabled(st, op) && IsPid(t)
    ensures Shape(st) && Shape(Next(st, op))
    ensures Next(st, op).procs[t].intPending ==
      match op
      case OpInform(u) => (st.procs[t].intPending || u == t) && !(u == t && Listens(st.procs[t]))
      case OpReceive(r, src, _) => st.procs[t].intPending && !(r == t && (src == ANY || src == INTERRUPT))
      case OpAbort(pid, _) => st.procs[t].intPending && pid != t
      case OpFork(parent, child) => if child == t then st.procs[parent].intPending else st.procs[t].intPending
      case _ => st.procs[t].intPending
    ensures st.procs[t].intPending ==> !Listens(st.procs[t])
  {
    hide QueueExact, NoMissedRendezvous, Acyclic, Without, Reaches;
    assert SlotOk(st.procs[t]);
  }

  /** Over every run, an interrupt is latched at t exactly if t has been informed of one while it was not blocked for
      it, and has received none, nor anything from anybody, and has not been torn down, since. */
  lemma {:induction false} LatchedIff(ws: seq<World>, ops: seq<Op>, k: nat, t: int)
    requires IsRun(ws, ops) && k < |ws| && IsPid(t)
    ensures Shape(ws[k].st) && (ws[k].st.procs[t].intPending <==> Awaits(ws, ops, k, t))
  {
    hide Latches, Clears;
    if k == 0 {
      StartShape(ws, ops);
    } else {
      LatchedIff(ws, ops, k - 1, t);
      LatchAfterStep(ws, ops, k - 1, t);
      if Latches(ws, ops, k - 1, t) {
        assert Awaits(ws, ops, k, t);
      } else if Awaits(ws, ops, k - 1, t) && !Clears(ws, ops, k - 1, t) {
        var j: nat :| j < k - 1 && Latches(ws, ops, j, t) && forall i: nat :: j < i < k - 1 ==> !Clears(ws, ops, i, t);
        assert Awaits(ws, ops, k, t);
      }
    }
  }

  lemma StartShape(ws: seq<World>, ops: seq<Op>)
    requires IsRun(ws, ops)
    ensures Shape(ws[0].st) && forall t :: IsPid(t) ==> !ws[0].st.procs[t].intPending
  {
  }

  /** No interrupt is lost: the first receive from anybody, or of interrupts, after t was informed does not block. t
      reads the interrupt at the address it gave, and no sender loses its place. */
  lemma InterruptIsReceived(ws: seq<World>, ops: seq<Op>, k: nat, t: int, src: int, m: int)
    requires IsRun(ws, ops) && k < |ops| && IsPid(t)
    requires ops[k] == OpReceive(t, src, m) && (src == ANY || src == INTERRUPT) && Awaits(ws, ops, k, t)
    ensures Shape(ws[k].st) && Shape(ws[k + 1].st)
    ensures var p, p' := ws[k].st.procs[t], ws[k + 1].st.procs[t];
      && OnlySlot(ws[k].st, ws[k + 1].st, t)
      && p'.flags == {} && !p'.intPending
      && Load(p'.mem, m) == Message(INTERRUPT, HARD_INT, 0, 0) && OnlyAt(p.mem, p'.mem, m)
  {
    hide Latches, Clears, Receive, Inv;
    LatchedIff(ws, ops, k, t);
    StepShape(ws, ops, k);
    var st := ws[k].st;
    StampFacts(st, t, m);
    StampKeepsLatch(st, t, m);
    LatchedIsTaken(Stamp(st, t, m), t, src, m);
  }

  lemma StampKeepsLatch(st: State, t: int, m: int)
    requires Shape(st) && IsPid(t)
    ensures OnlySlot(st, Stamp(st, t, m), t)
    ensures var p, p' := st.procs[t], Stamp(st, t, m).procs[t];
      p'.flags == p.flags && p'.intPending == p.intPending && OnlyAt(p.mem, p'.mem, m)
  {
  }
}
