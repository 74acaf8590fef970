/** The rendezvous protocol as functions on values: what each kernel step does to the table, with each
    receiver's list of blocked senders seen as a sequence of pids, oldest first. */
module IpcSpec {
  import opened ProcTable
  import opened SendGraph

  datatype State = State(procs: seq<ProcState>, queues: seq<seq<int>>)

  predicate Shape(st: State) {
    |st.procs| == NR_SLOTS && |st.queues| == NR_SLOTS
  }

  const INITIAL := State(
    seq(NR_SLOTS, i => if i < NR_TASKS + NR_NATIVE_PROCS then RUNNABLE else UNUSED),
    seq(NR_SLOTS, i => []))

  // ---------- queries ----------

  predicate Sends(st: State, s: int, d: int)
    requires Shape(st)
  {
    IsPid(s) && Sending in st.procs[s].flags && st.procs[s].sendTo == d
  }

  /** p is blocked in a receive that a message from s would complete. */
  predicate Accepts(p: ProcState, s: int) {
    Receiving in p.flags && (p.recvFrom == s || p.recvFrom == ANY)
  }

  predicate AcceptsInterrupt(p: ProcState) {
    Receiving in p.flags && (p.recvFrom == INTERRUPT || p.recvFrom == ANY)
  }

  function Edges(st: State): Graph
    requires Shape(st)
  {
    seq(NR_SLOTS, i requires 0 <= i < NR_SLOTS =>
      if Sending in st.procs[i].flags then st.procs[i].sendTo else NO_TASK)
  }

  /** q without x, in the same order. */
  function Without(q: seq<int>, x: int): (r: seq<int>)
    ensures forall y :: y in r <==> y in q && y != x
  {
    if q == [] then []
    else if q[0] == x then Without(q[1..], x)
    else [q[0]] + Without(q[1..], x)
  }

  /** The sender a receive from src picks, NO_TASK if the receive has to block. */
  function Chosen(st: State, r: int, src: int): int
    requires Shape(st) && IsPid(r)
  {
    if src == ANY then
      if st.queues[r] != [] then st.queues[r][0] else NO_TASK
    else if Sends(st, src, r) then src
    else NO_TASK
  }

  // ---------- effects on one slot ----------

  /** A blocked receiver gets the message m. */
  function Completed(p: ProcState, m: Message): ProcState {
    p.(mem := p.mem[p.msg := m], msg := 0, flags := p.flags - {Receiving}, recvFrom := NO_TASK)
  }

  /** A blocked sender's message has been taken or thrown away. */
  function Released(p: ProcState): ProcState {
    p.(msg := 0, sendTo := NO_TASK, flags := p.flags - {Sending})
  }

  // ---------- kernel steps ----------

  /** SEND of the message at address m by s to d. */
  function Send(st: State, s: int, d: int, m: int): State
    requires Shape(st) && IsPid(s) && IsPid(d)
  {
    if Accepts(st.procs[d], s) then
      st.(procs := st.procs[d := Completed(st.procs[d], Load(st.procs[s].mem, m))])
    else
      State(
        st.procs[s := st.procs[s].(flags := st.procs[s].flags + {Sending}, sendTo := d, msg := m)],
        st.queues[d := st.queues[d] + [s]])
  }

  /** RECEIVE from src by r, into address m. */
  function Receive(st: State, r: int, src: int, m: int): State
    requires Shape(st) && IsPid(r)
  {
    var p := st.procs[r];
    if p.intPending && (src == ANY || src == INTERRUPT) then
      st.(procs := st.procs[r := p.(mem := p.mem[m := Message(INTERRUPT, HARD_INT, 0, 0)], intPending := false)])
    else
      var f := Chosen(st, r, src);
      if IsPid(f) then
        var got := Load(st.procs[f].mem, st.procs[f].msg);
        State(
          st.procs[r := p.(mem := p.mem[m := got])][f := Released(st.procs[f])],
          st.queues[r := Without(st.queues[r], f)])
      else
        st.(procs := st.procs[r := p.(flags := p.flags + {Receiving}, msg := m, recvFrom := src)])
  }

  /** A hardware interrupt for task t. */
  function Inform(st: State, t: int): State
    requires Shape(st) && IsPid(t)
  {
    var p := st.procs[t];
    if AcceptsInterrupt(p) then
      var m := Load(p.mem, p.msg).(source := INTERRUPT, kind := HARD_INT);
      st.(procs := st.procs[t := Completed(p, m).(intPending := false)])
    else
      st.(procs := st.procs[t := p.(intPending := true)])
  }

  /** What the teardown of pid does to slot i. */
  function Torn(st: State, pid: int, retval: int, i: int): ProcState
    requires Shape(st) && IsPid(i)
  {
    var p := st.procs[i];
    if i == pid then
      p.(flags := {Receiving}, sendTo := NO_TASK, recvFrom := NO_TASK, msg := 0, intPending := false)
    else if Sends(st, i, pid) then
      Released(p)
    else if Receiving in p.flags && p.recvFrom == pid then
      if p.msg != 0 then
        Completed(p, Load(p.mem, p.msg).(kind := SYSCALL_RET, retval := retval))
      else
        p.(flags := p.flags - {Receiving}, recvFrom := NO_TASK)
    else
      p
  }

  /** Teardown of pid: nobody is left waiting on it, and it waits on nobody. */
  function Abort(st: State, pid: int, retval: int): State
    requires Shape(st) && IsPid(pid)
  {
    State(
      seq(NR_SLOTS, i requires 0 <= i < NR_SLOTS => Torn(st, pid, retval, i)),
      seq(NR_SLOTS, d requires 0 <= d < NR_SLOTS => if d == pid then [] else Without(st.queues[d], pid)))
  }

  /** The slot copy of fork: the list head is copied with the rest of the slot. */
  function Fork(st: State, parent: int, child: int): State
    requires Shape(st) && IsPid(parent) && IsPid(child)
  {
    State(st.procs[child := st.procs[parent]], st.queues[child := st.queues[parent]])
  }

  /** The memory manager's flag changes, and a running process writing its own memory. */
  function SetFlags(st: State, p: int, flags: set<Flag>): State
    requires Shape(st) && IsPid(p)
  {
    st.(procs := st.procs[p := st.procs[p].(flags := flags)])
  }

  function Write(st: State, p: int, address: int, m: Message): State
    requires Shape(st) && IsPid(p)
  {
    st.(procs := st.procs[p := st.procs[p].(mem := st.procs[p].mem[address := m])])
  }

  /** The kernel writes the caller's pid into the message before it does anything else with it. */
  function Stamp(st: State, p: int, m: int): State
    requires Shape(st) && IsPid(p)
  {
    Write(st, p, m, Load(st.procs[p].mem, m).(source := p))
  }

  // ---------- the invariant ----------

  ghost predicate NoDup(q: seq<int>) {
    forall i, j :: 0 <= i < j < |q| ==> q[i] != q[j]
  }

  /** The list of d holds exactly the slots that are sending to d, each once. */
  ghost predicate QueueExact(st: State, d: int)
    requires Shape(st) && IsPid(d)
  {
    NoDup(st.queues[d]) && forall s :: s in st.queues[d] <==> Sends(st, s, d)
  }

  /** How the fields of one slot hang together. */
  ghost predicate SlotOk(p: ProcState) {
    && (Sending in p.flags ==> p.flags == {Sending} && IsPid(p.sendTo) && p.msg != 0 && p.recvFrom == NO_TASK)
    && (Receiving in p.flags ==>
          && p.sendTo == NO_TASK
          && (p.msg == 0 <==> p.recvFrom == NO_TASK)
          && (p.recvFrom != NO_TASK ==> p.flags <= {Receiving, Waiting}))
    && (Receiving !in p.flags && Sending !in p.flags && FreeSlot !in p.flags ==>
          p.msg == 0 && p.recvFrom == NO_TASK && p.sendTo == NO_TASK)
    && (Waiting in p.flags ==> p.flags == {Waiting} || (p.flags == {Waiting, Receiving} && p.recvFrom == TASK_MM))
    && (Hanging in p.flags ==> p.flags == {Hanging, Receiving} && p.recvFrom == NO_TASK)
    && (FreeSlot in p.flags ==> p.flags == {FreeSlot})
    // no lost interrupt
    && (p.intPending ==> !AcceptsInterrupt(p))
  }

  ghost predicate NoMissedRendezvous(st: State)
    requires Shape(st)
  {
    forall s, d :: Sends(st, s, d) && IsPid(d) ==> !Accepts(st.procs[d], s)
  }

  ghost predicate Inv(st: State) {
    && Shape(st)
    && (forall i :: IsPid(i) ==> SlotOk(st.procs[i]))
    && (forall d :: IsPid(d) ==> QueueExact(st, d))
    && NoMissedRendezvous(st)
    && Acyclic(Edges(st))
  }
}
