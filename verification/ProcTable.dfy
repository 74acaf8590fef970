/** The process table: its constants, the message record and the slot record. */
module ProcTable {

  const NR_TASKS := 6
  const NR_PROCS := 32
  const NR_NATIVE_PROCS := 4
  const NR_SLOTS := NR_TASKS + NR_PROCS

  const TASK_MM := 4
  const INIT := 6

  // Pseudo pids. They lie outside the table.
  const INTERRUPT := -10
  const ANY := NR_SLOTS + 10
  const NO_TASK := NR_SLOTS + 20

  // The two functions of the sendrec call.
  const SEND := 1
  const RECEIVE := 2

  // Message types.
  const HARD_INT := 1
  const SYSCALL_RET := 22

  /** One constructor per bit of p_flags. A slot is runnable iff no bit is set. */
  datatype Flag = Sending | Receiving | Waiting | Hanging | FreeSlot

  /** A message: the two header fields, the union's first word, and the rest of the union. */
  datatype Message = Message(source: int, kind: int, retval: int, rest: int)

  const ZERO_MESSAGE := Message(0, 0, 0, 0)

  /** The messages a process holds in its own memory, by address. */
  type Memory = map<int, Message>

  /** Memory that was never written reads as zero. */
  function Load(mem: Memory, address: int): Message {
    if address in mem then mem[address] else ZERO_MESSAGE
  }

  predicate IsPid(p: int) {
    0 <= p < NR_SLOTS
  }

  /** The IPC half of a slot, as a value. */
  datatype ProcState = ProcState(
    flags: set<Flag>,
    msg: int,
    recvFrom: int,
    sendTo: int,
    intPending: bool,
    mem: Memory)

  const RUNNABLE := ProcState({}, 0, NO_TASK, NO_TASK, false, map[])
  const UNUSED := ProcState({FreeSlot}, 0, 0, 0, false, map[])

  /** What boot gives a slot: tasks run before processes, free slots have nothing. */
  function InitialPriority(p: nat): int {
    if p < NR_TASKS then 15 else if p < NR_TASKS + NR_NATIVE_PROCS then 5 else 0
  }

  /** A slot of the table. Message pointers are addresses, 0 being the null pointer. */
  class Proc {
    const pid: nat
    var flags: set<Flag>
    var msg: int
    var recvFrom: int
    var sendTo: int
    var intPending: bool
    var mem: Memory
    // Head of the list of slots that are sending to this one, and this slot's own link in such a list.
    var qSending: Proc?
    var nextSending: Proc?

    // Time left in this epoch, and time granted at the start of one.
    var ticks: int
    var priority: int

    // The family tree.
    var parent: int
    var exitStatus: int

    constructor (pid: nat, priority: int, s: ProcState)
      ensures this.pid == pid && Snapshot() == s
      ensures qSending == null && nextSending == null
      ensures this.ticks == this.priority == priority
    {
      this.pid := pid;
      flags, msg, recvFrom, sendTo := s.flags, s.msg, s.recvFrom, s.sendTo;
      intPending, mem := s.intPending, s.mem;
      qSending, nextSending := null, null;
      this.ticks, this.priority := priority, priority;
      parent, exitStatus := NO_TASK, 0;
    }

    /** The slot becomes a copy of another, all but its place in the table. */
    method CopyFrom(other: Proc)
      modifies this
      ensures Snapshot() == old(other.Snapshot())
      ensures qSending == old(other.qSending) && nextSending == old(other.nextSending)
      ensures ticks == old(other.ticks) && priority == old(other.priority)
      ensures parent == old(other.parent) && exitStatus == old(other.exitStatus)
    {
      flags, msg, recvFrom, sendTo := other.flags, other.msg, other.recvFrom, other.sendTo;
      intPending, mem := other.intPending, other.mem;
      qSending, nextSending := other.qSending, other.nextSending;
      ticks, priority := other.ticks, other.priority;
      parent, exitStatus := other.parent, other.exitStatus;
    }

    ghost function Snapshot(): ProcState
      reads this`flags, this`msg, this`recvFrom, this`sendTo, this`intPending, this`mem
    {
      ProcState(flags, msg, recvFrom, sendTo, intPending, mem)
    }
  }
}
