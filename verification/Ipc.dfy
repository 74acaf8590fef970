/** The rendezvous primitives of the kernel, on the table itself. */
module Ipc {
  import opened ProcTable
  import opened SendGraph
  import opened IpcSpec
  import opened IpcInvariant
  import opened SendLists
  import opened IpcTeardown

  class Kernel {
    const table: seq<Proc>
    // The table as a value: the slots with their queues, and the links. Valid ties both to the objects.
    ghost var st: State
    ghost var links: Links

    ghost function SlotAt(i: int): Proc?
      requires |table| == NR_SLOTS
    {
      if IsPid(i) then table[i] else null
    }

    ghost predicate PidsAre() {
      |table| == NR_SLOTS && forall i {:trigger table[i]} :: IsPid(i) ==> table[i].pid == i
    }

    ghost predicate SlotsAre(s: State)
      reads table`flags, table`msg, table`recvFrom, table`sendTo, table`intPending, table`mem
    {
      && PidsAre() && Shape(s)
      && forall i {:trigger table[i].Snapshot()} :: IsPid(i) ==> table[i].Snapshot() == s.procs[i]
    }

    ghost predicate LinksAre(l: Links)
      reads table`qSending, table`nextSending
    {
      && PidsAre() && LinksShape(l)
      && (forall i {:trigger table[i].qSending} :: IsPid(i) ==> table[i].qSending == SlotAt(l.head[i]))
      && (forall i {:trigger table[i].nextSending} :: IsPid(i) ==> table[i].nextSending == SlotAt(l.next[i]))
    }

    ghost predicate Linked()
      reads this, table
    {
      SlotsAre(st) && LinksAre(links) && Lists(links, st.queues)
    }

    ghost predicate Valid()
      reads this, table
    {
      Linked() && Inv(st)
    }

    /** Boot: tasks and native processes are runnable, the other slots are free. */
    constructor ()
      ensures Valid() && st == INITIAL && fresh(table)
    {
      var procs: seq<Proc> := [];
      for i := 0 to NR_SLOTS
        invariant |procs| == i
        invariant forall k {:trigger procs[k]} :: 0 <= k < i ==>
          && fresh(procs[k]) && procs[k].pid == k && procs[k].Snapshot() == INITIAL.procs[k]
          && procs[k].qSending == null && procs[k].nextSending == null
      {
        var p := new Proc(i, InitialPriority(i), if i < NR_TASKS + NR_NATIVE_PROCS then RUNNABLE else UNUSED);
        procs := procs + [p];
      }
      table := procs;
      st := INITIAL;
      links := Links(seq(NR_SLOTS, i => NIL), seq(NR_SLOTS, i => NIL));
      new;
      InitialInv();
    }

    /** g is the graph of blocked senders, read off the slots. */
    ghost predicate EdgesAre(g: Graph)
      reads table
    {
      && |table| == |g| == NR_SLOTS
      && forall i {:trigger table[i]} :: IsPid(i) ==>
        && table[i].pid == i
        && (HasEdge(g, i) <==> Sending in table[i].flags)
        && (Sending in table[i].flags ==> g[i] == table[i].sendTo && table[i].msg != 0)
    }

    /** Would a message from src to dest close a cycle of senders? */
    method Deadlock(src: int, dest: int, ghost g: Graph) returns (cyclic: bool)
      requires EdgesAre(g) && Acyclic(g) && IsPid(src) && IsPid(dest) && src != dest
      ensures cyclic <==> Reaches(g, dest, src)
    {
      ghost var seen: set<int> := {};
      var p := table[dest];
      while Sending in p.flags
        invariant IsPid(p.pid) && p == table[p.pid] && p.pid != src
        invariant Reaches(g, dest, src) <==> Reaches(g, p.pid, src)
        invariant forall v :: v in seen ==> ReachesInSteps(g, v, p.pid)
        decreases Pids() - seen
      {
        ReachesFromNext(g, p.pid, src);
        if p.sendTo == src {
          assert Walk(g, src, src, 0);
          PrintChain(src, dest, g);
          return true;
        }
        assert p.pid !in seen;
        WalkFromSeen(g, seen, p.pid);
        seen := seen + {p.pid};
        p := table[p.sendTo];
      }
      assert !HasEdge(g, p.pid);
      cyclic := false;
    }

    /** The loop that prints the cycle comes to its end. */
    method PrintChain(src: int, dest: int, ghost g: Graph)
      requires EdgesAre(g) && IsPid(src) && IsPid(dest) && src != dest
      requires Reaches(g, dest, src)
    {
      ghost var left: nat :| Walk(g, dest, src, left);
      var p := table[dest];
      while p != table[src]
        invariant IsPid(p.pid) && p == table[p.pid] && Walk(g, p.pid, src, left)
        decreases left
      {
        assert p.msg != 0;
        p := table[p.sendTo];
        left := left - 1;
      }
    }

    // ---------- the lists of blocked senders ----------

    /** Hang s at the end of the list of d. */
    method Append(d: int, s: int, ghost q: seq<int>)
      requires LinksAre(links)
      requires IsPid(d) && IsPid(s) && ListIs(links, d, q) && AllPids(q)
      modifies table`qSending, table`nextSending, this`links
      ensures LinksAre(links) && links == Hung(old(links), d, q, s)
    {
      var to, sender := table[d], table[s];
      if to.qSending != null {
        var p := to.qSending;
        ghost var k := 0;
        while p.nextSending != null
          invariant k < |q| && p == table[q[k]]
          decreases |q| - k
        {
          p := p.nextSending;
          k := k + 1;
        }
        assert k == |q| - 1;
        p.nextSending := sender;
      } else {
        assert q == [];
        to.qSending := sender;
      }
      sender.nextSending := null;
      links := Hung(links, d, q, s);
    }

    /** Take p, which stands in the list of d behind prev (at its head if prev is null), out of that list. */
    method Splice(d: int, prev: Proc?, p: Proc, ghost q: seq<int>, ghost k: nat)
      requires LinksAre(links) && IsPid(d) && ListIs(links, d, q) && AllPids(q)
      requires NoDup(q) && k < |q| && p == table[q[k]] && prev == if k == 0 then null else table[q[k - 1]]
      modifies table`qSending, table`nextSending, this`links
      ensures LinksAre(links) && links == Spliced(old(links), d, q, k)
    {
      assert table[q[0]].pid == q[0] && p.pid == q[k];
      if p == table[d].qSending {
        assert prev == null;
        table[d].qSending := p.nextSending;
      } else {
        assert prev != null;
        prev.nextSending := p.nextSending;
      }
      p.nextSending := null;
      links := Spliced(links, d, q, k);
    }

    // ---------- SEND ----------

    /** A send either halts the kernel with the deadlock message or does what Send says. */
    method MsgSend(s: int, dest: int, m: int) returns (deadlocked: bool)
      requires Valid() && IsPid(s) && IsPid(dest) && s != dest && m != 0
      requires st.procs[s].flags == {} && FreeSlot !in st.procs[dest].flags
      requires s == TASK_MM ==> Waiting !in st.procs[dest].flags
      modifies this, table
      ensures Valid()
      ensures deadlocked <==> Reaches(old(Edges(st)), dest, s)
      ensures st == if deadlocked then old(st) else Send(old(st), s, dest, m)
    {
      EdgesAgree();
      deadlocked := Deadlock(s, dest, Edges(st));
      if deadlocked {
        return;
      }
      SendKeepsInv(st, s, dest, m);
      SlotFacts(s);
      SlotFacts(dest);
      if Receiving in table[dest].flags && (table[dest].recvFrom == s || table[dest].recvFrom == ANY) {
        HandOver(s, dest, m);
      } else {
        NotQueued(s);
        HungLists(links, st.queues, dest, s);
        BlockSending(s, dest, m);
      }
    }

    /** dest is waiting for the message: copy it and unblock dest. */
    method HandOver(s: int, dest: int, m: int)
      requires Linked() && IsPid(s) && IsPid(dest) && s != dest && m != 0
      requires SlotOk(st.procs[s]) && st.procs[s].flags == {}
      requires SlotOk(st.procs[dest]) && Accepts(st.procs[dest], s)
      requires s == TASK_MM ==> Waiting !in st.procs[dest].flags
      modifies this`st, table`mem, table`msg, table`flags, table`recvFrom
      ensures Linked() && st == Send(old(st), s, dest, m)
    {
      var sender, pDest := table[s], table[dest];
      assert sender.Snapshot() == st.procs[s] && pDest.Snapshot() == st.procs[dest];
      assert pDest.msg != 0 && m != 0;
      pDest.mem := pDest.mem[pDest.msg := Load(sender.mem, m)];
      pDest.msg := 0;
      pDest.flags := pDest.flags - {Receiving};
      pDest.recvFrom := NO_TASK;
      assert pDest.flags == {} && pDest.msg == 0 && pDest.recvFrom == NO_TASK && pDest.sendTo == NO_TASK;
      assert sender.flags == {} && sender.msg == 0 && sender.recvFrom == NO_TASK && sender.sendTo == NO_TASK;
      st := Send(st, s, dest, m);
    }

    /** dest is not waiting for the message: block the sender at the end of the list of dest. */
    method BlockSending(s: int, dest: int, m: int)
      requires Linked() && IsPid(s) && IsPid(dest) && s != dest && m != 0
      requires SlotOk(st.procs[s]) && st.procs[s].flags == {}
      requires !Accepts(st.procs[dest], s) && AllPids(st.queues[dest])
      requires Lists(Hung(links, dest, st.queues[dest], s), st.queues[dest := st.queues[dest] + [s]])
      modifies this, table
      ensures Linked() && st == Send(old(st), s, dest, m)
    {
      MarkSending(s, dest, m);
      Append(dest, s, old(st).queues[dest]);
      assert table[s].Snapshot() == st.procs[s];
      assert table[s].flags == {Sending} && table[s].msg != 0;
      assert table[s].recvFrom == NO_TASK && table[s].sendTo == dest;
    }

    method MarkSending(s: int, dest: int, m: int)
      requires SlotsAre(st) && IsPid(s) && IsPid(dest) && s != dest
      requires st.procs[s].flags == {} && !Accepts(st.procs[dest], s)
      modifies this`st, table`flags, table`sendTo, table`msg
      ensures SlotsAre(st) && st == Send(old(st), s, dest, m)
    {
      var sender := table[s];
      assert sender.Snapshot() == st.procs[s];
      sender.flags := sender.flags + {Sending};
      assert sender.flags == {Sending};
      sender.sendTo := dest;
      sender.msg := m;
      st := Send(st, s, dest, m);
    }

    // ---------- RECEIVE ----------

    method MsgReceive(r: int, src: int, m: int)
      requires Valid() && IsPid(r) && r != src && m != 0
      requires IsPid(src) || src == ANY || src == INTERRUPT
      requires st.procs[r].flags == {}
      modifies this, table
      ensures Valid() && st == Receive(old(st), r, src, m)
    {
      hide NoMissedRendezvous, Acyclic, QueueExact, Lists;
      ReceiveKeepsInv(st, r, src, m);
      SlotFacts(r);
      QueueFacts(r);
      var me := table[r];
      if me.intPending && (src == ANY || src == INTERRUPT) {
        TakeInterrupt(r, src, m);
      } else if src == ANY && me.qSending != null {
        assert st.queues[r][0] in st.queues[r];
        SlotFacts(st.queues[r][0]);
        SplicedLists(links, st.queues, r, 0);
        Deliver(r, src, me.qSending, null, st.queues[r], 0, m);
      } else if 0 <= src < NR_SLOTS && Sending in table[src].flags && table[src].sendTo == r {
        SlotFacts(src);
        assert me.qSending != null;
        ghost var k: nat;
        var prev: Proc?;
        prev, k := FindBefore(r, src, st.queues[r]);
        SplicedLists(links, st.queues, r, k);
        Deliver(r, src, table[src], prev, st.queues[r], k, m);
      } else {
        NobodySends(r, src);
        BlockReceiving(r, src, m);
      }
    }

    lemma NobodySends(r: int, src: int)
      requires Valid() && IsPid(r)
      requires src == ANY ==> table[r].qSending == null
      requires IsPid(src) ==> !(Sending in table[src].flags && table[src].sendTo == r)
      ensures Chosen(st, r, src) == NO_TASK
    {
      QueueFacts(r);
      if IsPid(src) {
        SlotFacts(src);
      }
    }

    /** The sender from has been found, behind prev: take it out of the list and take its message. */
    method Deliver(r: int, src: int, from: Proc, prev: Proc?, ghost q: seq<int>, ghost k: nat, m: int)
      requires SlotsAre(st) && LinksAre(links) && IsPid(r) && m != 0
      requires SlotOk(st.procs[r]) && st.procs[r].flags == {}
      requires !(st.procs[r].intPending && (src == ANY || src == INTERRUPT))
      requires ListIs(links, r, q) && AllPids(q) && NoDup(q)
      requires k < |q| && q[k] == Chosen(st, r, src) && from == table[q[k]]
      requires SlotOk(st.procs[q[k]]) && Sends(st, q[k], r)
      requires prev == if k == 0 then null else table[q[k - 1]]
      modifies this, table
      ensures SlotsAre(st) && LinksAre(links)
      ensures st == Receive(old(st), r, src, m) && links == Spliced(old(links), r, q, k)
    {
      ghost var f := Chosen(st, r, src);
      assert table[r].Snapshot() == st.procs[r] && from.Snapshot() == st.procs[f];
      assert table[r].flags == {} && table[r].msg == 0 && table[r].recvFrom == NO_TASK && table[r].sendTo == NO_TASK;
      assert from.flags == {Sending} && from.msg != 0 && from.recvFrom == NO_TASK && from.sendTo == r;
      Splice(r, prev, from, q, k);
      TakeMessage(r, src, from, m);
    }

    /** An interrupt was latched: hand it over. */
    method TakeInterrupt(r: int, src: int, m: int)
      requires SlotsAre(st) && IsPid(r) && m != 0
      requires SlotOk(st.procs[r]) && st.procs[r].flags == {}
      requires st.procs[r].intPending && (src == ANY || src == INTERRUPT)
      modifies this`st, table`mem, table`intPending
      ensures SlotsAre(st) && st == Receive(old(st), r, src, m)
    {
      var me := table[r];
      assert me.Snapshot() == st.procs[r];
      var msg := ZERO_MESSAGE.(source := INTERRUPT, kind := HARD_INT);
      me.mem := me.mem[m := msg];
      me.intPending := false;
      assert me.flags == {} && me.msg == 0 && me.sendTo == NO_TASK && !me.intPending;
      st := Receive(st, r, src, m);
    }

    /** Walk the list of r to src, and remember the slot before it. */
    method FindBefore(r: int, src: int, ghost q: seq<int>) returns (prev: Proc?, ghost k: nat)
      requires LinksAre(links) && IsPid(r) && ListIs(links, r, q) && AllPids(q) && src in q
      ensures k < |q| && q[k] == src
      ensures prev == if k == 0 then null else table[q[k - 1]]
    {
      prev, k := null, 0;
      var p := table[r].qSending;
      assert p != null;
      while p != null && p.pid != src
        invariant k <= |q| && src in q[k..]
        invariant p == SlotAt(PidAt(q, k))
        invariant prev == if k == 0 then null else table[q[k - 1]]
        decreases |q| - k
      {
        prev := p;
        p := p.nextSending;
        k := k + 1;
      }
    }

    /** The message of a blocked sender is copied, and the sender runs again. */
    method TakeMessage(r: int, src: int, from: Proc, m: int)
      requires SlotsAre(st) && IsPid(r) && m != 0
      requires !(st.procs[r].intPending && (src == ANY || src == INTERRUPT))
      requires var f := Chosen(st, r, src);
        IsPid(f) && f != r && from == table[f] && SlotOk(st.procs[f]) && Sending in st.procs[f].flags
      modifies this`st, table`mem, table`msg, table`sendTo, table`flags
      ensures SlotsAre(st) && st == Receive(old(st), r, src, m)
    {
      var me := table[r];
      assert me.Snapshot() == st.procs[r] && from.Snapshot() == st.procs[Chosen(st, r, src)];
      assert m != 0 && from.msg != 0;
      me.mem := me.mem[m := Load(from.mem, from.msg)];
      from.msg := 0;
      from.sendTo := NO_TASK;
      from.flags := from.flags - {Sending};
      assert from.flags == {};
      st := Receive(st, r, src, m);
    }

    /** Nobody is sending: wait. */
    method BlockReceiving(r: int, src: int, m: int)
      requires SlotsAre(st) && IsPid(r) && m != 0
      requires !(st.procs[r].intPending && (src == ANY || src == INTERRUPT))
      requires !IsPid(Chosen(st, r, src))
      modifies this`st, table`flags, table`msg, table`recvFrom
      ensures SlotsAre(st) && st == Receive(old(st), r, src, m)
    {
      var me := table[r];
      assert me.Snapshot() == st.procs[r];
      me.flags := me.flags + {Receiving};
      me.msg := m;
      me.recvFrom := src;
      st := Receive(st, r, src, m);
    }

    // ---------- interrupts ----------

    method InformInt(t: int)
      requires Valid() && IsPid(t)
      modifies this`st, table`mem, table`msg, table`intPending, table`flags, table`recvFrom
      ensures Valid() && st == Inform(old(st), t)
    {
      InformKeepsInv(st, t);
      SlotFacts(t);
      LatchOrWake(t);
    }

    method LatchOrWake(t: int)
      requires SlotsAre(st) && IsPid(t) && SlotOk(st.procs[t])
      modifies this`st, table`mem, table`msg, table`intPending, table`flags, table`recvFrom
      ensures SlotsAre(st) && st == Inform(old(st), t)
    {
      var p := table[t];
      assert p.Snapshot() == st.procs[t];
      if Receiving in p.flags && (p.recvFrom == INTERRUPT || p.recvFrom == ANY) {
        p.mem := p.mem[p.msg := Load(p.mem, p.msg).(source := INTERRUPT, kind := HARD_INT)];
        p.msg := 0;
        p.intPending := false;
        p.flags := p.flags - {Receiving};
        p.recvFrom := NO_TASK;
        assert p.flags == {} && p.msg == 0 && p.recvFrom == NO_TASK && p.sendTo == NO_TASK;
      } else {
        p.intPending := true;
      }
      st := Inform(st, t);
    }

    // ---------- the system call ----------

    /** sendrec: refuse free slots, stamp the message with the caller's pid, then send or receive. The system halts on a
        send that closes a cycle, and on any other operation. */
    method SysSendrec(operation: int, srcDest: int, m: int, caller: int) returns (ret: int, halted: bool)
      requires Valid() && IsPid(caller) && st.procs[caller].flags == {}
      requires caller != srcDest && m != 0 && (IsPid(srcDest) || srcDest == ANY || srcDest == INTERRUPT)
      requires operation == SEND ==> IsPid(srcDest)
      requires operation == SEND && caller == TASK_MM ==> Waiting !in st.procs[srcDest].flags
      modifies this, table
      ensures Valid()
      ensures ret == if IsPid(srcDest) && FreeSlot in old(st).procs[srcDest].flags then -1 else 0
      ensures halted <==>
        ret == 0 && operation != RECEIVE && (operation == SEND ==> Reaches(old(Edges(st)), srcDest, caller))
      ensures ret == -1 ==> st == old(st)
      ensures ret == 0 && halted ==> st == Stamp(old(st), caller, m)
      ensures ret == 0 && operation == SEND && !halted ==>
        st == Send(Stamp(old(st), caller, m), caller, srcDest, m)
      ensures ret == 0 && operation == RECEIVE ==> st == Receive(Stamp(old(st), caller, m), caller, srcDest, m)
    {
      SlotFacts(caller);
      if IsPid(srcDest) {
        SlotFacts(srcDest);
      }
      if table[caller].flags == {FreeSlot} || (0 <= srcDest < NR_SLOTS && table[srcDest].flags == {FreeSlot}) {
        return -1, false;
      }
      StampFacts(st, caller, m);
      StampMessage(caller, m);
      halted := false;
      if operation == SEND {
        halted := MsgSend(caller, srcDest, m);
      } else if operation == RECEIVE {
        MsgReceive(caller, srcDest, m);
      } else {
        halted := true;
      }
      ret := 0;
    }

    method StampMessage(caller: int, m: int)
      requires Linked() && IsPid(caller)
      modifies this`st, table`mem
      ensures Linked() && st == Stamp(old(st), caller, m)
    {
      var p := table[caller];
      assert p.Snapshot() == st.procs[caller];
      p.mem := p.mem[m := Load(p.mem, m).(source := caller)];
      st := Stamp(st, caller, m);
    }

    // ---------- teardown ----------

    /** Cut pid out of all message traffic. */
    method AbortIpc(pid: int, retval: int)
      requires Valid() && IsPid(pid)
      modifies this, table
      ensures Valid() && st == Abort(old(st), pid, retval)
    {
      hide CanSplice, Lists, SlotOk, NoMissedRendezvous, Acyclic, QueueExact, Abort;
      AbortKeepsInv(st, pid, retval);
      BeforeWithdrawal(st, links, pid);
      AbortInStages(st, pid, retval);
      QueueFacts(pid);
      WakeSenders(pid, st.queues[pid]);
      ClearHead(pid);
      Withdraw(pid);
      ResetSlot(pid);
      WakeReceivers(pid, retval);
    }

    /** A message pid has sent and nobody has taken leaves its addressee's list. */
    method Withdraw(pid: int)
      requires Linked() && IsPid(pid)
      requires Sending in st.procs[pid].flags && IsPid(st.procs[pid].sendTo) ==>
        CanSplice(links, st.queues, st.procs[pid].sendTo, pid)
      modifies this, table`qSending, table`nextSending
      ensures Linked() && st == Withdrawn(old(st), pid)
    {
      var target := table[pid];
      assert target.Snapshot() == st.procs[pid];
      if Sending in target.flags && 0 <= target.sendTo < NR_SLOTS {
        TakeOut(target.sendTo, pid);
      }
    }

    method TakeOut(dest: int, pid: int)
      requires SlotsAre(st) && LinksAre(links) && IsPid(dest) && IsPid(pid)
      requires CanSplice(links, st.queues, dest, pid)
      modifies this, table`qSending, table`nextSending
      ensures Linked() && st == old(st).(queues := old(st).queues[dest := Without(old(st).queues[dest], pid)])
    {
      hide Lists, Spliced, ListIs, AllPids, NoDup, Without;
      ghost var q := st.queues[dest];
      ghost var k;
      var prev;
      prev, k := FindBefore(dest, pid, q);
      Splice(dest, prev, table[pid], q, k);
      st := st.(queues := st.queues[dest := Without(q, pid)]);
    }

    /** Nothing is left of pid's own message state; RECEIVING keeps it from being scheduled. */
    method ResetSlot(pid: int)
      requires Linked() && IsPid(pid) && forall d :: IsPid(d) ==> pid !in st.queues[d]
      modifies this, table`flags, table`sendTo, table`recvFrom, table`msg, table`intPending, table`nextSending
      ensures Linked() && st == Reset(old(st), pid)
    {
      UnlinkedLists(links, st.queues, pid);
      ResetFields(pid);
      UnlinkSlot(table[pid]);
    }

    method ResetFields(pid: int)
      requires SlotsAre(st) && IsPid(pid)
      modifies this`st, table`flags, table`sendTo, table`recvFrom, table`msg, table`intPending
      ensures SlotsAre(st) && st == Reset(old(st), pid)
    {
      var target := table[pid];
      assert target.Snapshot() == st.procs[pid];
      target.flags := {Receiving};
      target.sendTo := NO_TASK;
      target.recvFrom := NO_TASK;
      target.msg := 0;
      target.intPending := false;
      st := Reset(st, pid);
    }

    /** Whoever waits for an answer of pid gets an error answer. */
    method WakeReceivers(pid: int, retval: int)
      requires SlotsAre(st) && LinksAre(links) && IsPid(pid)
      requires forall i :: IsPid(i) ==> !Sends(st, i, pid)
      modifies this, table`flags, table`sendTo, table`recvFrom, table`msg, table`mem, table`nextSending
      ensures SlotsAre(st) && LinksAre(links) && links == old(links)
      ensures st == AnsweredUpTo(old(st), pid, retval, NR_SLOTS)
    {
      for i := 0 to NR_SLOTS
        invariant SlotsAre(st) && LinksAre(links) && links == old(links)
        invariant st == AnsweredUpTo(old(st), pid, retval, i)
      {
        assert !Sends(old(st), i, pid);
        AnswerSlot(table[i], pid, retval);
      }
    }

    /** One round of that loop. Its second half has nothing to do once the list of pid is empty. */
    method AnswerSlot(p: Proc, pid: int, retval: int)
      requires SlotsAre(st) && LinksAre(links) && p in table
      modifies this, table`flags, table`sendTo, table`recvFrom, table`msg, table`mem, table`nextSending
      ensures SlotsAre(st) && LinksAre(links) && IsPid(p.pid)
      ensures st == old(st).(procs := old(st).procs[p.pid := Answered(old(st).procs[p.pid], pid, retval)])
      ensures !Sends(old(st), p.pid, pid) ==> links == old(links)
    {
      AnswerReceiver(p, pid, retval);
      assert p.Snapshot() == st.procs[p.pid];
      if Sending in p.flags && p.sendTo == pid {
        WakeOne(p);
      }
    }

    method AnswerReceiver(p: Proc, pid: int, retval: int)
      requires SlotsAre(st) && p in table
      modifies this`st, table`flags, table`recvFrom, table`msg, table`mem
      ensures SlotsAre(st) && IsPid(p.pid) && p == table[p.pid]
      ensures st == old(st).(procs := old(st).procs[p.pid := AnsweredReceiver(old(st).procs[p.pid], pid, retval)])
    {
      assert p == table[p.pid] && p.Snapshot() == st.procs[p.pid];
      if Receiving in p.flags && p.recvFrom == pid {
        if p.msg != 0 {
          p.mem := p.mem[p.msg := Load(p.mem, p.msg).(kind := SYSCALL_RET, retval := retval)];
        }
        p.flags := p.flags - {Receiving};
        p.recvFrom := NO_TASK;
        p.msg := 0;
      }
      st := st.(procs := st.procs[p.pid := AnsweredReceiver(st.procs[p.pid], pid, retval)]);
    }

    /** Everybody who was sending to pid runs again. */
    method WakeSenders(pid: int, ghost q: seq<int>)
      requires SlotsAre(st) && LinksAre(links) && IsPid(pid) && ListIs(links, pid, q) && AllPids(q) && NoDup(q)
      modifies this, table
      ensures SlotsAre(st) && st == State(ReleaseAll(old(st).procs, q), old(st).queues)
      ensures LinksAre(links) && links == Links(old(links).head, UnlinkAll(old(links).next, q))
    {
      ghost var rest := q;
      var sender := table[pid].qSending;
      while sender != null
        invariant sender == SlotAt(PidAt(rest, 0)) && AllPids(rest) && NoDup(rest)
        invariant SlotsAre(st) && st.queues == old(st).queues
        invariant LinksAre(links) && links.head == old(links).head
        invariant ReleaseAll(st.procs, rest) == ReleaseAll(old(st).procs, q)
        invariant UnlinkAll(links.next, rest) == UnlinkAll(old(links).next, q)
        invariant Chained(links.next, rest)
        decreases |rest|
      {
        assert sender.pid == rest[0];
        var next := sender.nextSending;
        ChainedTail(links.next, rest);
        WakeOne(sender);
        sender := next;
        rest := rest[1..];
      }
    }

    method WakeOne(p: Proc)
      requires SlotsAre(st) && LinksAre(links) && p in table
      modifies this, table`flags, table`sendTo, table`msg, table`nextSending
      ensures SlotsAre(st) && LinksAre(links) && IsPid(p.pid)
      ensures st == old(st).(procs := old(st).procs[p.pid := Released(old(st).procs[p.pid])])
      ensures links == old(links).(next := old(links).next[p.pid := NIL])
    {
      ReleaseSlot(p);
      UnlinkSlot(p);
    }

    method UnlinkSlot(p: Proc)
      requires LinksAre(links) && p in table
      modifies this`links, table`nextSending
      ensures LinksAre(links) && IsPid(p.pid)
      ensures links == old(links).(next := old(links).next[p.pid := NIL])
    {
      assert p == table[p.pid];
      p.nextSending := null;
      links := links.(next := links.next[p.pid := NIL]);
    }

    method ClearHead(pid: int)
      requires LinksAre(links) && Shape(st) && IsPid(pid)
      modifies this`links, this`st, table`qSending
      ensures LinksAre(links) && st == old(st).(queues := old(st).queues[pid := []])
      ensures links == old(links).(head := old(links).head[pid := NIL])
    {
      table[pid].qSending := null;
      links := links.(head := links.head[pid := NIL]);
      st := st.(queues := st.queues[pid := []]);
    }

    /** p is no longer sending. */
    method ReleaseSlot(p: Proc)
      requires SlotsAre(st) && p in table
      modifies this`st, table`flags, table`sendTo, table`msg
      ensures SlotsAre(st) && IsPid(p.pid)
      ensures st == old(st).(procs := old(st).procs[p.pid := Released(old(st).procs[p.pid])])
    {
      assert p == table[p.pid] && p.Snapshot() == st.procs[p.pid];
      p.flags := p.flags - {Sending};
      p.sendTo := NO_TASK;
      p.msg := 0;
      st := st.(procs := st.procs[p.pid := Released(st.procs[p.pid])]);
    }

    // ---------- facts that Valid gives, one slot or one list at a time ----------

    lemma EdgesAgree()
      requires Valid()
      ensures EdgesAre(Edges(st)) && Acyclic(Edges(st))
    {
      forall i | IsPid(i)
        ensures table[i].pid == i
        ensures HasEdge(Edges(st), i) <==> Sending in table[i].flags
        ensures Sending in table[i].flags ==> Edges(st)[i] == table[i].sendTo && table[i].msg != 0
      {
        assert SlotOk(st.procs[i]) && table[i].Snapshot() == st.procs[i];
      }
    }

    lemma SlotFacts(p: int)
      requires Valid() && IsPid(p)
      ensures SlotOk(st.procs[p]) && table[p].pid == p && table[p].Snapshot() == st.procs[p]
    {
    }

    lemma QueueFacts(r: int)
      requires Valid() && IsPid(r)
      ensures Disjoint(st.queues) && ListIs(links, r, st.queues[r]) && AllPids(st.queues[r])
      ensures NoDup(st.queues[r]) && forall s :: s in st.queues[r] <==> Sends(st, s, r)
    {
      InvDisjoint(st);
      assert QueueExact(st, r);
    }

    lemma NotQueued(s: int)
      requires SlotsAre(st) && Inv(st) && IsPid(s) && st.procs[s].flags == {}
      ensures Disjoint(st.queues) && forall e :: IsPid(e) ==> s !in st.queues[e]
    {
      InvDisjoint(st);
      forall e | IsPid(e) ensures s !in st.queues[e] {
        assert QueueExact(st, e) && !Sends(st, s, e);
      }
    }
  }

  ghost predicate Chained(next: seq<int>, q: seq<int>)
    requires |next| == NR_SLOTS && AllPids(q)
  {
    forall j :: 0 <= j < |q| ==> next[q[j]] == PidAt(q, j + 1)
  }

  lemma ChainedTail(next: seq<int>, q: seq<int>)
    requires |next| == NR_SLOTS && AllPids(q) && q != [] && NoDup(q) && Chained(next, q)
    ensures AllPids(q[1..]) && NoDup(q[1..]) && PidAt(q[1..], 0) == next[q[0]]
    ensures Chained(next[q[0] := NIL], q[1..])
  {
  }

  ghost function Pids(): set<int> {
    set i: int {:trigger IsPid(i)} | 0 <= i < NR_SLOTS && IsPid(i)
  }

  ghost predicate ReachesInSteps(g: Graph, a: int, b: int) {
    exists k: nat :: 0 < k && Walk(g, a, b, k)
  }

  lemma ReachesFromNext(g: Graph, a: int, b: int)
    requires HasEdge(g, a) && a != b
    ensures Reaches(g, a, b) <==> Reaches(g, g[a], b)
  {
    if k: nat :| Walk(g, a, b, k) {
      assert Walk(g, g[a], b, k - 1);
    }
    if k: nat :| Walk(g, g[a], b, k) {
      assert Walk(g, a, b, k + 1);
    }
  }

  lemma WalkFromSeen(g: Graph, seen: set<int>, a: int)
    requires HasEdge(g, a)
    requires forall v :: v in seen ==> ReachesInSteps(g, v, a)
    ensures forall v :: v in seen + {a} ==> ReachesInSteps(g, v, g[a])
  {
    assert Walk(g, a, g[a], 1) by { assert Walk(g, g[a], g[a], 0); }
    forall v | v in seen
      ensures ReachesInSteps(g, v, g[a])
    {
      var k: nat :| 0 < k && Walk(g, v, a, k);
      WalkAppend(g, v, a, g[a], k, 1);
      assert Walk(g, v, g[a], k + 1);
    }
  }
}
