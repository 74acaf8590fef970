/** fork, exit, kill and wait on the process table. */
module Lifecycle {
  import opened ProcTable
  import opened LifeSpec
  import opened LifeInvariant
  import opened LifeRuns

  class MemoryManager {
    const table: seq<Proc>
    // Answers sent to waits: exit statuses, and who was told that there is no child.
    var reaped: seq<Reaped>
    var childless: seq<int>
    ghost var l: Life
    ghost const roots: set<int>

    ghost predicate Mirrors()
      reads this, table
    {
      && |table| == NR_SLOTS && LifeShape(l) && l.reaped == reaped && l.childless == childless
      && (forall i {:trigger table[i]} :: IsPid(i) ==> table[i].pid == i)
      && (forall i {:trigger table[i].flags} :: IsPid(i) ==> table[i].flags == l.flags[i])
      && (forall i {:trigger table[i].parent} :: IsPid(i) ==> table[i].parent == l.parent[i])
      && (forall i {:trigger table[i].exitStatus} :: IsPid(i) ==> table[i].exitStatus == l.status[i])
    }

    ghost predicate Valid()
      reads this, table
    {
      Mirrors() && LifeInv(l, roots) && RootsOk(roots)
    }

    /** roots are the natives that may fork. */
    constructor (table: seq<Proc>, ghost roots: set<int>)
      requires RootsOk(roots) && |table| == NR_SLOTS
      requires forall i :: IsPid(i) ==>
        && table[i].pid == i && table[i].flags == Born().flags[i]
        && table[i].parent == Born().parent[i] && table[i].exitStatus == Born().status[i]
      ensures Valid() && l == Born() && this.table == table && this.roots == roots
    {
      this.table, reaped, childless := table, [], [];
      this.roots, l := roots, Born();
      new;
      BornInv(roots);
    }

    /** The pid of the child, or -1 if the table is full. */
    method DoFork(caller: int) returns (child: int)
      requires Valid() && (caller in roots || FIRST_FORKED <= caller < NR_SLOTS) && IsPid(caller)
      requires Live(l, caller)
      modifies this`l, table
      ensures Valid() && l == Fork(old(l), caller)
      ensures child == if FirstFree(old(l), 0) == NR_SLOTS then -1 else FirstFree(old(l), 0)
      ensures child == -1 || FIRST_FORKED <= child < NR_SLOTS
      ensures child != -1 ==>
        && old(table[child].flags) == {FreeSlot} && table[child].parent == caller
        && table[child].flags == old(table[caller].flags)
        && (forall p :: IsPid(p) && p != child ==>
              l.parent[p] == old(l).parent[p] && l.flags[p] == old(l).flags[p] && l.status[p] == old(l).status[p])
    {
      ForkKeepsInv(l, roots, caller);
      assert forall p :: IsPid(p) ==> FlagsOk(l.flags[p]);
      child := FindFree();
      assert child >= NR_TASKS + NR_NATIVE_PROCS;
      if child == NR_SLOTS {
        return -1;
      }
      CopySlot(caller, child);
    }

    method FindFree() returns (i: int)
      requires Mirrors() && forall p :: IsPid(p) ==> FlagsOk(l.flags[p])
      ensures i == FirstFree(l, 0)
    {
      i := 0;
      while i < NR_SLOTS && table[i].flags != {FreeSlot}
        invariant 0 <= i <= NR_SLOTS && FirstFree(l, i) == FirstFree(l, 0)
        decreases NR_SLOTS - i
      {
        assert FlagsOk(l.flags[i]);
        i := i + 1;
      }
    }

    method CopySlot(caller: int, child: int)
      requires Mirrors() && IsPid(caller) && IsPid(child) && child == FirstFree(l, 0)
      modifies this`l, table
      ensures Mirrors() && l == Fork(old(l), caller)
    {
      table[child].CopyFrom(table[caller]);
      table[child].parent := caller;
      l := Fork(l, caller);
    }

    /** exit(): messages are torn down, then the process departs. */
    method DoExit(pid: int, status: int)
      requires Valid() && FIRST_FORKED <= pid < NR_SLOTS && Live(l, pid)
      modifies this`l, this`reaped, table`flags, table`parent, table`exitStatus
      ensures Valid() && l == Exit(old(l), pid, status)
    {
      ExitKeepsInv(l, roots, pid, status);
      assert Live(l, l.parent[pid]) && Live(l, INIT);
      Silence(pid);
      DoProcessExit(pid, status);
    }

    /** kill(): 0 if the target was there to be killed, -1 otherwise. */
    method DoKill(target: int, caller: int, sig: int) returns (ret: int)
      requires Valid()
      modifies this`l, this`reaped, table`flags, table`parent, table`exitStatus
      ensures Valid() && ret == if KillAccepted(old(l), target, caller, sig) then 0 else -1
      ensures l == if ret == 0 then Exit(old(l), target, -1) else old(l)
      ensures ret == 0 <==>
        (sig == 15 || sig == 9) && FIRST_FORKED <= target < NR_SLOTS && target != caller
        && FreeSlot !in old(table[target].flags)
    {
      if sig != SIG_TERM && sig != SIG_KILL {
        return -1;
      }
      if target < NR_TASKS + NR_NATIVE_PROCS || target >= NR_SLOTS {
        return -1;
      }
      if target == INIT {
        return -1;
      }
      if target == caller {
        return -1;
      }
      if table[target].flags == {FreeSlot} {
        return -1;
      }
      assert FlagsOk(l.flags[target]);
      ExitKeepsInv(l, roots, target, -1);
      assert Live(l, l.parent[target]) && Live(l, INIT);
      Silence(target);
      DoProcessExit(target, -1);
      ret := 0;
    }

    /** The part of abort_ipc that concerns the family tree. */
    method Silence(pid: int)
      requires Mirrors() && IsPid(pid)
      modifies this`l, table`flags
      ensures Mirrors() && l == Silenced(old(l), pid)
    {
      table[pid].flags := {Receiving};
      l := Silenced(l, pid);
    }

    method DoProcessExit(pid: int, status: int)
      requires Mirrors() && IsPid(pid) && IsPid(l.parent[pid])
      modifies this`l, this`reaped, table`flags, table`parent, table`exitStatus
      ensures Mirrors() && l == Adopt(Depart(old(l), pid, status), pid)
    {
      var parentPid := table[pid].parent;
      SetStatus(pid, status);
      if Waiting in table[parentPid].flags {
        ClearWaiting(parentPid);
        Cleanup(pid);
      } else {
        AddFlag(pid, Hanging);
      }
      Reparent(pid);
    }

    /** INIT becomes the parent of the children of pid. */
    method Reparent(pid: int)
      requires Mirrors()
      modifies this`l, this`reaped, table`flags, table`parent
      ensures Mirrors() && l == Adopt(old(l), pid)
    {
      hide FirstZombie;
      ghost var first := FirstZombie(l, pid, 0);
      ghost var initReaps := Waiting in l.flags[INIT] && first < NR_SLOTS;
      for i := 0 to NR_SLOTS
        invariant Mirrors()
        invariant l.parent == ReparentedUpTo(old(l).parent, pid, i)
        invariant l.status == old(l).status && l.childless == old(l).childless
        invariant l.flags == if initReaps && first < i
          then old(l).flags[INIT := old(l).flags[INIT] - {Waiting}][first := {FreeSlot}] else old(l).flags
        invariant l.reaped == if initReaps && first < i
          then old(l).reaped + [Reaped(INIT, first, old(l).status[first])] else old(l).reaped
      {
        assert i < first ==> !ZombieOf(old(l), pid, i);
        if table[i].parent == pid {
          SetParent(i, INIT);
          if Waiting in table[INIT].flags && Hanging in table[i].flags {
            ClearWaiting(INIT);
            Cleanup(i);
          }
        }
      }
      assert l.parent == Reparented(old(l).parent, pid);
    }

    /** The answer to the parent's wait, and the end of the slot. */
    method Cleanup(p: int)
      requires Mirrors() && IsPid(p)
      modifies this`l, this`reaped, table`flags
      ensures Mirrors() && l == LifeSpec.Cleanup(old(l), p)
    {
      reaped := reaped + [Reaped(table[p].parent, p, table[p].exitStatus)];
      table[p].flags := {FreeSlot};
      l := LifeSpec.Cleanup(l, p);
    }

    method ClearWaiting(p: int)
      requires Mirrors() && IsPid(p)
      modifies this`l, table`flags
      ensures Mirrors() && l == StopWaiting(old(l), p)
    {
      table[p].flags := table[p].flags - {Waiting};
      l := StopWaiting(l, p);
    }

    method AddFlag(p: int, f: Flag)
      requires Mirrors() && IsPid(p)
      modifies this`l, table`flags
      ensures Mirrors() && l == old(l).(flags := old(l).flags[p := old(l).flags[p] + {f}])
    {
      table[p].flags := table[p].flags + {f};
      l := l.(flags := l.flags[p := l.flags[p] + {f}]);
    }

    method SetStatus(p: int, status: int)
      requires Mirrors() && IsPid(p)
      modifies this`l, table`exitStatus
      ensures Mirrors() && l == old(l).(status := old(l).status[p := status])
    {
      table[p].exitStatus := status;
      l := l.(status := l.status[p := status]);
    }

    method SetParent(p: int, q: int)
      requires Mirrors() && IsPid(p)
      modifies this`l, table`parent
      ensures Mirrors() && l == old(l).(parent := old(l).parent[p := q])
    {
      table[p].parent := q;
      l := l.(parent := l.parent[p := q]);
    }

    /** wait(): reap the first zombie child, or wait for one, or be told that there is none. */
    method DoWait(caller: int)
      requires Valid() && IsPid(caller) && Live(l, caller)
      modifies this`l, this`reaped, this`childless, table`flags
      ensures Valid() && l == Wait(old(l), caller)
    {
      WaitKeepsInv(l, roots, caller);
      ReapOrWait(caller);
    }

    method ReapOrWait(caller: int)
      requires Mirrors() && IsPid(caller)
      modifies this`l, this`reaped, this`childless, table`flags
      ensures Mirrors() && l == Wait(old(l), caller)
    {
      var children := 0;
      for i := 0 to NR_SLOTS
        invariant Mirrors() && l == old(l) && reaped == old(reaped) && childless == old(childless)
        invariant FirstZombie(l, caller, i) == FirstZombie(l, caller, 0)
        invariant 0 <= children && (children > 0 <==> exists j :: 0 <= j < i && l.parent[j] == caller)
      {
        if table[i].parent == caller {
          children := children + 1;
          if Hanging in table[i].flags {
            Cleanup(i);
            return;
          }
        }
      }
      if children != 0 {
        AddFlag(caller, Waiting);
      } else {
        childless := childless + [caller];
        l := Wait(l, caller);
      }
    }
  }

  /** The first n slots have been given to INIT if they were children of pid. */
  ghost function ReparentedUpTo(parent: seq<int>, pid: int, n: nat): (r: seq<int>)
    ensures |r| == |parent|
  {
    seq(|parent|, i requires 0 <= i < |parent| => if i < n && parent[i] == pid then INIT else parent[i])
  }
}
