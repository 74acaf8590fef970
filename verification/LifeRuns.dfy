/** Runs of the process lifecycle: the family tree always holds, and every exit is reported once. */
module LifeRuns {
  import opened ProcTable
  import opened LifeSpec
  import opened LifeInvariant

  const SIG_TERM := 15
  const SIG_KILL := 9

  /** kill() refuses unknown signals, natives, the caller itself and free slots. */
  predicate KillAccepted(l: Life, target: int, caller: int, sig: int)
    requires LifeShape(l)
  {
    && (sig == SIG_TERM || sig == SIG_KILL)
    && FIRST_FORKED <= target < NR_SLOTS
    && target != caller
    && l.flags[target] != {FreeSlot}
  }

  datatype Op =
    | OpFork(caller: int)
    | OpExit(pid: int, status: int)
    | OpKill(target: int, caller: int, sig: int)
    | OpWait(caller: int)
    | OpTraffic(flags: seq<set<Flag>>)    // messages block and unblock processes

  const TREE_FLAGS := {Waiting, Hanging, FreeSlot}

  /** roots are the natives that may fork. */
  ghost predicate Enabled(l: Life, roots: set<int>, op: Op)
    requires LifeShape(l)
  {
    match op
    case OpFork(caller) =>
      (caller in roots || FIRST_FORKED <= caller < NR_SLOTS)
      && IsPid(caller) && Live(l, caller) && Waiting !in l.flags[caller]
    case OpExit(pid, _) => FIRST_FORKED <= pid < NR_SLOTS && Live(l, pid) && Waiting !in l.flags[pid]
    case OpKill(target, caller, sig) => KillAccepted(l, target, caller, sig)
    case OpWait(caller) => IsPid(caller) && Live(l, caller) && Waiting !in l.flags[caller]
    case OpTraffic(flags) =>
      |flags| == NR_SLOTS
      && (forall p, f :: IsPid(p) && f in TREE_FLAGS ==> (f in flags[p] <==> f in l.flags[p]))
      && (forall p :: IsPid(p) && Free(l, p) ==> flags[p] == l.flags[p])
  }

  ghost function Next(l: Life, roots: set<int>, op: Op): Life
    requires LifeInv(l, roots) && Enabled(l, roots, op)
  {
    match op
    case OpFork(caller) => Fork(l, caller)
    case OpExit(pid, status) => Exit(l, pid, status)
    case OpKill(target, _, _) => Exit(l, target, -1)
    case OpWait(caller) => Wait(l, caller)
    case OpTraffic(flags) => l.(flags := flags)
  }

  lemma TrafficKeepsInv(l: Life, roots: set<int>, flags: seq<set<Flag>>)
    requires LifeInv(l, roots) && Enabled(l, roots, OpTraffic(flags))
    ensures LifeInv(l.(flags := flags), roots)
  {
    var l' := l.(flags := flags);
    assert forall p :: IsPid(p) ==> (Live(l', p) <==> Live(l, p)) && (Free(l', p) <==> Free(l, p));
    assert forall p :: IsPid(p) ==> FlagsOk(flags[p]) by {
      assert forall p :: IsPid(p) ==> FlagsOk(l.flags[p]);
    }
    assert forall q, p :: ZombieOf(l', q, p) <==> ZombieOf(l, q, p);
  }

  lemma NextKeepsInv(l: Life, roots: set<int>, op: Op)
    requires LifeInv(l, roots) && RootsOk(roots) && Enabled(l, roots, op)
    ensures LifeInv(Next(l, roots, op), roots)
  {
    match op
    case OpFork(caller) => ForkKeepsInv(l, roots, caller);
    case OpExit(pid, status) => ExitKeepsInv(l, roots, pid, status);
    case OpKill(target, _, _) =>
      assert FlagsOk(l.flags[target]);
      ExitKeepsInv(l, roots, target, -1);
    case OpWait(caller) => WaitKeepsInv(l, roots, caller);
    case OpTraffic(flags) => TrafficKeepsInv(l, roots, flags);
  }

  // ---------- who is reaped, and how often ----------

  /** A slot is used again and again. born counts the processes ever forked, life[p] numbers the one in slot
      p, and who[i] the one whose exit status l.reaped[i] is. */
  datatype World = World(l: Life, born: nat, life: seq<nat>, who: seq<nat>)

  ghost predicate Used(w: World, p: int)
    requires LifeShape(w.l)
  {
    FIRST_FORKED <= p < NR_SLOTS && !Free(w.l, p)
  }

  /** Every process ever forked is in exactly one place: in its slot, or once among those reaped. */
  ghost predicate Counted(w: World) {
    && LifeShape(w.l) && |w.life| == NR_SLOTS && |w.who| == |w.l.reaped|
    && (forall i :: 0 <= i < |w.who| ==> w.who[i] < w.born)
    && (forall i, j :: 0 <= i < j < |w.who| ==> w.who[i] != w.who[j])
    && (forall p :: Used(w, p) ==> w.life[p] < w.born && w.life[p] !in w.who)
    && (forall p, q :: Used(w, p) && Used(w, q) && p != q ==> w.life[p] != w.life[q])
    && (forall n: nat :: n < w.born ==> Placed(w, n))
  }

  ghost predicate Placed(w: World, n: nat)
    requires LifeShape(w.l) && |w.life| == NR_SLOTS
  {
    n in w.who || exists p :: Used(w, p) && w.life[p] == n
  }

  /** The numbers of the processes that a step reaps, in the order of its answers. */
  function Names(rs: seq<Reaped>, life: seq<nat>): seq<nat> {
    if rs == [] then []
    else Names(rs[..|rs|-1], life) + [var p := rs[|rs|-1].pid; if 0 <= p < |life| then life[p] else 0]
  }

  ghost function Step(w: World, roots: set<int>, op: Op): World
    requires |w.life| == NR_SLOTS && LifeInv(w.l, roots) && Enabled(w.l, roots, op)
  {
    var l' := Next(w.l, roots, op);
    var forked := op.OpFork? && FirstFree(w.l, 0) < NR_SLOTS;
    World(l',
      if forked then w.born + 1 else w.born,
      if forked then w.life[FirstFree(w.l, 0) := w.born] else w.life,
      w.who + if |w.l.reaped| <= |l'.reaped| then Names(l'.reaped[|w.l.reaped|..], w.life) else [])
  }

  // ---------- runs ----------

  ghost predicate StepsTo(w: World, roots: set<int>, op: Op, w': World) {
    |w.life| == NR_SLOTS && LifeInv(w.l, roots) && Enabled(w.l, roots, op) && w' == Step(w, roots, op)
  }

  function Start(): World {
    World(Born(), 0, seq(NR_SLOTS, i => 0), [])
  }

  ghost predicate IsRun(ws: seq<World>, roots: set<int>, ops: seq<Op>) {
    && |ws| == |ops| + 1 && RootsOk(roots)
    && ws[0] == Start()
    && forall i :: 0 <= i < |ops| ==> StepsTo(ws[i], roots, ops[i], ws[i + 1])
  }

  /** w1 comes after w without a fork, and names whom it has reaped since. */
  ghost predicate Follows(w: World, w1: World) {
    && w1.born == w.born && w1.life == w.life
    && w.l.reaped <= w1.l.reaped
    && w1.who == w.who + Names(w1.l.reaped[|w.l.reaped|..], w.life)
  }

  lemma {:induction false} NamesAppend(a: seq<Reaped>, b: seq<Reaped>, life: seq<nat>)
    ensures Names(a + b, life) == Names(a, life) + Names(b, life)
    decreases |b|
  {
    if b == [] {
      assert a + b == a;
    } else {
      assert (a + b)[..|a + b| - 1] == a + b[..|b| - 1];
      NamesAppend(a, b[..|b| - 1], life);
    }
  }

  lemma FollowsTrans(w: World, w1: World, w2: World)
    requires Follows(w, w1) && Follows(w1, w2)
    ensures Follows(w, w2)
  {
    hide Names;
    var n, n1 := |w.l.reaped|, |w1.l.reaped|;
    assert w2.l.reaped[n..] == w1.l.reaped[n..] + w2.l.reaped[n1..];
    NamesAppend(w1.l.reaped[n..], w2.l.reaped[n1..], w.life);
  }

  /** Cleaning up one used slot keeps the count. */
  lemma CleanupCounted(w: World, p: int)
    requires Counted(w) && Used(w, p)
    ensures var w' := World(Cleanup(w.l, p), w.born, w.life, w.who + [w.life[p]]);
      Counted(w') && Follows(w, w')
  {
    var w' := World(Cleanup(w.l, p), w.born, w.life, w.who + [w.life[p]]);
    assert forall q :: Used(w', q) <==> Used(w, q) && q != p;
    forall n: nat | n < w.born
      ensures Placed(w', n)
    {
      assert Placed(w, n);
      if n !in w.who {
        var q :| Used(w, q) && w.life[q] == n;
        assert q == p || Used(w', q);
        assert w'.who[|w.who|] == w.life[p];
      } else {
        assert n in w'.who;
      }
    }
    var r := Reaped(w.l.parent[p], p, w.l.status[p]);
    assert w'.l.reaped[|w.l.reaped|..] == [r];
    assert [r][..0] == [];
  }

  /** Changes that free no slot and take none keep the count. */
  lemma SameSlotsCounted(w: World, l': Life)
    requires Counted(w) && LifeShape(l') && l'.reaped == w.l.reaped
    requires forall p :: IsPid(p) ==> (Free(l', p) <==> Free(w.l, p))
    ensures Counted(w.(l := l')) && Follows(w, w.(l := l'))
  {
    var w' := w.(l := l');
    assert forall q :: Used(w', q) <==> Used(w, q);
    forall n: nat | n < w.born ensures Placed(w', n) { assert Placed(w, n); }
    assert l'.reaped[|w.l.reaped|..] == [];
  }

  lemma DepartCounted(w: World, roots: set<int>, pid: int, status: int) returns (w1: World)
    requires Counted(w) && LifeInv(w.l, roots) && Used(w, pid)
    ensures w1.l == Depart(Silenced(w.l, pid), pid, status) && Counted(w1) && Follows(w, w1)
  {
    var q := w.l.parent[pid];
    assert Live(w.l, q);
    var l0 := Silenced(w.l, pid).(status := w.l.status[pid := status]);
    if Waiting in l0.flags[q] {
      var w0 := w.(l := StopWaiting(l0, q));
      SameSlotsCounted(w, w0.l);
      CleanupCounted(w0, pid);
      w1 := World(Cleanup(w0.l, pid), w.born, w.life, w.who + [w.life[pid]]);
      FollowsTrans(w, w0, w1);
    } else {
      w1 := w.(l := Depart(Silenced(w.l, pid), pid, status));
      SameSlotsCounted(w, w1.l);
    }
  }

  lemma AdoptCounted(w: World, pid: int) returns (w1: World)
    requires Counted(w) && FIRST_FORKED <= pid < NR_SLOTS
    requires forall p :: 0 <= p < FIRST_FORKED ==> Live(w.l, p)
    requires forall p :: IsPid(p) ==> FlagsOk(w.l.flags[p])
    ensures w1.l == Adopt(w.l, pid) && Counted(w1) && Follows(w, w1)
  {
    var z := FirstZombie(w.l, pid, 0);
    w1 := w.(l := w.l.(parent := Reparented(w.l.parent, pid)));
    SameSlotsCounted(w, w1.l);
    if Waiting in w.l.flags[INIT] && z < NR_SLOTS {
      assert z < FIRST_FORKED ==> Live(w.l, z);
      var w0 := w1.(l := StopWaiting(w1.l, INIT));
      SameSlotsCounted(w1, w0.l);
      CleanupCounted(w0, z);
      var w2 := World(Cleanup(w0.l, z), w.born, w.life, w0.who + [w.life[z]]);
      FollowsTrans(w1, w0, w2);
      FollowsTrans(w, w1, w2);
      w1 := w2;
    }
  }

  lemma ExitCounted(w: World, roots: set<int>, pid: int, status: int) returns (w2: World)
    requires Counted(w) && LifeInv(w.l, roots) && RootsOk(roots) && Used(w, pid)
    ensures w2.l == Exit(w.l, pid, status) && Counted(w2) && Follows(w, w2)
  {
    var w1 := DepartCounted(w, roots, pid, status);
    assert Live(w.l, w.l.parent[pid]) && forall p :: IsPid(p) ==> FlagsOk(w.l.flags[p]);
    DepartFlags(Silenced(w.l, pid), pid, status);
    forall p | 0 <= p < FIRST_FORKED
      ensures Live(w1.l, p)
    {
      assert Live(w.l, p);
    }
    w2 := AdoptCounted(w1, pid);
    FollowsTrans(w, w1, w2);
  }

  lemma WaitCounted(w: World, roots: set<int>, caller: int) returns (w1: World)
    requires Counted(w) && LifeInv(w.l, roots) && IsPid(caller) && Live(w.l, caller)
    ensures w1.l == Wait(w.l, caller) && Counted(w1) && Follows(w, w1)
  {
    var z := FirstZombie(w.l, caller, 0);
    if z < NR_SLOTS {
      assert z < FIRST_FORKED ==> Live(w.l, z);
      assert FlagsOk(w.l.flags[z]) && Used(w, z);
      CleanupCounted(w, z);
      w1 := World(Cleanup(w.l, z), w.born, w.life, w.who + [w.life[z]]);
    } else {
      w1 := w.(l := Wait(w.l, caller));
      SameSlotsCounted(w, w1.l);
    }
  }

  lemma ForkCounted(w: World, roots: set<int>, caller: int)
    requires Counted(w) && LifeInv(w.l, roots) && RootsOk(roots) && Enabled(w.l, roots, OpFork(caller))
    ensures Counted(Step(w, roots, OpFork(caller)))
  {
    var w' := Step(w, roots, OpFork(caller));
    ForkKeepsInv(w.l, roots, caller);
    var c := FirstFree(w.l, 0);
    if c < NR_SLOTS {
      assert forall q :: Used(w', q) <==> Used(w, q) || q == c;
      forall n: nat | n < w'.born
        ensures Placed(w', n)
      {
        if n < w.born {
          assert Placed(w, n);
          if n !in w.who {
            var q :| Used(w, q) && w.life[q] == n;
            assert Used(w', q) && w'.life[q] == n;
          }
        } else {
          assert Used(w', c) && w'.life[c] == n;
        }
      }
    } else {
      assert w'.who == w.who && w' == w;
    }
  }

  lemma StepCounted(w: World, roots: set<int>, op: Op)
    requires Counted(w) && LifeInv(w.l, roots) && RootsOk(roots) && Enabled(w.l, roots, op)
    ensures Counted(Step(w, roots, op))
  {
    var w1: World;
    match op {
      case OpFork(caller) =>
        ForkCounted(w, roots, caller);
        return;
      case OpExit(pid, status) => w1 := ExitCounted(w, roots, pid, status);
      case OpKill(target, _, _) =>
        assert FlagsOk(w.l.flags[target]);
        w1 := ExitCounted(w, roots, target, -1);
      case OpWait(caller) => w1 := WaitCounted(w, roots, caller);
      case OpTraffic(flags) =>
        w1 := w.(l := w.l.(flags := flags));
        SameSlotsCounted(w, w1.l);
    }
    assert Step(w, roots, op) == w1;
  }

  /** In every reachable state the family tree is whole, nobody waits with a zombie at hand, and every process
      ever forked is either still in its slot or has had its exit status handed out exactly once. */
  lemma {:induction false} RunHolds(ws: seq<World>, roots: set<int>, ops: seq<Op>, k: nat)
    requires IsRun(ws, roots, ops) && k < |ws|
    ensures LifeInv(ws[k].l, roots) && Counted(ws[k])
  {
    if k == 0 {
      BornInv(roots);
      assert forall p :: !Used(Start(), p);
    } else {
      RunHolds(ws, roots, ops, k - 1);
      assert StepsTo(ws[k - 1], roots, ops[k - 1], ws[k - 1 + 1]);
      NextKeepsInv(ws[k - 1].l, roots, ops[k - 1]);
      StepCounted(ws[k - 1], roots, ops[k - 1]);
    }
  }
}
