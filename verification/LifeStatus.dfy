/** The exit status a parent is told is the one the process exited with, or -1 if it was killed, over every run. */
module LifeStatus {
  import opened ProcTable
  import opened LifeSpec
  import opened LifeInvariant
  import opened LifeRuns
  import opened LifeResults

  /** The status with which a process ends in this step. */
  function StatusOf(op: Op): int {
    if op.OpExit? then op.status else -1
  }

  // ---------- one step ----------

  /** p ends in the step from l to l' and has the status given, or was a zombie before and has its status still. */
  ghost predicate From(l: Life, l': Life, op: Op, p: int) {
    && LifeShape(l) && LifeShape(l') && FIRST_FORKED <= p < NR_SLOTS && !Free(l, p)
    && if p == Dying(op) then l'.status[p] == StatusOf(op)
       else Hanging in l.flags[p] && l'.status[p] == l.status[p]
  }

  /** Whatever is answered to a wait in this step, and every zombie there is after it, has its status From l. */
  ghost predicate StatusesFrom(l: Life, l': Life, op: Op) {
    && LifeShape(l) && LifeShape(l') && l.reaped <= l'.reaped
    && (forall i :: |l.reaped| <= i < |l'.reaped| ==>
          From(l, l', op, l'.reaped[i].pid) && l'.reaped[i].status == l'.status[l'.reaped[i].pid])
    && (forall p :: IsPid(p) && Hanging in l'.flags[p] ==> From(l, l', op, p))
  }

  lemma NextStatuses(l: Life, roots: set<int>, op: Op)
    requires LifeInv(l, roots) && RootsOk(roots) && Enabled(l, roots, op)
    ensures StatusesFrom(l, Next(l, roots, op), op)
  {
    hide StatusesFrom, LifeInv, RootsOk, Wait, Exit, Fork;
    match op
    case OpFork(caller) => ForkStatuses(l, roots, op);
    case OpExit(pid, status) => ExitStatuses(l, roots, op, pid, status);
    case OpKill(target, caller, sig) =>
      KilledIsUsed(l, roots, target, caller, sig);
      ExitStatuses(l, roots, op, target, -1);
    case _ => OtherStatuses(l, roots, op);
  }

  lemma ZombiesAreForked(l: Life, roots: set<int>, p: int)
    requires LifeInv(l, roots) && IsPid(p) && Hanging in l.flags[p]
    ensures FIRST_FORKED <= p && !Free(l, p)
  {
    assert FlagsOk(l.flags[p]);
    assert p < FIRST_FORKED ==> Live(l, p);
  }

  lemma ForkStatuses(l: Life, roots: set<int>, op: Op)
    requires LifeInv(l, roots) && Enabled(l, roots, op) && op.OpFork?
    ensures StatusesFrom(l, Next(l, roots, op), op)
  {
    hide Family, NoMissedExit;
    var l' := Next(l, roots, op);
    ShapeOfFamily(l, roots);
    forall p | IsPid(p) && Hanging in l'.flags[p]
      ensures From(l, l', op, p)
    {
      ZombiesAreForked(l, roots, p);
    }
  }

  lemma ShapeOfFamily(l: Life, roots: set<int>)
    requires LifeInv(l, roots)
    ensures LifeShape(l)
  {
  }

  lemma OtherStatuses(l: Life, roots: set<int>, op: Op)
    requires LifeInv(l, roots) && Enabled(l, roots, op) && (op.OpWait? || op.OpTraffic?)
    ensures StatusesFrom(l, Next(l, roots, op), op)
  {
    hide Family, NoMissedExit;
    var l' := Next(l, roots, op);
    ShapeOfFamily(l, roots);
    forall p | IsPid(p) && Hanging in l.flags[p]
      ensures From(l, l', op, p)
    {
      ZombiesAreForked(l, roots, p);
    }
  }

  lemma ExitStatuses(l: Life, roots: set<int>, op: Op, pid: int, status: int)
    requires LifeInv(l, roots) && Dying(op) == pid && StatusOf(op) == status
    requires FIRST_FORKED <= pid < NR_SLOTS && !Free(l, pid)
    ensures IsPid(l.parent[pid]) && StatusesFrom(l, Exit(l, pid, status), op)
  {
    assert Live(l, l.parent[pid]);
    hide Family, NoMissedExit, Exit;
    ExitMoves(l, pid, status);
    var l' := Exit(l, pid, status);
    forall p | IsPid(p) && (p == pid || Hanging in l.flags[p])
      ensures From(l, l', op, p)
    {
      if p != pid { ZombiesAreForked(l, roots, p); }
    }
  }

  lemma ExitMoves(l: Life, pid: int, status: int)
    requires LifeShape(l) && IsPid(pid) && IsPid(l.parent[pid])
    ensures var l' := Exit(l, pid, status);
      && LifeShape(l') && l'.status == l.status[pid := status] && l.reaped <= l'.reaped
      && (forall p :: IsPid(p) && Hanging in l'.flags[p] ==> p == pid || Hanging in l.flags[p])
      && forall i :: |l.reaped| <= i < |l'.reaped| ==>
        && IsPid(l'.reaped[i].pid) && l'.reaped[i].status == l'.status[l'.reaped[i].pid]
        && (l'.reaped[i].pid == pid || Hanging in l.flags[l'.reaped[i].pid])
  {
    hide Depart, Adopt;
    DepartMoves(Silenced(l, pid), pid, status);
    AdoptMoves(Depart(Silenced(l, pid), pid, status), pid);
  }

  lemma DepartMoves(l: Life, pid: int, status: int)
    requires LifeShape(l) && IsPid(pid) && IsPid(l.parent[pid])
    ensures var l' := Depart(l, pid, status);
      && LifeShape(l') && l'.status == l.status[pid := status] && l.reaped <= l'.reaped
      && (forall p :: IsPid(p) && Hanging in l'.flags[p] ==> p == pid || Hanging in l.flags[p])
      && forall i :: |l.reaped| <= i < |l'.reaped| ==>
        l'.reaped[i].pid == pid && l'.reaped[i].status == status
  {
  }

  lemma AdoptMoves(l: Life, pid: int)
    requires LifeShape(l)
    ensures var l' := Adopt(l, pid);
      && LifeShape(l') && l'.status == l.status && l.reaped <= l'.reaped
      && (forall p :: IsPid(p) && Hanging in l'.flags[p] ==> Hanging in l.flags[p])
      && forall i :: |l.reaped| <= i < |l'.reaped| ==>
        && IsPid(l'.reaped[i].pid) && l'.reaped[i].status == l'.status[l'.reaped[i].pid]
        && Hanging in l.flags[l'.reaped[i].pid]
  {
  }

  // ---------- the numbers of the processes reaped ----------

  lemma {:induction false} NamesAt(rs: seq<Reaped>, life: seq<nat>, i: nat)
    requires i < |rs| && 0 <= rs[i].pid < |life|
    ensures |Names(rs, life)| == |rs| && Names(rs, life)[i] == life[rs[i].pid]
  {
    NamesCount(rs[..|rs| - 1], life);
    if i < |rs| - 1 {
      NamesAt(rs[..|rs| - 1], life, i);
    }
  }

  lemma {:induction false} NamesCount(rs: seq<Reaped>, life: seq<nat>)
    ensures |Names(rs, life)| == |rs|
  {
    if rs != [] {
      NamesCount(rs[..|rs| - 1], life);
    }
  }

  // ---------- runs ----------

  datatype Given = Nothing | Status(value: int)

  /** The status that the last exit or kill of process n has given it, in the first k steps of a run. */
  ghost function LastGiven(ws: seq<World>, roots: set<int>, ops: seq<Op>, k: nat, n: nat): Given
    requires IsRun(ws, roots, ops) && k <= |ops|
  {
    if k == 0 then Nothing
    else
      assert StepsTo(ws[k - 1], roots, ops[k - 1], ws[k - 1 + 1]);
      if IsPid(Dying(ops[k - 1])) && ws[k - 1].life[Dying(ops[k - 1])] == n then Status(StatusOf(ops[k - 1]))
      else LastGiven(ws, roots, ops, k - 1, n)
  }

  /** After k steps every answer to a wait, and every zombie, carries the status given last. */
  ghost predicate Truthful(ws: seq<World>, roots: set<int>, ops: seq<Op>, k: nat)
    requires IsRun(ws, roots, ops) && k <= |ops|
  {
    var w := ws[k];
    && LifeShape(w.l) && |w.life| == NR_SLOTS && |w.who| == |w.l.reaped|
    && (forall i :: 0 <= i < |w.who| ==> LastGiven(ws, roots, ops, k, w.who[i]) == Status(w.l.reaped[i].status))
    && (forall p :: IsPid(p) && Hanging in w.l.flags[p] ==>
          LastGiven(ws, roots, ops, k, w.life[p]) == Status(w.l.status[p]))
  }

  /** Over every run, the i-th answer to a wait is the status of the last exit of the process it is for, or -1 if that
      process was killed last. */
  lemma {:induction false} StatusIsTrue(ws: seq<World>, roots: set<int>, ops: seq<Op>, k: nat)
    requires IsRun(ws, roots, ops) && k <= |ops|
    ensures Truthful(ws, roots, ops, k)
  {
    if k == 0 {
      assert forall p :: IsPid(p) ==> Hanging !in Start().l.flags[p];
    } else {
      StatusIsTrue(ws, roots, ops, k - 1);
      RunHolds(ws, roots, ops, k - 1);
      StepIsTrue(ws, roots, ops, k);
    }
  }

  lemma StepIsTrue(ws: seq<World>, roots: set<int>, ops: seq<Op>, k: nat)
    requires IsRun(ws, roots, ops) && 0 < k <= |ops| && Truthful(ws, roots, ops, k - 1)
    requires LifeInv(ws[k - 1].l, roots) && Counted(ws[k - 1])
    ensures Truthful(ws, roots, ops, k)
  {
    hide LifeInv, Next, Names, Enabled, Counted;
    var w, w', op := ws[k - 1], ws[k], ops[k - 1];
    assert StepsTo(w, roots, op, ws[k - 1 + 1]);
    NextStatuses(w.l, roots, op);
    var n := |w.l.reaped|;
    NamesCount(w'.l.reaped[n..], w.life);
    forall i | 0 <= i < |w'.who|
      ensures LastGiven(ws, roots, ops, k, w'.who[i]) == Status(w'.l.reaped[i].status)
    {
      if i < n {
        OldAnswer(w, roots, op, i);
      } else {
        var p := w'.l.reaped[i].pid;
        assert From(w.l, w'.l, op, p);
        assert w'.l.reaped[n..][i - n] == w'.l.reaped[i];
        NamesAt(w'.l.reaped[n..], w.life, i - n);
        StillGiven(ws, roots, ops, k, p);
      }
    }
    forall p | IsPid(p) && Hanging in w'.l.flags[p]
      ensures LastGiven(ws, roots, ops, k, w'.life[p]) == Status(w'.l.status[p])
    {
      assert From(w.l, w'.l, op, p);
      StillGiven(ws, roots, ops, k, p);
    }
  }

  /** Nobody dies who was reaped before. */
  lemma OldAnswer(w: World, roots: set<int>, op: Op, i: nat)
    requires Counted(w) && LifeInv(w.l, roots) && Enabled(w.l, roots, op) && i < |w.who|
    ensures IsPid(Dying(op)) ==> w.life[Dying(op)] != w.who[i]
  {
    if op.OpKill? {
      KilledIsUsed(w.l, roots, op.target, op.caller, op.sig);
    }
    assert IsPid(Dying(op)) ==> Used(w, Dying(op));
  }

  lemma StillGiven(ws: seq<World>, roots: set<int>, ops: seq<Op>, k: nat, p: int)
    requires IsRun(ws, roots, ops) && 0 < k <= |ops| && Truthful(ws, roots, ops, k - 1)
    requires LifeInv(ws[k - 1].l, roots) && Counted(ws[k - 1])
    requires From(ws[k - 1].l, ws[k].l, ops[k - 1], p)
    ensures LastGiven(ws, roots, ops, k, ws[k - 1].life[p]) == Status(ws[k].l.status[p])
  {
    var w, op := ws[k - 1], ops[k - 1];
    assert StepsTo(w, roots, op, ws[k - 1 + 1]);
    if IsPid(Dying(op)) && Dying(op) != p {
      OthersNumber(w, roots, op, p);
    }
  }

  lemma OthersNumber(w: World, roots: set<int>, op: Op, p: int)
    requires Counted(w) && LifeInv(w.l, roots) && Enabled(w.l, roots, op) && IsPid(Dying(op))
    requires Used(w, p) && p != Dying(op)
    ensures w.life[p] != w.life[Dying(op)]
  {
    if op.OpKill? {
      KilledIsUsed(w.l, roots, op.target, op.caller, op.sig);
    }
    assert Used(w, Dying(op));
  }
}
