/** Whose child a process is, and who is told how it ended, over every run. */
module LifeDescent {
  import opened ProcTable
  import opened LifeSpec
  import opened LifeInvariant
  import opened LifeRuns
  import opened LifeResults
  import opened LifeStatus

  // ---------- one call ----------

  /** A fork by q that finds a slot: the slot was free, its process is a child of q with the flags of q, and no other
      slot changes. */
  lemma ForkMeans(l: Life, q: int)
    requires LifeShape(l) && IsPid(q) && FirstFree(l, 0) < NR_SLOTS && !Free(l, q)
    ensures LifeShape(Fork(l, q))
    ensures var l', c := Fork(l, q), FirstFree(l, 0);
      && Free(l, c) && l'.parent[c] == q && l'.flags[c] == l.flags[q]
      && (forall p :: IsPid(p) && p != c ==>
            l'.parent[p] == l.parent[p] && l'.flags[p] == l.flags[p] && l'.status[p] == l.status[p])
      && l'.reaped == l.reaped && l'.childless == l.childless
  {
  }

  /** A caller that has a child in use, and no zombie, waits, and nothing else happens. */
  lemma WaitBlocks(l: Life, q: int)
    requires LifeShape(l) && IsPid(q) && HasChild(l, q) && forall p :: !ZombieOf(l, q, p)
    ensures LifeShape(Wait(l, q))
    ensures var l' := Wait(l, q);
      && Waiting in l'.flags[q] && l'.reaped == l.reaped && l'.childless == l.childless
      && l'.parent == l.parent && l'.status == l.status && forall p :: IsPid(p) && p != q ==> l'.flags[p] == l.flags[p]
  {
  }

  // ---------- runs ----------

  /** Who forked a process: the slot the forker was in, and its own number. */
  datatype Origin = Unborn | Forker(slot: int, number: nat)

  /** The forker of process n, if that was born in the first k steps. */
  ghost function OriginOf(ws: seq<World>, roots: set<int>, ops: seq<Op>, k: nat, n: nat): Origin
    requires IsRun(ws, roots, ops) && k <= |ops|
  {
    if k == 0 then Unborn
    else
      StepFacts(ws, roots, ops, k - 1);
      var w, op := ws[k - 1], ops[k - 1];
      if op.OpFork? && FirstFree(w.l, 0) < NR_SLOTS && w.born == n then Forker(op.caller, w.life[op.caller])
      else OriginOf(ws, roots, ops, k - 1, n)
  }

  lemma StepFacts(ws: seq<World>, roots: set<int>, ops: seq<Op>, k: nat)
    requires IsRun(ws, roots, ops) && k < |ops|
    ensures StepsTo(ws[k], roots, ops[k], ws[k + 1]) && LifeShape(ws[k].l) && |ws[k].life| == NR_SLOTS
    ensures ops[k].OpFork? ==> IsPid(ops[k].caller) && Live(ws[k].l, ops[k].caller)
  {
    assert StepsTo(ws[k], roots, ops[k], ws[k + 1]);
  }

  /** The forker is a native, or still in its slot and not a zombie. */
  predicate Lives(w: World, o: Origin)
    requires LifeShape(w.l) && |w.life| == NR_SLOTS
  {
    o.Forker? && IsPid(o.slot) && (o.slot < FIRST_FORKED || (Live(w.l, o.slot) && w.life[o.slot] == o.number))
  }

  /** p is a child of its forker as long as that lives, and else of INIT. */
  predicate Descended(w: World, p: int, o: Origin) {
    && LifeShape(w.l) && |w.life| == NR_SLOTS && IsPid(p)
    && o.Forker? && (o.slot >= FIRST_FORKED ==> o.number < w.born)
    && w.l.parent[p] == if Lives(w, o) then o.slot else INIT
  }

  /** Over every run, the parent of every process is the one that forked it, as long as that lives, and INIT
      afterwards. */
  lemma {:induction false} ParentIsForker(ws: seq<World>, roots: set<int>, ops: seq<Op>, k: nat, p: int)
    requires IsRun(ws, roots, ops) && k <= |ops| && LifeShape(ws[k].l) && Used(ws[k], p) && |ws[k].life| == NR_SLOTS
    ensures Descended(ws[k], p, OriginOf(ws, roots, ops, k, ws[k].life[p]))
    decreases k
  {
    hide Descended, LifeInv, Counted, Next, Step;
    if k == 0 {
      NobodyUsed(p);
    } else {
      StepFacts(ws, roots, ops, k - 1);
      RunHolds(ws, roots, ops, k - 1);
      var w, op := ws[k - 1], ops[k - 1];
      var forked := op.OpFork? && FirstFree(w.l, 0) < NR_SLOTS;
      StepMoves(w, roots, op, p);
      if forked && p == FirstFree(w.l, 0) {
        ChildDescends(w, roots, op);
      } else {
        ParentIsForker(ws, roots, ops, k - 1, p);
        StillDescends(w, roots, op, p, OriginOf(ws, roots, ops, k - 1, w.life[p]));
      }
    }
  }

  lemma NobodyUsed(p: int)
    ensures LifeShape(Start().l) && !Used(Start(), p)
  {
  }

  /** Whoever is in use after a step was so before, but for the child of a fork. Its number is as before. */
  lemma StepMoves(w: World, roots: set<int>, op: Op, p: int)
    requires LifeInv(w.l, roots) && RootsOk(roots) && Counted(w) && Enabled(w.l, roots, op)
    requires LifeShape(Step(w, roots, op).l) && Used(Step(w, roots, op), p)
    ensures var forked := op.OpFork? && FirstFree(w.l, 0) < NR_SLOTS;
      && |Step(w, roots, op).life| == NR_SLOTS
      && (forked && p == FirstFree(w.l, 0) ==> Step(w, roots, op).life[p] == w.born)
      && (!(forked && p == FirstFree(w.l, 0)) ==>
            Used(w, p) && Step(w, roots, op).life[p] == w.life[p] && w.life[p] != w.born)
  {
    hide DescendsFrom, Exit;
    match op
    case OpExit(pid, status) => ExitFlags(w.l, roots, pid, status);
    case OpKill(target, caller, sig) =>
      KilledIsUsed(w.l, roots, target, caller, sig);
      ExitFlags(w.l, roots, target, -1);
    case _ =>
  }

  lemma ChildDescends(w: World, roots: set<int>, op: Op)
    requires LifeInv(w.l, roots) && RootsOk(roots) && Counted(w) && Enabled(w.l, roots, op) && op.OpFork?
    requires FirstFree(w.l, 0) < NR_SLOTS && IsPid(op.caller)
    ensures Descended(Step(w, roots, op), FirstFree(w.l, 0), Forker(op.caller, w.life[op.caller]))
  {
    hide DescendsFrom, NoMissedExit;
    ForkMeans(w.l, op.caller);
    assert op.caller >= FIRST_FORKED ==> Used(w, op.caller);
  }

  lemma StillDescends(w: World, roots: set<int>, op: Op, p: int, o: Origin)
    requires LifeInv(w.l, roots) && RootsOk(roots) && Counted(w) && Enabled(w.l, roots, op)
    requires Used(w, p) && Descended(w, p, o)
    requires LifeShape(Step(w, roots, op).l) && Used(Step(w, roots, op), p)
    requires !(op.OpFork? && p == FirstFree(w.l, 0))
    ensures Descended(Step(w, roots, op), p, o)
  {
    hide DescendsFrom, Exit, NoMissedExit, Names;
    match op
    case OpFork(caller) => ForkTakesForkedSlot(w.l, roots);
    case OpExit(pid, status) => ExitFlags(w.l, roots, pid, status);
    case OpKill(target, caller, sig) =>
      KilledIsUsed(w.l, roots, target, caller, sig);
      ExitFlags(w.l, roots, target, -1);
    case OpWait(caller) =>
    case OpTraffic(flags) =>
  }

  // ---------- who is told ----------

  lemma ExitTells(l: Life, p: int, status: int)
    requires LifeShape(l) && IsPid(p) && IsPid(l.parent[p]) && l.parent[p] != p
    ensures var l', q := Exit(l, p, status), l.parent[p];
      && LifeShape(l') && l'.parent[p] == q && l.reaped <= l'.reaped
      && if Waiting in l.flags[q] then
           && |l.reaped| < |l'.reaped| && l'.reaped[|l.reaped|] == Reaped(q, p, status)
           && Waiting !in l'.flags[q] && Free(l', p)
         else Hanging in l'.flags[p] && l'.status[p] == status
  {
    hide Depart, Adopt;
    DepartTells(Silenced(l, p), p, status);
    AdoptSpares(Depart(Silenced(l, p), p, status), p, l.parent[p]);
  }

  lemma DepartTells(l: Life, p: int, status: int)
    requires LifeShape(l) && IsPid(p) && IsPid(l.parent[p]) && l.parent[p] != p
    ensures var l', q := Depart(l, p, status), l.parent[p];
      && LifeShape(l') && l'.parent == l.parent && l.reaped <= l'.reaped
      && if Waiting in l.flags[q] then
           l'.reaped == l.reaped + [Reaped(q, p, status)] && Waiting !in l'.flags[q] && Free(l', p)
         else l'.reaped == l.reaped && Hanging in l'.flags[p] && l'.status[p] == status
  {
  }

  lemma AdoptSpares(l: Life, p: int, q: int)
    requires LifeShape(l) && IsPid(p) && IsPid(q) && l.parent[p] == q != p
    ensures var l' := Adopt(l, p);
      && LifeShape(l') && l'.parent[p] == q && l.reaped <= l'.reaped && l'.status == l.status
      && (Free(l, p) ==> Free(l', p)) && (Hanging in l.flags[p] ==> Hanging in l'.flags[p])
      && (Waiting !in l.flags[q] ==> Waiting !in l'.flags[q])
  {
  }

  /** A process ends. Its forker, if that lives, is told the status at once if it waits, and its wait is over; else the
      status is kept for it in the slot of the child. */
  lemma ForkerIsTold(ws: seq<World>, roots: set<int>, ops: seq<Op>, k: nat, p: int, q: int, number: nat)
    requires IsRun(ws, roots, ops) && k < |ops| && LifeShape(ws[k].l) && |ws[k].life| == NR_SLOTS
    requires Used(ws[k], p) && Live(ws[k].l, p) && Dying(ops[k]) == p
    requires OriginOf(ws, roots, ops, k, ws[k].life[p]) == Forker(q, number) && Lives(ws[k], Forker(q, number))
    ensures LifeShape(ws[k + 1].l) && IsPid(q)
    ensures var l, l' := ws[k].l, ws[k + 1].l;
      if Waiting in l.flags[q] then
        && |l.reaped| < |l'.reaped| && l'.reaped[|l.reaped|] == Reaped(q, p, StatusOf(ops[k]))
        && Waiting !in l'.flags[q] && Free(l', p)
      else Hanging in l'.flags[p] && l'.parent[p] == q && l'.status[p] == StatusOf(ops[k])
  {
    hide Exit, LifeInv, Names;
    StepFacts(ws, roots, ops, k);
    RunHolds(ws, roots, ops, k);
    ParentIsForker(ws, roots, ops, k, p);
    NotOwnParent(ws[k].l, roots, p);
    ExitTells(ws[k].l, p, StatusOf(ops[k]));
  }

  /** Following parents leads to a root, so nobody is its own parent. */
  lemma NotOwnParent(l: Life, roots: set<int>, p: int)
    requires LifeInv(l, roots) && RootsOk(roots) && FIRST_FORKED <= p < NR_SLOTS && !Free(l, p)
    ensures IsPid(l.parent[p]) && l.parent[p] != p
  {
    if l.parent[p] == p {
      var k: nat :| Descends(l.parent, roots, p, k);
      NoWayOut(l.parent, roots, p, k);
    }
  }

  lemma {:induction false} NoWayOut(parent: seq<int>, roots: set<int>, p: int, k: nat)
    requires |parent| == NR_SLOTS && RootsOk(roots) && FIRST_FORKED <= p < NR_SLOTS && parent[p] == p
    ensures !Descends(parent, roots, p, k)
    decreases k
  {
    if k > 0 {
      NoWayOut(parent, roots, p, k - 1);
    }
  }

  /** A wait by a process that has forked a zombie, and has not died since, does not block. It is answered with a zombie
      of its own, and with the status that one ended with. */
  lemma WaitTellsForker(ws: seq<World>, roots: set<int>, ops: seq<Op>, k: nat, p: int, q: int, number: nat)
    returns (z: int)
    requires IsRun(ws, roots, ops) && k < |ops| && LifeShape(ws[k].l) && |ws[k].life| == NR_SLOTS
    requires Used(ws[k], p) && Hanging in ws[k].l.flags[p] && ops[k] == OpWait(q)
    requires OriginOf(ws, roots, ops, k, ws[k].life[p]) == Forker(q, number) && Lives(ws[k], Forker(q, number))
    ensures LifeShape(ws[k + 1].l) && IsPid(q) && Used(ws[k], z) && Hanging in ws[k].l.flags[z]
    ensures var l, l' := ws[k].l, ws[k + 1].l;
      && l'.reaped == l.reaped + [Reaped(q, z, l.status[z])] && Waiting !in l'.flags[q] && Free(l', z)
      && LastGiven(ws, roots, ops, k, ws[k].life[z]) == Status(l.status[z])
      && l.parent[z] == q && z <= p
  {
    hide LifeInv, Names, LastGiven;
    StepFacts(ws, roots, ops, k);
    RunHolds(ws, roots, ops, k);
    ParentIsForker(ws, roots, ops, k, p);
    StatusIsTrue(ws, roots, ops, k);
    var l := ws[k].l;
    assert ZombieOf(l, q, p);
    z := FirstZombie(l, q, 0);
    ZombiesAreForked(l, roots, z);
    LiveIsNotHanging(l, q, z);
  }

  lemma LiveIsNotHanging(l: Life, q: int, z: int)
    requires LifeShape(l) && IsPid(q) && IsPid(z) && Hanging in l.flags[z] && Live(l, q)
    ensures q != z
  {
  }
}
