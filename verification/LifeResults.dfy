/** What the lifecycle promises its callers, and where it falls short. */
module LifeResults {
  import opened ProcTable
  import opened LifeSpec
  import opened LifeInvariant
  import opened LifeRuns

  function Ancestor(parent: seq<int>, p: int, k: nat): int
    requires |parent| == NR_SLOTS
    decreases k
  {
    if k == 0 then p else if IsPid(p) then Ancestor(parent, parent[p], k - 1) else p
  }

  lemma {:induction false} DescendsToRoot(parent: seq<int>, roots: set<int>, p: int, k: nat)
    requires |parent| == NR_SLOTS && Descends(parent, roots, p, k)
    ensures Ancestor(parent, p, k) in roots
    decreases k
  {
    if k > 0 {
      DescendsToRoot(parent, roots, parent[p], k - 1);
    }
  }

  /** Following parents from any process that was forked leads, past live processes only, to a native that may fork: to
      INIT, as long as no other native does. */
  lemma AllDescendFromRoots(ws: seq<World>, roots: set<int>, ops: seq<Op>, k: nat, p: int)
    requires IsRun(ws, roots, ops) && k < |ws|
    requires LifeShape(ws[k].l) && Used(ws[k], p)
    ensures var l := ws[k].l;
      IsPid(l.parent[p]) && Live(l, l.parent[p]) && exists n: nat :: Ancestor(l.parent, p, n) in roots
  {
    RunHolds(ws, roots, ops, k);
    var l := ws[k].l;
    assert DescendsFrom(l.parent, roots, p);
    var n: nat :| Descends(l.parent, roots, p, n);
    DescendsToRoot(l.parent, roots, p, n);
  }

  /** The process whose children INIT takes over in this step. */
  function Dying(op: Op): int {
    match op
    case OpExit(pid, _) => pid
    case OpKill(target, _, _) => target
    case _ => NO_TASK
  }

  /** The i-th answer, given in the step from l to l', goes to the parent, or to INIT if the parent is the one just
      dying. It was waiting or is the caller of wait; it waits no more, and gets no other answer. */
  ghost predicate AnswersWaiter(l: Life, l': Life, dying: int, caller: int, i: nat) {
    && LifeShape(l) && LifeShape(l') && i < |l'.reaped|
    && var r := l'.reaped[i];
    && IsPid(r.to) && IsPid(r.pid) && Live(l, r.to)
    && (Waiting in l.flags[r.to] || r.to == caller) && Waiting !in l'.flags[r.to]
    && (l.parent[r.pid] == r.to || (r.to == INIT && l.parent[r.pid] == dying))
    && r.status == l'.status[r.pid] && Free(l', r.pid)
    && forall j :: |l.reaped| <= j < |l'.reaped| && j != i ==> l'.reaped[j].to != r.to
  }

  /** An exit status goes to a process that is waiting for it: the parent, or INIT if the parent is just
      dying. It ends that wait, and no other status ends it too. */
  lemma StatusGoesToWaitingParent(l: Life, roots: set<int>, op: Op, i: nat)
    requires LifeInv(l, roots) && RootsOk(roots) && Enabled(l, roots, op)
    requires |l.reaped| <= i < |Next(l, roots, op).reaped|
    ensures AnswersWaiter(l, Next(l, roots, op), Dying(op), if op.OpWait? then op.caller else NO_TASK, i)
  {
    hide AnswersWaiter, LifeInv, RootsOk, Wait, Exit;
    match op
    case OpExit(pid, status) => ExitAnswers(l, roots, pid, status, i);
    case OpKill(target, caller, sig) =>
      KilledIsUsed(l, roots, target, caller, sig);
      ExitAnswers(l, roots, target, -1, i);
    case OpWait(caller) => WaitAnswers(l, roots, caller, i);
    case _ =>
  }

  lemma KilledIsUsed(l: Life, roots: set<int>, target: int, caller: int, sig: int)
    requires LifeInv(l, roots) && KillAccepted(l, target, caller, sig)
    ensures FIRST_FORKED <= target < NR_SLOTS && !Free(l, target)
  {
    assert FlagsOk(l.flags[target]);
  }

  lemma WaitAnswers(l: Life, roots: set<int>, caller: int, i: nat)
    requires LifeInv(l, roots) && IsPid(caller) && Live(l, caller) && Waiting !in l.flags[caller]
    requires |l.reaped| <= i < |Wait(l, caller).reaped|
    ensures AnswersWaiter(l, Wait(l, caller), NO_TASK, caller, i)
  {
  }

  lemma ExitAnswers(l: Life, roots: set<int>, pid: int, status: int, i: nat)
    requires LifeInv(l, roots) && RootsOk(roots) && FIRST_FORKED <= pid < NR_SLOTS && !Free(l, pid)
    ensures IsPid(l.parent[pid])
    ensures |l.reaped| <= i < |Exit(l, pid, status).reaped| ==>
      AnswersWaiter(l, Exit(l, pid, status), pid, NO_TASK, i)
  {
    hide DescendsFrom;
    var q := l.parent[pid];
    assert Live(l, q) && Live(l, INIT);
    var l1 := Depart(Silenced(l, pid), pid, status);
    assert forall p :: IsPid(p) && Waiting in l1.flags[p] ==> Waiting in l.flags[p] && p != pid;
  }

  /** A zombie keeps its exit status until it is reaped, unless it is killed once more. */
  lemma ZombieStatusKept(l: Life, roots: set<int>, op: Op, p: int)
    requires LifeInv(l, roots) && RootsOk(roots) && Enabled(l, roots, op)
    requires IsPid(p) && Hanging in l.flags[p] && Dying(op) != p
    ensures var l' := Next(l, roots, op);
      l'.status[p] == l.status[p] && (Hanging in l'.flags[p] || Free(l', p))
  {
    hide DescendsFrom, Exit;
    match op
    case OpFork(caller) => assert FlagsOk(l.flags[p]);
    case OpExit(pid, status) => ExitKeepsZombie(l, roots, pid, status, p);
    case OpKill(target, caller, sig) =>
      KilledIsUsed(l, roots, target, caller, sig);
      ExitKeepsZombie(l, roots, target, -1, p);
    case _ =>
  }

  lemma ExitKeepsZombie(l: Life, roots: set<int>, pid: int, status: int, p: int)
    requires LifeInv(l, roots) && RootsOk(roots) && FIRST_FORKED <= pid < NR_SLOTS && !Free(l, pid)
    requires IsPid(p) && Hanging in l.flags[p] && pid != p
    ensures IsPid(l.parent[pid])
    ensures var l' := Exit(l, pid, status);
      LifeShape(l') && l'.status[p] == l.status[p] && (Hanging in l'.flags[p] || Free(l', p))
  {
    hide DescendsFrom, NoMissedExit;
    assert Live(l, l.parent[pid]);
  }

  /** Killing a zombie is accepted, and replaces the status it exited with. */
  lemma KillRewritesZombie(l: Life, roots: set<int>, p: int, caller: int)
    requires LifeInv(l, roots) && RootsOk(roots) && FIRST_FORKED <= p < NR_SLOTS && p != caller
    requires Hanging in l.flags[p]
    ensures Enabled(l, roots, OpKill(p, caller, SIG_TERM))
    ensures var l' := Next(l, roots, OpKill(p, caller, SIG_TERM));
      l'.status[p] == -1 && (Hanging in l'.flags[p] || Free(l', p))
  {
    assert FlagsOk(l.flags[p]);
    assert Live(l, l.parent[p]);
  }

  // ---------- waiting without children ----------

  predicate HasChild(l: Life, q: int)
    requires LifeShape(l)
  {
    exists p :: 0 <= p < NR_SLOTS && l.parent[p] == q && !Free(l, p)
  }

  /** A wait without children is meant to be told so. It is, exactly when no free slot still names the caller
      as the parent of the process that was in it; otherwise it blocks with nothing to wait for. */
  lemma ChildlessWaitIff(l: Life, roots: set<int>, caller: int)
    requires LifeInv(l, roots) && IsPid(caller) && Live(l, caller) && Waiting !in l.flags[caller]
    requires !HasChild(l, caller)
    ensures Wait(l, caller).childless == l.childless + [caller] <==>
      (forall p :: IsPid(p) && Free(l, p) ==> l.parent[p] != caller)
    ensures Wait(l, caller).childless == l.childless + [caller] || Waiting in Wait(l, caller).flags[caller]
  {
    assert forall p :: IsPid(p) ==> FlagsOk(l.flags[p]);
    assert forall p :: !ZombieOf(l, caller, p);
    assert HasChildSlot(l, caller) <==> exists p :: IsPid(p) && Free(l, p) && l.parent[p] == caller;
  }

  /** INIT forks, the child exits, INIT reaps it. */
  function OnceForked(): (l: Life)
    ensures LifeShape(l) && IsPid(l.parent[FIRST_FORKED])
  {
    FirstForkedIsFree();
    Fork(Born(), INIT)
  }

  function OnceReaped(): (l: Life)
    ensures LifeShape(l)
  {
    Wait(Exit(OnceForked(), FIRST_FORKED, 0), INIT)
  }

  /** q has no child, but wait does not tell it so. */
  predicate WaitsInVain(l: Life, q: int) {
    && LifeShape(l) && IsPid(q) && !HasChild(l, q)
    && Wait(l, q).childless == l.childless && |Wait(l, q).flags| == NR_SLOTS && Waiting in Wait(l, q).flags[q]
  }

  /** It happens in the first process that forks once, reaps its child and waits again. */
  lemma ChildlessWaitCanBlock()
    ensures WaitsInVain(OnceReaped(), INIT)
  {
    hide Fork, Exit, Wait, OnlyChild, Born, HasChild, OnceForked, ZombieOf;
    ForkGivesOnlyChild();
    ExitOfOnlyChild(OnceForked());
    WaitReapsOnlyChild(Exit(OnceForked(), FIRST_FORKED, 0));
    WaitsForNobody(OnceReaped());
  }

  lemma WaitsForNobody(l: Life)
    requires LifeShape(l) && l.parent[FIRST_FORKED] == INIT && forall p :: !ZombieOf(l, INIT, p)
    ensures Wait(l, INIT).childless == l.childless
    ensures |Wait(l, INIT).flags| == NR_SLOTS && Waiting in Wait(l, INIT).flags[INIT]
  {
  }

  lemma ForkGivesOnlyChild()
    ensures var l := OnceForked();
      OnlyChild(l) && forall p :: IsPid(p) ==> l.parent[p] != FIRST_FORKED && Hanging !in l.flags[p]
  {
    FirstForkedIsFree();
  }

  lemma FirstForkedIsFree()
    ensures FirstFree(Born(), 0) == FIRST_FORKED
  {
    var l0 := Born();
    assert Free(l0, FIRST_FORKED);
    assert forall p :: 0 <= p < FIRST_FORKED ==> !Free(l0, p);
  }

  /** One forked process, a child of INIT, and no process waits. */
  ghost predicate OnlyChild(l: Life) {
    && LifeShape(l) && l.parent[FIRST_FORKED] == INIT && !Free(l, FIRST_FORKED) && l.childless == []
    && forall p :: IsPid(p) ==> Waiting !in l.flags[p] && (p != FIRST_FORKED ==> l.parent[p] != INIT)
  }

  lemma ExitOfOnlyChild(l: Life)
    requires OnlyChild(l) && forall p :: IsPid(p) ==> l.parent[p] != FIRST_FORKED && Hanging !in l.flags[p]
    ensures var l' := Exit(l, FIRST_FORKED, 0);
      OnlyChild(l') && Hanging in l'.flags[FIRST_FORKED]
  {
    var d := Depart(Silenced(l, FIRST_FORKED), FIRST_FORKED, 0);
    assert FirstZombie(d, FIRST_FORKED, 0) == NR_SLOTS;
  }

  lemma WaitReapsOnlyChild(l: Life)
    requires OnlyChild(l) && Hanging in l.flags[FIRST_FORKED]
    ensures var l' := Wait(l, INIT);
      && LifeShape(l') && !HasChild(l', INIT) && l'.parent[FIRST_FORKED] == INIT && l'.childless == []
      && forall p :: !ZombieOf(l', INIT, p)
  {
    assert ZombieOf(l, INIT, FIRST_FORKED);
    assert FirstZombie(l, INIT, 0) == FIRST_FORKED;
  }
}
