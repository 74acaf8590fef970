/** Fork, exit, kill and wait as functions on values, and the invariant of the family tree. */
module LifeSpec {
  import opened ProcTable

  const FIRST_FORKED := NR_TASKS + NR_NATIVE_PROCS

  /** An exit status handed to a wait. */
  datatype Reaped = Reaped(to: int, pid: int, status: int)

  /** What the memory manager keeps about processes, what it has answered to waits (reaped), and whom it has
      told that there is no child to wait for (childless). */
  datatype Life = Life(
    flags: seq<set<Flag>>,
    parent: seq<int>,
    status: seq<int>,
    reaped: seq<Reaped>,
    childless: seq<int>)

  predicate LifeShape(l: Life) {
    |l.flags| == |l.parent| == |l.status| == NR_SLOTS
  }

  function Born(): Life {
    Life(
      seq(NR_SLOTS, i => if i < FIRST_FORKED then {} else {FreeSlot}),
      seq(NR_SLOTS, i => if i < FIRST_FORKED then NO_TASK else 0),
      seq(NR_SLOTS, i => 0), [], [])
  }

  predicate Free(l: Life, p: int)
    requires LifeShape(l) && IsPid(p)
  {
    FreeSlot in l.flags[p]
  }

  predicate Live(l: Life, p: int)
    requires LifeShape(l) && IsPid(p)
  {
    FreeSlot !in l.flags[p] && Hanging !in l.flags[p]
  }

  /** p is a zombie whose parent is q. */
  predicate ZombieOf(l: Life, q: int, p: int)
    requires LifeShape(l)
  {
    IsPid(p) && l.parent[p] == q && Hanging in l.flags[p]
  }

  /** The first slot from n on that is free, NR_SLOTS if there is none. */
  function FirstFree(l: Life, n: nat): (r: nat)
    requires LifeShape(l) && n <= NR_SLOTS
    ensures n <= r <= NR_SLOTS && (r < NR_SLOTS ==> Free(l, r))
    ensures forall i :: n <= i < r ==> !Free(l, i)
    decreases NR_SLOTS - n
  {
    if n == NR_SLOTS || Free(l, n) then n else FirstFree(l, n + 1)
  }

  /** The first zombie child of q from n on, NR_SLOTS if there is none. */
  function FirstZombie(l: Life, q: int, n: nat): (r: nat)
    requires LifeShape(l) && n <= NR_SLOTS
    ensures n <= r <= NR_SLOTS && (r < NR_SLOTS ==> ZombieOf(l, q, r))
    ensures forall i :: n <= i < r ==> !ZombieOf(l, q, i)
    decreases NR_SLOTS - n
  {
    if n == NR_SLOTS || ZombieOf(l, q, n) then n else FirstZombie(l, q, n + 1)
  }

  /** The slot copy of fork: the child is like the caller, but for its parent. */
  function Fork(l: Life, caller: int): Life
    requires LifeShape(l) && IsPid(caller)
  {
    var c := FirstFree(l, 0);
    if c == NR_SLOTS then l
    else l.(flags := l.flags[c := l.flags[caller]], parent := l.parent[c := caller],
            status := l.status[c := l.status[caller]])
  }

  /** The parent of p gets its exit status and the slot is released. */
  function Cleanup(l: Life, p: int): Life
    requires LifeShape(l) && IsPid(p)
  {
    l.(flags := l.flags[p := {FreeSlot}], reaped := l.reaped + [Reaped(l.parent[p], p, l.status[p])])
  }

  function StopWaiting(l: Life, p: int): Life
    requires LifeShape(l) && IsPid(p)
  {
    l.(flags := l.flags[p := l.flags[p] - {Waiting}])
  }

  /** First half of an exit: the status is left for the parent, or handed over at once if it waits. */
  function Depart(l: Life, pid: int, status: int): Life
    requires LifeShape(l) && IsPid(pid) && IsPid(l.parent[pid])
  {
    var l1 := l.(status := l.status[pid := status]);
    if Waiting in l1.flags[l1.parent[pid]] then Cleanup(StopWaiting(l1, l1.parent[pid]), pid)
    else l1.(flags := l1.flags[pid := l1.flags[pid] + {Hanging}])
  }

  function Reparented(parent: seq<int>, pid: int): seq<int> {
    seq(|parent|, i requires 0 <= i < |parent| => if parent[i] == pid then INIT else parent[i])
  }

  /** Second half: INIT becomes the parent of all children, and reaps the first zombie among them if it waits. */
  function Adopt(l: Life, pid: int): Life
    requires LifeShape(l)
  {
    var z := FirstZombie(l, pid, 0);
    var l1 := l.(parent := Reparented(l.parent, pid));
    if Waiting in l.flags[INIT] && z < NR_SLOTS then Cleanup(StopWaiting(l1, INIT), z) else l1
  }

  /** The teardown of messages leaves only RECEIVING in the flags of pid. */
  function Silenced(l: Life, pid: int): Life
    requires LifeShape(l) && IsPid(pid)
  {
    l.(flags := l.flags[pid := {Receiving}])
  }

  function Exit(l: Life, pid: int, status: int): Life
    requires LifeShape(l) && IsPid(pid) && IsPid(l.parent[pid])
  {
    Adopt(Depart(Silenced(l, pid), pid, status), pid)
  }

  /** Some slot, free or not, names q as its parent. */
  predicate HasChildSlot(l: Life, q: int)
    requires LifeShape(l)
  {
    exists i :: 0 <= i < NR_SLOTS && l.parent[i] == q
  }

  function Wait(l: Life, caller: int): Life
    requires LifeShape(l) && IsPid(caller)
  {
    var z := FirstZombie(l, caller, 0);
    if z < NR_SLOTS then Cleanup(l, z)
    else if HasChildSlot(l, caller) then l.(flags := l.flags[caller := l.flags[caller] + {Waiting}])
    else l.(childless := l.childless + [caller])
  }

  // ---------- the invariant ----------

  /** Following parents from p, k steps lead to one of the roots. */
  ghost predicate Descends(parent: seq<int>, roots: set<int>, p: int, k: nat)
    requires |parent| == NR_SLOTS
    decreases k
  {
    if k == 0 then p in roots
    else FIRST_FORKED <= p < NR_SLOTS && Descends(parent, roots, parent[p], k - 1)
  }

  ghost predicate DescendsFrom(parent: seq<int>, roots: set<int>, p: int)
    requires |parent| == NR_SLOTS
  {
    exists k: nat :: Descends(parent, roots, p, k)
  }

  ghost predicate FlagsOk(f: set<Flag>) {
    (FreeSlot in f ==> f == {FreeSlot}) && (Hanging in f ==> Waiting !in f)
  }

  /** The tree: the parent of every forked process is alive, and following parents leads to a root. */
  ghost predicate Family(l: Life, roots: set<int>) {
    && LifeShape(l)
    && (forall p :: 0 <= p < FIRST_FORKED ==> Live(l, p))
    && (forall p :: FIRST_FORKED <= p < NR_SLOTS && !Free(l, p) ==>
          IsPid(l.parent[p]) && Live(l, l.parent[p]) && DescendsFrom(l.parent, roots, p))
    // nobody names a dead process as its parent, not even a free slot
    && (forall p, c :: FIRST_FORKED <= p < NR_SLOTS && IsPid(c) && !Live(l, p) ==> l.parent[c] != p)
  }

  /** Nobody waits while it has a zombie to reap. */
  ghost predicate NoMissedExit(l: Life)
    requires LifeShape(l)
  {
    && (forall p :: IsPid(p) ==> FlagsOk(l.flags[p]))
    && (forall q, p :: IsPid(q) && Waiting in l.flags[q] ==> !ZombieOf(l, q, p))
  }

  ghost predicate LifeInv(l: Life, roots: set<int>) {
    Family(l, roots) && NoMissedExit(l)
  }

  /** Natives that may fork. INIT is always one of them. */
  ghost predicate RootsOk(roots: set<int>) {
    INIT in roots && forall r :: r in roots ==> 0 <= r < FIRST_FORKED
  }
}
