/** The scheduler as a relation on values, and how long a runnable process can be kept waiting. */
module Fairness {

  /** What scheduling depends on. ready is the slot that holds the processor. */
  datatype Sched = Sched(ticks: seq<int>, priority: seq<int>, runnable: seq<bool>, ready: int)

  ghost predicate Ok(s: Sched) {
    && |s.ticks| == |s.priority| == |s.runnable|
    && 0 <= s.ready < |s.ticks|
    && (forall i :: 0 <= i < |s.ticks| ==> 0 <= s.ticks[i] && 0 <= s.priority[i])
  }

  ghost predicate AnyTicks(s: Sched)
    requires Ok(s)
  {
    exists i :: 0 <= i < |s.ticks| && s.runnable[i] && 0 < s.ticks[i]
  }

  /** Without this the search for a process never ends. */
  ghost predicate CanSchedule(s: Sched)
    requires Ok(s)
  {
    exists i :: 0 <= i < |s.ticks| && s.runnable[i] && (0 < s.ticks[i] || 0 < s.priority[i])
  }

  /** i is runnable, has time left, has at least as much as any other runnable slot and more than any
      earlier one. */
  ghost predicate IsBest(s: Sched, i: int)
    requires Ok(s)
  {
    && 0 <= i < |s.ticks| && s.runnable[i] && 0 < s.ticks[i]
    && (forall j :: 0 <= j < |s.ticks| && s.runnable[j] ==> s.ticks[j] <= s.ticks[i])
    && (forall j :: 0 <= j < i && s.runnable[j] ==> s.ticks[j] < s.ticks[i])
  }

  function Refilled(s: Sched): seq<int>
    requires |s.ticks| == |s.priority| == |s.runnable|
  {
    seq(|s.ticks|, i requires 0 <= i < |s.ticks| => if s.runnable[i] then s.priority[i] else s.ticks[i])
  }

  /** schedule(): a new epoch starts exactly when no runnable slot has time left; then the best one runs. */
  ghost predicate Scheduled(s: Sched, s': Sched) {
    && Ok(s) && Ok(s')
    && s'.priority == s.priority && s'.runnable == s.runnable
    && s'.ticks == (if AnyTicks(s) then s.ticks else Refilled(s))
    && IsBest(s', s'.ready)
  }

  /** The table after n rounds that found nobody. */
  function Searched(s: Sched, n: nat): (s': Sched)
    requires |s.ticks| == |s.priority| == |s.runnable|
    ensures |s'.ticks| == |s.ticks| && s'.priority == s.priority && s'.runnable == s.runnable && s'.ready == s.ready
  {
    if n == 0 then s else var r := Searched(s, n - 1); r.(ticks := Refilled(r))
  }

  lemma {:induction false} SearchedIs(s: Sched, n: nat)
    requires Ok(s)
    ensures Ok(Searched(s, n)) && Searched(s, n).ticks == if n == 0 then s.ticks else Refilled(s)
  {
    if n > 0 {
      SearchedIs(s, n - 1);
    }
  }

  /** The search of schedule() comes to an end exactly if some runnable slot has time left or a priority; then it does
      in the first or in the second round. */
  lemma SearchEndsIff(s: Sched)
    requires Ok(s)
    ensures (exists n: nat :: Ok(Searched(s, n)) && AnyTicks(Searched(s, n))) <==> CanSchedule(s)
    ensures CanSchedule(s) ==> Ok(Searched(s, 1)) && (AnyTicks(s) || AnyTicks(Searched(s, 1)))
  {
    SearchedIs(s, 0);
    SearchedIs(s, 1);
    forall n: nat | Ok(Searched(s, n)) && AnyTicks(Searched(s, n))
      ensures CanSchedule(s)
    {
      SearchedIs(s, n);
    }
    if i :| 0 <= i < |s.ticks| && s.runnable[i] && (0 < s.ticks[i] || 0 < s.priority[i]) {
      assert AnyTicks(Searched(s, if 0 < s.ticks[i] then 0 else 1));
    }
  }

  function Charged(s: Sched): Sched
    requires 0 <= s.ready < |s.ticks|
  {
    if s.ticks[s.ready] == 0 then s else s.(ticks := s.ticks[s.ready := s.ticks[s.ready] - 1])
  }

  // ---------- what can happen ----------

  datatype Event =
    | Clock(nested: bool)              // a clock interrupt, taken inside the kernel or not
    | Yield(runnable: seq<bool>)       // flags change and the running process gives up the processor
    | Change(runnable: seq<bool>)      // flags change

  ghost predicate Happens(s: Sched, e: Event, s': Sched) {
    && Ok(s) && Ok(s')
    && match e
       case Clock(nested) =>
         var c := Charged(s);
         if nested || 0 < c.ticks[c.ready] then s' == c else Scheduled(c, s')
       case Yield(runnable) => |runnable| == |s.ticks| && Scheduled(s.(runnable := runnable), s')
       case Change(runnable) => |runnable| == |s.ticks| && s' == s.(runnable := runnable)
  }

  // ---------- sums ----------

  function Sum(x: seq<int>): int {
    if x == [] then 0 else x[0] + Sum(x[1..])
  }

  lemma {:induction false} SumUpdate(x: seq<int>, i: nat, v: int)
    requires i < |x|
    ensures Sum(x[i := v]) == Sum(x) - x[i] + v
  {
    if i == 0 {
      assert x[0 := v][1..] == x[1..];
    } else {
      assert x[i := v][1..] == x[1..][i - 1 := v];
      SumUpdate(x[1..], i - 1, v);
    }
  }

  lemma {:induction false} SumAtMost(x: seq<int>, y: seq<int>, z: seq<int>)
    requires |x| == |y| == |z| && forall i :: 0 <= i < |x| ==> x[i] <= y[i] + z[i]
    ensures Sum(x) <= Sum(y) + Sum(z)
  {
    if x != [] {
      SumAtMost(x[1..], y[1..], z[1..]);
    }
  }

  lemma {:induction false} SumNonNegative(x: seq<int>)
    requires forall i :: 0 <= i < |x| ==> 0 <= x[i]
    ensures 0 <= Sum(x)
  {
    if x != [] {
      SumNonNegative(x[1..]);
    }
  }

  // ---------- the potential ----------

  /** How many clock interrupts the others can still take before t runs: the time the others have left,
      one more if the running process has just used up its time, and what a new epoch would give the
      others if t has to wait for one. */
  function Potential(s: Sched, t: int): int
    requires |s.ticks| == |s.priority| && 0 <= t < |s.ticks| && 0 <= s.ready < |s.ticks|
  {
    Sum(s.ticks[t := 0])
    + (if s.ticks[s.ready] == 0 then 1 else 0)
    + (if s.ticks[t] == 0 then Sum(s.priority[t := 0]) else 0)
  }

  /** Picking a process never makes t wait longer, and a process that has just been picked has time left. */
  lemma ScheduledPotential(s: Sched, s': Sched, t: int)
    requires Scheduled(s, s') && 0 <= t < |s.ticks| && s.runnable[t] && 0 < s.priority[t]
    ensures Potential(s', t) + (if s.ticks[s.ready] == 0 then 1 else 0) <= Potential(s, t)
  {
    if !AnyTicks(s) {
      SumAtMost(s'.ticks[t := 0], s.ticks[t := 0], s.priority[t := 0]);
    }
  }

  lemma ChargedPotential(s: Sched, t: int)
    requires Ok(s) && 0 <= t < |s.ticks| && s.ready != t
    ensures var c := Charged(s);
      Ok(c) && c.ticks[t] == s.ticks[t]
      && Sum(c.ticks[t := 0]) == Sum(s.ticks[t := 0]) - (if s.ticks[s.ready] == 0 then 0 else 1)
  {
    if s.ticks[s.ready] != 0 {
      SumUpdate(s.ticks[t := 0], s.ready, s.ticks[s.ready] - 1);
      assert s.ticks[s.ready := s.ticks[s.ready] - 1][t := 0] == s.ticks[t := 0][s.ready := s.ticks[s.ready] - 1];
    }
  }

  /** While t waits, the potential never grows, and every clock interrupt taken outside the kernel lowers it. */
  lemma PotentialFalls(s: Sched, e: Event, s': Sched, t: int)
    requires Happens(s, e, s') && 0 <= t < |s.ticks| && s.ready != t
    requires s.runnable[t] && s'.runnable[t] && 0 < s.priority[t]
    ensures Potential(s', t) + (if e == Clock(false) then 1 else 0) <= Potential(s, t)
  {
    match e
    case Clock(nested) =>
      ChargedPotential(s, t);
      var c := Charged(s);
      if !nested && c.ticks[c.ready] <= 0 {
        ScheduledPotential(c, s', t);
      }
    case Yield(runnable) =>
      ScheduledPotential(s.(runnable := runnable), s', t);
    case Change(_) =>
  }

  // ---------- the bound ----------

  function Clocks(es: seq<Event>): nat {
    if es == [] then 0 else Clocks(es[..|es|-1]) + if es[|es|-1] == Clock(false) then 1 else 0
  }

  ghost predicate IsTrace(ss: seq<Sched>, es: seq<Event>) {
    |ss| == |es| + 1 && forall i :: 0 <= i < |es| ==> Happens(ss[i], es[i], ss[i + 1])
  }

  ghost predicate Waits(ss: seq<Sched>, t: int) {
    forall i :: 0 <= i < |ss| ==> 0 <= t < |ss[i].runnable| && ss[i].runnable[t] && ss[i].ready != t
  }

  lemma {:induction false} PotentialOverTrace(ss: seq<Sched>, es: seq<Event>, t: int, n: nat)
    requires IsTrace(ss, es) && Ok(ss[0]) && 0 <= t < |ss[0].ticks| && 0 < ss[0].priority[t]
    requires Waits(ss, t) && n <= |es|
    ensures Ok(ss[n]) && |ss[n].ticks| == |ss[0].ticks| && ss[n].priority == ss[0].priority
    ensures Potential(ss[n], t) + Clocks(es[..n]) <= Potential(ss[0], t)
  {
    if n > 0 {
      PotentialOverTrace(ss, es, t, n - 1);
      assert Happens(ss[n - 1], es[n - 1], ss[n - 1 + 1]);
      PotentialFalls(ss[n - 1], es[n - 1], ss[n], t);
      assert es[..n][..n - 1] == es[..n - 1];
    }
  }

  /** Somebody else is running, so there is still something to wait for. */
  lemma WaitingPotential(s: Sched, t: int)
    requires Ok(s) && 0 <= t < |s.ticks| && s.ready != t
    ensures 1 <= Potential(s, t)
  {
    var x := s.ticks[t := 0];
    SumUpdate(x, s.ready, 0);
    SumNonNegative(x[s.ready := 0]);
    SumNonNegative(s.priority[t := 0]);
  }

  /** A process that stays runnable gets the processor within as many clock interrupts, not counting those
      taken inside the kernel, as all slots together have time left and are granted per epoch. */
  lemma BoundedWaiting(ss: seq<Sched>, es: seq<Event>, t: int)
    requires IsTrace(ss, es) && Ok(ss[0]) && 0 <= t < |ss[0].ticks| && 0 < ss[0].priority[t]
    requires forall i :: 0 <= i < |ss| ==> 0 <= t < |ss[i].runnable| && ss[i].runnable[t]
    requires Sum(ss[0].ticks) + Sum(ss[0].priority) <= Clocks(es)
    ensures exists i :: 0 <= i < |ss| && ss[i].ready == t
  {
    if Waits(ss, t) {
      PotentialOverTrace(ss, es, t, |es|);
      assert es[..|es|] == es;
      WaitingPotential(ss[|es|], t);
      SumUpdate(ss[0].ticks, t, 0);
      SumUpdate(ss[0].priority, t, 0);
      SumNonNegative(ss[0].priority[t := 0]);
    }
  }
}
