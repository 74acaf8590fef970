/** Choosing the next process, and the clock interrupt. */
module Scheduler {
  import opened ProcTable
  import opened Fairness

  const MAX_TICKS := 0x7FFFABCD

  class Cpu {
    const table: seq<Proc>
    var ready: Proc      // p_proc_ready
    var clock: int       // the global ticks counter

    constructor (table: seq<Proc>)
      requires table != []
      ensures this.table == table && ready == table[0] && clock == 0
    {
      this.table, ready, clock := table, table[0], 0;
    }

    ghost predicate Valid()
      reads this`ready, table
    {
      && ready in table
      && forall i :: 0 <= i < |table| ==> table[i].pid == i && 0 <= table[i].ticks && 0 <= table[i].priority
    }

    ghost function View(): (s: Sched)
      requires Valid()
      reads this`ready, table
      ensures Ok(s) && |s.ticks| == |table| && table[s.ready] == ready
    {
      Sched(
        seq(|table|, i requires 0 <= i < |table| reads table => table[i].ticks),
        seq(|table|, i requires 0 <= i < |table| reads table => table[i].priority),
        seq(|table|, i requires 0 <= i < |table| reads table => table[i].flags == {}),
        ready.pid)
    }

    /** At most two rounds over the table. */
    method Schedule() returns (ghost rounds: nat)
      requires Valid() && CanSchedule(View())
      modifies this`ready, table`ticks
      ensures Valid() && Scheduled(old(View()), View()) && rounds <= 2
      ensures forall i :: 0 <= i < |table| ==>
        table[i].ticks ==
          if old(AnyTicks(View())) || table[i].flags != {} then old(table[i].ticks) else table[i].priority
      ensures ready.flags == {} && 0 < ready.ticks
      ensures forall i :: 0 <= i < |table| && table[i].flags == {} ==>
        table[i].ticks <= ready.ticks && (i < ready.pid ==> table[i].ticks < ready.ticks)
    {
      rounds := 0;
      ghost var s0 := View();
      var greatest := 0;
      while greatest == 0
        invariant Valid() && rounds <= 2
        invariant rounds == 0 ==> View().ticks == s0.ticks && greatest == 0
        invariant View().priority == s0.priority && View().runnable == s0.runnable
        invariant rounds == 1 && greatest == 0 ==> !AnyTicks(s0) && View().ticks == Refilled(s0)
        invariant rounds == 2 ==> greatest != 0
        invariant greatest != 0 ==> IsBest(View(), ready.pid)
        invariant greatest != 0 ==> View().ticks == if AnyTicks(s0) then s0.ticks else Refilled(s0)
        decreases 2 - rounds
      {
        greatest := Pick();
        if greatest == 0 {
          Refill();
        }
        rounds := rounds + 1;
      }
      ghost var s := View();
      forall i | 0 <= i < |table|
        ensures table[i].ticks ==
          if AnyTicks(s0) || table[i].flags != {} then old(table[i].ticks) else table[i].priority
      {
        assert s.ticks[i] == table[i].ticks && s0.ticks[i] == old(table[i].ticks);
        assert s.runnable[i] == s0.runnable[i] && s.priority[i] == s0.priority[i];
      }
      assert s.ticks[ready.pid] == ready.ticks && s.runnable[ready.pid];
      forall i | 0 <= i < |table| && table[i].flags == {}
        ensures table[i].ticks <= ready.ticks && (i < ready.pid ==> table[i].ticks < ready.ticks)
      {
        assert s.ticks[i] == table[i].ticks && s.runnable[i];
      }
    }

    /** One round: the best runnable slot, if any has time left. */
    method Pick() returns (greatest: int)
      requires Valid()
      modifies this`ready
      ensures Valid() && View() == old(View()).(ready := View().ready)
      ensures greatest == 0 ==> !AnyTicks(View()) && ready == old(ready)
      ensures greatest != 0 ==> AnyTicks(View()) && IsBest(View(), ready.pid)
    {
      greatest := 0;
      for i := 0 to |table|
        invariant Valid()
        invariant greatest == 0 ==>
          ready == old(ready) && forall j :: 0 <= j < i && table[j].flags == {} ==> table[j].ticks <= 0
        invariant greatest != 0 ==>
          && 0 <= ready.pid < i && ready == table[ready.pid] && ready.flags == {} && ready.ticks == greatest > 0
          && (forall j :: 0 <= j < i && table[j].flags == {} ==> table[j].ticks <= greatest)
          && (forall j :: 0 <= j < ready.pid && table[j].flags == {} ==> table[j].ticks < greatest)
      {
        var p := table[i];
        if p.flags == {} {
          if p.ticks > greatest {
            greatest := p.ticks;
            ready := p;
          }
        }
      }
      if greatest != 0 {
        assert View().runnable[ready.pid] && 0 < View().ticks[ready.pid];
      }
    }

    /** A new epoch for the runnable slots. */
    method Refill()
      requires Valid()
      modifies table`ticks
      ensures Valid() && View() == old(View()).(ticks := Refilled(old(View())))
    {
      for i := 0 to |table|
        invariant Valid()
        invariant forall j :: 0 <= j < |table| ==>
          table[j].ticks == if j < i && table[j].flags == {} then table[j].priority else old(table[j].ticks)
      {
        var p := table[i];
        if p.flags == {} {
          p.ticks := p.priority;
        }
      }
    }

    /** The clock interrupt. nested says that it was taken inside the kernel. */
    method ClockHandler(nested: bool)
      requires Valid() && (!nested ==> CanSchedule(Charged(View())))
      modifies this, table`ticks
      ensures Valid() && Happens(old(View()), Clock(nested), View())
      ensures clock == if old(clock) + 1 < MAX_TICKS then old(clock) + 1 else 0
      ensures nested || old(ready.ticks) > 1 ==>
        && ready == old(ready) && ready.ticks == (if old(ready.ticks) > 0 then old(ready.ticks) - 1 else 0)
        && forall i :: 0 <= i < |table| && table[i] != ready ==> table[i].ticks == old(table[i].ticks)
    {
      ghost var s := View();
      CountTick();
      Charge();
      ghost var c := View();
      assert c == Charged(s) && c.ticks[c.ready] == ready.ticks;
      if nested {
        return;
      }
      if ready.ticks > 0 {
        return;
      }
      ghost var rounds := Schedule();
      ghost var s' := View();
      assert Scheduled(c, s');
    }

    method CountTick()
      requires Valid()
      modifies this`clock
      ensures clock == if old(clock) + 1 < MAX_TICKS then old(clock) + 1 else 0
    {
      clock := clock + 1;
      if clock >= MAX_TICKS {
        clock := 0;
      }
    }

    /** The running process pays for the tick. */
    method Charge()
      requires Valid()
      modifies table`ticks
      ensures Valid() && View() == Charged(old(View())) && unchanged(this)
      ensures ready.ticks == if old(ready.ticks) > 0 then old(ready.ticks) - 1 else 0
      ensures forall i :: 0 <= i < |table| && table[i] != ready ==> table[i].ticks == old(table[i].ticks)
    {
      if ready.ticks != 0 {
        ready.ticks := ready.ticks - 1;
      }
    }
  }
}
