/** Runs of the kernel: what holds after any number of steps, and what happens to every message. */
module IpcRuns {
  import opened ProcTable
  import opened SendGraph
  import opened IpcSpec
  import opened IpcInvariant

  datatype Op =
    | OpSend(s: int, d: int, m: int)
    | OpReceive(r: int, src: int, m: int)
    | OpInform(t: int)
    | OpAbort(pid: int, retval: int)
    | OpFork(parent: int, child: int)
    | OpFlags(p: int, flags: set<Flag>)
    | OpWrite(p: int, address: int, msg: Message)

  datatype Packet = Packet(src: int, dst: int, msg: Message)
  datatype Outcome = Outcome(packet: Packet, delivered: bool)

  /** The table together with its history.
      sent[s]: what s has got accepted; settled[s]: what became of it; got[r]: what r has been handed;
      stamp[s]: when s last blocked sending. */
  datatype World = World(
    st: State,
    now: nat,
    stamp: seq<nat>,
    sent: seq<seq<Packet>>,
    settled: seq<seq<Outcome>>,
    got: seq<seq<Packet>>)

  function Start(): World {
    World(INITIAL, 0, seq(NR_SLOTS, i => 0),
      seq(NR_SLOTS, i => []), seq(NR_SLOTS, i => []), seq(NR_SLOTS, i => []))
  }

  ghost predicate WorldShape(w: World) {
    Shape(w.st) && |w.stamp| == |w.sent| == |w.settled| == |w.got| == NR_SLOTS
  }

  /** When a step may be taken. Only a runnable process makes calls; a send that would deadlock halts the
      kernel and is no step; a fork needs the condition of ForkKeepsInvIff. */
  ghost predicate Enabled(st: State, op: Op)
    requires Shape(st)
  {
    match op
    case OpSend(s, d, m) =>
      IsPid(s) && IsPid(d) && s != d && m != 0 && st.procs[s].flags == {}
      && FreeSlot !in st.procs[d].flags && !Reaches(Edges(st), d, s)
    case OpReceive(r, src, m) =>
      IsPid(r) && r != src && m != 0 && st.procs[r].flags == {}
      && (src == ANY || src == INTERRUPT || (IsPid(src) && FreeSlot !in st.procs[src].flags))
    case OpInform(t) => IsPid(t)
    case OpAbort(pid, _) => IsPid(pid) && FreeSlot !in st.procs[pid].flags
    case OpFork(parent, child) =>
      IsPid(parent) && IsPid(child)
      && FreeSlot !in st.procs[parent].flags && FreeSlot in st.procs[child].flags
      && st.queues[parent] == [] && st.queues[child] == [] && Sending !in st.procs[parent].flags
    case OpFlags(p, flags) => IsPid(p) && FlagsChangeOk(st, p, flags)
    case OpWrite(p, _, _) => IsPid(p) && st.procs[p].flags == {}
  }

  ghost function Next(st: State, op: Op): State
    requires Inv(st) && Enabled(st, op)
  {
    match op
    case OpSend(s, d, m) => Send(Stamp(st, s, m), s, d, m)
    case OpReceive(r, src, m) => Receive(Stamp(st, r, m), r, src, m)
    case OpInform(t) => Inform(st, t)
    case OpAbort(pid, retval) => Abort(st, pid, retval)
    case OpFork(parent, child) => Fork(st, parent, child)
    case OpFlags(p, flags) => SetFlags(st, p, flags)
    case OpWrite(p, address, msg) => Write(st, p, address, msg)
  }

  lemma NextKeepsInv(st: State, op: Op)
    requires Inv(st) && Enabled(st, op)
    ensures Inv(Next(st, op))
  {
    match op
    case OpSend(s, d, m) =>
      StampFacts(st, s, m);
      SendKeepsInv(Stamp(st, s, m), s, d, m);
    case OpReceive(r, src, m) =>
      StampFacts(st, r, m);
      ReceiveKeepsInv(Stamp(st, r, m), r, src, m);
    case OpInform(t) => InformKeepsInv(st, t);
    case OpAbort(pid, retval) => AbortKeepsInv(st, pid, retval);
    case OpFork(parent, child) => ForkKeepsInvIff(st, parent, child);
    case OpFlags(p, flags) => SetFlagsKeepsInv(st, p, flags);
    case OpWrite(p, address, msg) => WriteKeepsInv(st, p, address, msg);
  }

  // ---------- the history a step writes ----------

  /** The message s is blocked on. */
  function Pending(st: State, s: int): Packet
    requires Shape(st) && IsPid(s)
  {
    Packet(s, st.procs[s].sendTo, Load(st.procs[s].mem, st.procs[s].msg))
  }

  function Hand(w: World, p: Packet): World
    requires |w.settled| == |w.got| == NR_SLOTS && IsPid(p.src) && IsPid(p.dst)
  {
    w.(settled := w.settled[p.src := w.settled[p.src] + [Outcome(p, true)]],
       got := w.got[p.dst := w.got[p.dst] + [p]])
  }

  /** What pid was sending, and what others were sending to it, is thrown away. */
  function Discard(w: World, pid: int): seq<seq<Outcome>>
    requires Shape(w.st) && |w.settled| == NR_SLOTS
  {
    seq(NR_SLOTS, s requires 0 <= s < NR_SLOTS =>
      if Sending in w.st.procs[s].flags && (s == pid || w.st.procs[s].sendTo == pid)
      then w.settled[s] + [Outcome(Pending(w.st, s), false)]
      else w.settled[s])
  }

  ghost function Record(w: World, op: Op): (w': World)
    requires WorldShape(w) && Inv(w.st) && Enabled(w.st, op)
    ensures w'.st == w.st
  {
    match op
    case OpSend(s, d, m) =>
      var p := Packet(s, d, Load(w.st.procs[s].mem, m).(source := s));
      var w1 := w.(sent := w.sent[s := w.sent[s] + [p]]);
      if Accepts(w.st.procs[d], s) then Hand(w1, p)
      else w1.(stamp := w.stamp[s := w.now], now := w.now + 1)
    case OpReceive(r, src, m) =>
      var f := Chosen(w.st, r, src);
      if (w.st.procs[r].intPending && (src == ANY || src == INTERRUPT)) || !IsPid(f) then w
      else Hand(w, Pending(w.st, f).(dst := r))
    case OpAbort(pid, _) =>
      w.(settled := Discard(w, pid))
    case _ => w
  }

  ghost function Step(w: World, op: Op): World
    requires WorldShape(w) && Inv(w.st) && Enabled(w.st, op)
  {
    Record(w, op).(st := Next(w.st, op))
  }

  // ---------- what the history always says ----------

  function Packets(os: seq<Outcome>): seq<Packet> {
    if os == [] then [] else Packets(os[..|os|-1]) + [os[|os|-1].packet]
  }

  /** The messages among os that were delivered to d, in order. */
  function DeliveredTo(os: seq<Outcome>, d: int): seq<Packet> {
    if os == [] then []
    else
      var last := os[|os|-1];
      DeliveredTo(os[..|os|-1], d) + if last.delivered && last.packet.dst == d then [last.packet] else []
  }

  /** The messages among ps that came from s, in order. */
  function From(ps: seq<Packet>, s: int): seq<Packet> {
    if ps == [] then []
    else
      var last := ps[|ps|-1];
      From(ps[..|ps|-1], s) + if last.src == s then [last] else []
  }

  lemma PacketsSnoc(os: seq<Outcome>, o: Outcome)
    ensures Packets(os + [o]) == Packets(os) + [o.packet]
  {
    assert (os + [o])[..|os|] == os;
  }

  lemma DeliveredToSnoc(os: seq<Outcome>, o: Outcome, d: int)
    ensures DeliveredTo(os + [o], d) ==
      DeliveredTo(os, d) + if o.delivered && o.packet.dst == d then [o.packet] else []
  {
    assert (os + [o])[..|os|] == os;
  }

  lemma FromSnoc(ps: seq<Packet>, p: Packet, s: int)
    ensures From(ps + [p], s) == From(ps, s) + if p.src == s then [p] else []
  {
    assert (ps + [p])[..|ps|] == ps;
  }

  /** Whatever s got accepted is settled, in order and once each, but for the one message it is blocked on. */
  ghost predicate Accounted(w: World, s: int)
    requires WorldShape(w) && IsPid(s)
  {
    w.sent[s] == Packets(w.settled[s]) +
      if Sending in w.st.procs[s].flags then [Pending(w.st, s)] else []
  }

  /** What r was handed by s is what s has had delivered to r, in the order s sent it. */
  ghost predicate Faithful(w: World, s: int, r: int)
    requires WorldShape(w) && IsPid(s) && IsPid(r)
  {
    From(w.got[r], s) == DeliveredTo(w.settled[s], r)
  }

  /** Each list is in the order in which its members blocked. */
  ghost predicate Ordered(stamp: seq<nat>, q: seq<int>) {
    && (forall i :: 0 <= i < |q| ==> 0 <= q[i] < |stamp|)
    && forall i, j :: 0 <= i < j < |q| ==> stamp[q[i]] < stamp[q[j]]
  }

  ghost predicate ByAge(w: World, d: int)
    requires WorldShape(w) && IsPid(d)
  {
    Ordered(w.stamp, w.st.queues[d]) && forall s :: s in w.st.queues[d] ==> w.stamp[s] < w.now
  }

  ghost predicate Sound(w: World) {
    && WorldShape(w)
    && Inv(w.st)
    && (forall s :: IsPid(s) ==> Accounted(w, s))
    && (forall s, r :: IsPid(s) && IsPid(r) ==> Faithful(w, s, r))
    && (forall d :: IsPid(d) ==> ByAge(w, d))
    && (forall p :: IsPid(p) ==> Genuine(w, p))
  }

  /** Every message carries the pid of the process that sent it, and is handed to its addressee. */
  ghost predicate Genuine(w: World, p: int)
    requires WorldShape(w) && IsPid(p)
  {
    && (forall i :: 0 <= i < |w.sent[p]| ==> w.sent[p][i].src == p == w.sent[p][i].msg.source)
    && (forall i :: 0 <= i < |w.got[p]| ==>
          IsPid(w.got[p][i].src) && w.got[p][i].msg.source == w.got[p][i].src && w.got[p][i].dst == p)
  }

  lemma StartSound()
    ensures Sound(Start())
  {
    InitialInv();
  }

  lemma HandFaithful(w: World, p: Packet)
    requires |w.settled| == |w.got| == NR_SLOTS && IsPid(p.src) && IsPid(p.dst)
    ensures var w' := Hand(w, p);
      && Packets(w'.settled[p.src]) == Packets(w.settled[p.src]) + [p]
      && forall s, r :: IsPid(s) && IsPid(r) && From(w.got[r], s) == DeliveredTo(w.settled[s], r) ==>
        From(w'.got[r], s) == DeliveredTo(w'.settled[s], r)
  {
    var w' := Hand(w, p);
    PacketsSnoc(w.settled[p.src], Outcome(p, true));
    forall s, r | IsPid(s) && IsPid(r) && From(w.got[r], s) == DeliveredTo(w.settled[s], r)
      ensures From(w'.got[r], s) == DeliveredTo(w'.settled[s], r)
    {
      FromSnoc(w.got[r], p, s);
      DeliveredToSnoc(w.settled[s], Outcome(p, true), r);
    }
  }

  lemma SendAccounted(w: World, s: int, d: int, m: int)
    requires Sound(w) && Enabled(w.st, OpSend(s, d, m))
    ensures var w' := Step(w, OpSend(s, d, m));
      && (forall t :: IsPid(t) ==> Accounted(w', t))
      && (forall t, r :: IsPid(t) && IsPid(r) ==> Faithful(w', t, r))
  {
    var w' := Step(w, OpSend(s, d, m));
    if Accepts(w.st.procs[d], s) {
      HandFaithful(w, Packet(s, d, Load(w.st.procs[s].mem, m).(source := s)));
    }
    forall t | IsPid(t) ensures Accounted(w', t) { assert Accounted(w, t); }
    forall t, r | IsPid(t) && IsPid(r) ensures Faithful(w', t, r) { assert Faithful(w, t, r); }
  }

  lemma ReceiveAccounted(w: World, r: int, src: int, m: int)
    requires Sound(w) && Enabled(w.st, OpReceive(r, src, m))
    ensures var w' := Step(w, OpReceive(r, src, m));
      && (forall t :: IsPid(t) ==> Accounted(w', t))
      && (forall t, u :: IsPid(t) && IsPid(u) ==> Faithful(w', t, u))
  {
    hide Accounted, Faithful, ByAge, Genuine, NoMissedRendezvous, Acyclic;
    forall t | IsPid(t)
      ensures Accounted(Step(w, OpReceive(r, src, m)), t)
    {
      ReceiveAccountsOne(w, r, src, m, t);
    }
    forall t, u | IsPid(t) && IsPid(u)
      ensures Faithful(Step(w, OpReceive(r, src, m)), t, u)
    {
      ReceiveFaithful(w, r, src, m, t, u);
    }
  }

  /** A receive hands over the message of the sender it picks, and leaves the other senders as they are. */
  ghost predicate Picks(st: State, r: int, src: int, t: int)
    requires Shape(st) && IsPid(r)
  {
    IsPid(t) && t == Chosen(st, r, src) && !(st.procs[r].intPending && (src == ANY || src == INTERRUPT))
  }

  lemma ReceiveSenders(st: State, r: int, src: int, m: int, t: int)
    requires Inv(st) && Enabled(st, OpReceive(r, src, m)) && IsPid(t)
    ensures var st' := Next(st, OpReceive(r, src, m));
      && Shape(st')
      && if Picks(st, r, src, t) then
           Sending !in st'.procs[t].flags && Sending in st.procs[t].flags && st.procs[t].sendTo == r
         else
           && (Sending in st'.procs[t].flags <==> Sending in st.procs[t].flags)
           && (Sending in st.procs[t].flags ==> Pending(st', t) == Pending(st, t))
  {
    hide NoMissedRendezvous, Acyclic, Without;
    assert QueueExact(st, r) && SlotOk(st.procs[t]);
    assert st.queues[r] != [] ==> Sends(st, st.queues[r][0], r) by {
      assert st.queues[r] != [] ==> st.queues[r][0] in st.queues[r];
    }
  }

  lemma ReceiveAccountsOne(w: World, r: int, src: int, m: int, t: int)
    requires Sound(w) && Enabled(w.st, OpReceive(r, src, m)) && IsPid(t)
    ensures Accounted(Step(w, OpReceive(r, src, m)), t)
  {
    assert Accounted(w, t);
    hide Inv, Next, Pending, Sound;
    SoundState(w);
    ReceiveSenders(w.st, r, src, m, t);
    if Picks(w.st, r, src, t) {
      PacketsSnoc(w.settled[t], Outcome(Pending(w.st, t), true));
      PendingTo(w.st, t);
    }
  }

  lemma SoundState(w: World)
    requires Sound(w)
    ensures WorldShape(w) && Inv(w.st) && Shape(w.st)
  {
  }

  lemma PendingTo(st: State, t: int)
    requires Shape(st) && IsPid(t)
    ensures Pending(st, t).dst == st.procs[t].sendTo && Pending(st, t).src == t
  {
  }

  lemma ReceiveFaithful(w: World, r: int, src: int, m: int, t: int, u: int)
    requires Sound(w) && Enabled(w.st, OpReceive(r, src, m)) && IsPid(t) && IsPid(u)
    ensures Faithful(Step(w, OpReceive(r, src, m)), t, u)
  {
    assert Faithful(w, t, u);
    hide Inv, Next, Pending, Sound;
    SoundState(w);
    var f := Chosen(w.st, r, src);
    if IsPid(f) {
      PendingTo(w.st, f);
      HandFaithful(w, Pending(w.st, f).(dst := r));
    }
  }

  lemma AbortAccounted(w: World, pid: int, retval: int)
    requires Sound(w) && Enabled(w.st, OpAbort(pid, retval))
    ensures var w' := Step(w, OpAbort(pid, retval));
      && (forall t :: IsPid(t) ==> Accounted(w', t))
      && (forall t, r :: IsPid(t) && IsPid(r) ==> Faithful(w', t, r))
  {
    hide NoMissedRendezvous, QueueExact, Acyclic, Without;
    var w' := Step(w, OpAbort(pid, retval));
    forall t | IsPid(t)
      ensures Accounted(w', t)
    {
      assert Accounted(w, t) && SlotOk(w.st.procs[t]);
      PacketsSnoc(w.settled[t], Outcome(Pending(w.st, t), false));
    }
    forall t, r | IsPid(t) && IsPid(r)
      ensures Faithful(w', t, r)
    {
      assert Faithful(w, t, r);
      DeliveredToSnoc(w.settled[t], Outcome(Pending(w.st, t), false), r);
    }
  }

  /** The other steps leave the history and every blocked sender alone. */
  lemma QuietAccounted(w: World, op: Op)
    requires Sound(w) && Enabled(w.st, op) && (op.OpInform? || op.OpFork? || op.OpFlags? || op.OpWrite?)
    ensures var w' := Step(w, op);
      && (forall t :: IsPid(t) ==> Accounted(w', t))
      && (forall t, r :: IsPid(t) && IsPid(r) ==> Faithful(w', t, r))
  {
    var w' := Step(w, op);
    forall t | IsPid(t)
      ensures Accounted(w', t)
    {
      assert Accounted(w, t) && SlotOk(w.st.procs[t]);
    }
    forall t, r | IsPid(t) && IsPid(r) ensures Faithful(w', t, r) { assert Faithful(w, t, r); }
  }

  lemma {:induction false} WithoutOrdered(stamp: seq<nat>, q: seq<int>, x: int)
    requires Ordered(stamp, q)
    ensures Ordered(stamp, Without(q, x))
  {
    if q != [] {
      WithoutOrdered(stamp, q[1..], x);
      forall s | s in q[1..] ensures stamp[q[0]] < stamp[s] {}
    }
  }

  lemma SendByAge(w: World, s: int, d: int, m: int, e: int)
    requires WorldShape(w) && Inv(w.st) && Enabled(w.st, OpSend(s, d, m)) && IsPid(e) && ByAge(w, e)
    ensures ByAge(Step(w, OpSend(s, d, m)), e)
  {
    assert QueueExact(w.st, e) && !Sends(w.st, s, e);
    assert s !in w.st.queues[e];
  }

  lemma StepByAge(w: World, op: Op, e: int)
    requires WorldShape(w) && Inv(w.st) && Enabled(w.st, op) && IsPid(e) && ByAge(w, e)
    ensures ByAge(Step(w, op), e)
  {
    match op
    case OpSend(s, d, m) =>
      SendByAge(w, s, d, m, e);
    case OpReceive(r, src, m) =>
      WithoutOrdered(w.stamp, w.st.queues[e], Chosen(w.st, r, src));
    case OpAbort(pid, _) =>
      WithoutOrdered(w.stamp, w.st.queues[e], pid);
    case _ =>
  }

  lemma StepGenuine(w: World, op: Op, p: int)
    requires WorldShape(w) && Inv(w.st) && Enabled(w.st, op) && IsPid(p) && Genuine(w, p)
    requires forall s :: IsPid(s) ==> Accounted(w, s) && Genuine(w, s)
    ensures Genuine(Step(w, op), p)
  {
    match op
    case OpReceive(r, src, m) =>
      var f := Chosen(w.st, r, src);
      if IsPid(f) {
        assert QueueExact(w.st, r) && Sends(w.st, f, r);
        assert Accounted(w, f) && Genuine(w, f);
        assert w.sent[f][|w.sent[f]| - 1] == Pending(w.st, f);
      }
    case _ =>
  }

  lemma StepAccounted(w: World, op: Op)
    requires Sound(w) && Enabled(w.st, op)
    ensures WorldShape(Step(w, op))
    ensures forall s :: IsPid(s) ==> Accounted(Step(w, op), s)
    ensures forall s, r :: IsPid(s) && IsPid(r) ==> Faithful(Step(w, op), s, r)
  {
    match op {
      case OpSend(s, d, m) => SendAccounted(w, s, d, m);
      case OpReceive(r, src, m) => ReceiveAccounted(w, r, src, m);
      case OpAbort(pid, retval) => AbortAccounted(w, pid, retval);
      case _ => QuietAccounted(w, op);
    }
  }

  lemma StepSound(w: World, op: Op)
    requires Sound(w) && Enabled(w.st, op)
    ensures Sound(Step(w, op))
  {
    NextKeepsInv(w.st, op);
    StepAccounted(w, op);
    forall e | IsPid(e)
      ensures ByAge(Step(w, op), e) && Genuine(Step(w, op), e)
    {
      StepByAge(w, op, e);
      StepGenuine(w, op, e);
    }
  }

  // ---------- runs ----------

  ghost predicate StepsTo(w: World, op: Op, w': World) {
    WorldShape(w) && Inv(w.st) && Enabled(w.st, op) && w' == Step(w, op)
  }

  /** A run: states joined by enabled steps. */
  ghost predicate IsRun(ws: seq<World>, ops: seq<Op>) {
    && |ws| == |ops| + 1
    && ws[0] == Start()
    && forall i :: 0 <= i < |ops| ==> StepsTo(ws[i], ops[i], ws[i + 1])
  }

  lemma {:induction false} RunSound(ws: seq<World>, ops: seq<Op>, k: nat)
    requires IsRun(ws, ops) && k < |ws|
    ensures Sound(ws[k])
  {
    if k == 0 {
      StartSound();
    } else {
      RunSound(ws, ops, k - 1);
      assert StepsTo(ws[k - 1], ops[k - 1], ws[k - 1 + 1]);
      StepSound(ws[k - 1], ops[k - 1]);
    }
  }

  lemma {:induction false} PacketsAt(os: seq<Outcome>, i: nat)
    requires i < |os|
    ensures |Packets(os)| == |os| && Packets(os)[i] == os[i].packet
  {
    if i < |os| - 1 {
      PacketsAt(os[..|os|-1], i);
    } else if |os| > 1 {
      PacketsAt(os[..|os|-1], 0);
    }
  }

  /** The fate of the i-th message s ever got accepted, at any point of any run: it has been settled, as
      the i-th of s and once, or it is the one s is blocked on, and s stands in its addressee's list. */
  lemma MessageFate(ws: seq<World>, ops: seq<Op>, k: nat, s: int, i: nat)
    requires IsRun(ws, ops) && k < |ws| && IsPid(s)
    requires WorldShape(ws[k]) && i < |ws[k].sent[s]|
    ensures var w := ws[k];
      if i < |w.settled[s]| then
        w.settled[s][i].packet == w.sent[s][i]
      else
        i == |w.settled[s]| && w.sent[s][i] == Pending(w.st, s)
        && IsPid(w.sent[s][i].dst) && s in w.st.queues[w.sent[s][i].dst]
  {
    RunSound(ws, ops, k);
    var w := ws[k];
    assert Accounted(w, s);
    if i < |w.settled[s]| {
      PacketsAt(w.settled[s], i);
    } else {
      if w.settled[s] != [] {
        PacketsAt(w.settled[s], 0);
      }
      assert SlotOk(w.st.procs[s]);
      assert QueueExact(w.st, w.st.procs[s].sendTo) && Sends(w.st, s, w.st.procs[s].sendTo);
    }
  }

  /** History is only ever added to. */
  lemma HistoryGrows(w: World, op: Op, s: int)
    requires WorldShape(w) && Inv(w.st) && Enabled(w.st, op) && IsPid(s)
    ensures var w' := Step(w, op);
      WorldShape(w') && w.sent[s] <= w'.sent[s] && w.settled[s] <= w'.settled[s] && w.got[s] <= w'.got[s]
  {
  }

  /** A receive from anybody takes, of all the messages waiting for r, the one that has waited longest. */
  lemma ReceiveAnyTakesOldest(w: World, r: int, m: int)
    requires Sound(w) && Enabled(w.st, OpReceive(r, ANY, m))
    requires !w.st.procs[r].intPending
    requires exists s :: Sends(w.st, s, r)
    ensures var f := Chosen(w.st, r, ANY);
      && Sends(w.st, f, r)
      && (forall s :: Sends(w.st, s, r) && s != f ==> w.stamp[f] < w.stamp[s])
      && Step(w, OpReceive(r, ANY, m)).got[r] == w.got[r] + [Pending(w.st, f)]
      && Load(Next(w.st, OpReceive(r, ANY, m)).procs[r].mem, m) == Pending(w.st, f).msg
  {
    assert QueueExact(w.st, r) && ByAge(w, r);
    forall s | Sends(w.st, s, r)
      ensures s == Chosen(w.st, r, ANY) || w.stamp[Chosen(w.st, r, ANY)] < w.stamp[s]
    {
      assert s in w.st.queues[r];
    }
  }

  /** A send to a receiver that is blocked for it hands the message over at once: the receiver finds it at the address
      it gave, and neither side is blocked on the other. */
  lemma SendHandsOver(w: World, s: int, d: int, m: int)
    requires Sound(w) && Enabled(w.st, OpSend(s, d, m))
    requires Receiving in w.st.procs[d].flags && (w.st.procs[d].recvFrom == s || w.st.procs[d].recvFrom == ANY)
    ensures var w', p := Step(w, OpSend(s, d, m)), Packet(s, d, Load(w.st.procs[s].mem, m).(source := s));
      && w'.got[d] == w.got[d] + [p] && w'.settled[s] == w.settled[s] + [Outcome(p, true)]
      && Load(w'.st.procs[d].mem, w.st.procs[d].msg) == p.msg
      && Receiving !in w'.st.procs[d].flags && w'.st.procs[s].flags == {}
      && w'.st.queues == w.st.queues
  {
    hide Acyclic, NoMissedRendezvous, Reaches;
  }

  /** A receive from a named process that is blocked sending takes that message, whoever else is waiting, and the others
      keep their places. */
  lemma ReceiveTakesNamed(w: World, r: int, src: int, m: int)
    requires Sound(w) && Enabled(w.st, OpReceive(r, src, m)) && IsPid(src) && Sends(w.st, src, r)
    ensures var w' := Step(w, OpReceive(r, src, m));
      && w'.got[r] == w.got[r] + [Pending(w.st, src)]
      && w'.settled[src] == w.settled[src] + [Outcome(Pending(w.st, src), true)]
      && Load(w'.st.procs[r].mem, m) == Pending(w.st, src).msg
      && w'.st.procs[src].flags == {} && w'.st.procs[r].flags == {}
      && w'.st.queues[r] == Without(w.st.queues[r], src)
  {
    hide Acyclic, NoMissedRendezvous;
    assert SlotOk(w.st.procs[src]);
  }

  /** Where a process that a step hands something to has asked to have it. */
  function Address(st: State, op: Op, r: int): int
    requires Shape(st) && IsPid(r)
  {
    if op.OpReceive? then op.m else st.procs[r].msg
  }

  /** A step hands a process at most one message, and what it hands it lies in its memory at the address it gave. */
  lemma HandedIsRead(w: World, op: Op, r: int)
    requires Sound(w) && Enabled(w.st, op) && IsPid(r)
    ensures var w' := Step(w, op);
      && WorldShape(w') && |w.got[r]| <= |w'.got[r]| <= |w.got[r]| + 1
      && (w'.got[r] == w.got[r] || Load(w'.st.procs[r].mem, Address(w.st, op, r)) == w'.got[r][|w.got[r]|].msg)
  {
    hide Acyclic, NoMissedRendezvous, Reaches, Inv, Next, SlotOk, Accounted, Faithful, ByAge, Genuine;
    SoundState(w);
    HistoryGrows(w, op, r);
    match op
    case OpSend(s, d, m) => if Accepts(w.st.procs[d], s) { SendHandsOver(w, s, d, m); }
    case OpReceive(t, src, m) => if r == t { ReceiveIsRead(w, t, src, m); }
    case _ =>
  }

  lemma ReceiveIsRead(w: World, r: int, src: int, m: int)
    requires Sound(w) && Enabled(w.st, OpReceive(r, src, m))
    ensures var w' := Step(w, OpReceive(r, src, m));
      && WorldShape(w') && |w'.got[r]| <= |w.got[r]| + 1
      && (w'.got[r] == w.got[r] || Load(w'.st.procs[r].mem, m) == w'.got[r][|w.got[r]|].msg)
  {
    hide Acyclic, NoMissedRendezvous, SlotOk, Accounted, Faithful, ByAge, Genuine;
    assert QueueExact(w.st, r);
    var f := Chosen(w.st, r, src);
    if IsPid(f) {
      assert src == ANY ==> f in w.st.queues[r];
      assert Sends(w.st, f, r) && f != r;
    }
  }
}
