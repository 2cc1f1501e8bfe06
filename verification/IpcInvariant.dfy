/** What every run of the IPC state machine keeps: no lost wakeup, exactly-once
    FIFO delivery, one process on CPU, priorities at or above their base. */
module IpcInvariant {
  import opened Prelude
  import opened Scheduler
  import opened Ipc

  // ----- The invariant -----

  predicate InReceiveCall(call: Call) {
    call.InReceive? || call.InReceiveAt?
  }

  /** The wakeup a process blocked in `call` relies on has not been lost: its
      channel is open, in the state that makes the call wait, and names it. */
  ghost predicate WakeupPending(chans: seq<Channel>, i: nat, call: Call) {
    && !call.NoCall? && call.ch < |chans|
    && var c := chans[call.ch];
       && !c.closed
       && (if call.InSend? then c.sendWaiter == Some(i) && |c.queue| == QUEUE_CAP
           else c.recvWaiter == Some(i) && c.queue == [])
  }

  // `cpu` is the slot on CPU: `current`, except while a dead process is left.
  ghost predicate ProcOk(s: State, i: nat, cpu: Option<nat>)
    requires i < |s.table|
  {
    s.table[i].Some? ==>
      var p := s.table[i].value;
      && p.prio.effective <= p.prio.base
      && (p.state == Running <==> cpu == Some(i))
      && (!p.call.NoCall? ==> p.call.ch < |s.chans|)
      && (p.state == Blocked ==>
            WakeupPending(s.chans, i, p.call) && p.deadline == if p.call.InReceiveAt? then Some(p.call.until) else None)
      && (p.state == Running || p.state == Runnable ==> p.deadline.None?)
  }

  // `dead`, if given, may still be named as a waiter.
  ghost predicate ChanOkBut(s: State, h: nat, dead: Option<nat>)
    requires h < |s.chans|
  {
    var c := s.chans[h];
    && |c.queue| <= QUEUE_CAP
    && (c.closed ==> c.recvWaiter.None? && c.sendWaiter.None?)
    && (c.recvWaiter.Some? ==> c.queue == [] && (c.recvWaiter == dead || Alive(s, c.recvWaiter.value)))
    && (c.sendWaiter.Some? ==> |c.queue| == QUEUE_CAP && (c.sendWaiter == dead || Alive(s, c.sendWaiter.value)))
    && c.accepted == c.delivered + c.queue
  }

  ghost predicate ChansOk(s: State, dead: Option<nat>) {
    forall h: nat :: h < |s.chans| ==> ChanOkBut(s, h, dead)
  }

  ghost predicate ProcsOk(s: State, cpu: Option<nat>) {
    && (forall i: nat :: i < |s.table| ==> ProcOk(s, i, cpu))
    && (cpu.Some? ==> Occupied(s, cpu.value))
  }

  // `Inv` with the two exceptions the inside of a handler needs.
  ghost predicate Ok(s: State, cpu: Option<nat>, dead: Option<nat>) {
    ProcsOk(s, cpu) && ChansOk(s, dead)
  }

  ghost predicate Inv(s: State) {
    Ok(s, s.current, None)
  }

  // ----- Waking and closing -----

  function Woken(slot: Option<Process>): Option<Process> {
    if slot.Some? && slot.value.state == Blocked
    then Some(slot.value.(state := Runnable, deadline := None)) else slot
  }

  lemma WakesOnly(s: State, r: Option<nat>, w: Option<nat>)
    ensures var t := WakeOpt(WakeOpt(s, r), w);
            && t == s.(table := t.table) && |t.table| == |s.table|
            && forall i: nat {:trigger t.table[i]} :: i < |s.table| ==>
                 t.table[i] == if r == Some(i) || w == Some(i) then Woken(s.table[i]) else s.table[i]
  {
  }

  // Changing a channel keeps the waits of every process it still names.
  lemma WaitsElsewhere(chans: seq<Channel>, h: nat, c: Channel, i: nat, call: Call)
    requires h < |chans| && WakeupPending(chans, i, call)
    requires call.ch == h ==>
      && !c.closed && (if call.InSend? then c.sendWaiter == Some(i) && |c.queue| == QUEUE_CAP
                       else c.recvWaiter == Some(i) && c.queue == [])
    ensures WakeupPending(chans[h := c], i, call)
  {
  }

  // A channel may change in place when the processes waiting on it are woken:
  // at worst a woken process runs another round of its call.
  lemma ChanChange(s: State, h: nat, c: Channel, cpu: Option<nat>, dead: Option<nat>)
    requires Ok(s, cpu, dead) && h < |s.chans|
    requires ChanOkBut(PutChan(s, h, c), h, dead)
    requires c.recvWaiter == s.chans[h].recvWaiter || c.recvWaiter.None?
    requires c.sendWaiter == s.chans[h].sendWaiter || c.sendWaiter.None?
    ensures var r := if c.recvWaiter.None? then s.chans[h].recvWaiter else None;
            var w := if c.sendWaiter.None? then s.chans[h].sendWaiter else None;
            Ok(WakeOpt(WakeOpt(PutChan(s, h, c), r), w), cpu, dead)
  {
    var r := if c.recvWaiter.None? then s.chans[h].recvWaiter else None;
    var w := if c.sendWaiter.None? then s.chans[h].sendWaiter else None;
    var u := PutChan(s, h, c);
    var t := WakeOpt(WakeOpt(u, r), w);
    WakesOnly(u, r, w);
    assert ChanOkBut(u, h, dead);
    forall i: nat | i < |t.table| ensures ProcOk(t, i, cpu) {
      assert ProcOk(s, i, cpu);
      if s.table[i].Some? && s.table[i].value.state == Blocked && r != Some(i) && w != Some(i) {
        WaitsElsewhere(s.chans, h, c, i, s.table[i].value.call);
      }
    }
    forall k: nat | k < |t.chans| ensures ChanOkBut(t, k, dead) { assert ChanOkBut(s, k, dead); }
  }

  lemma CloseKeeps(s: State, h: nat, cpu: Option<nat>, dead: Option<nat>)
    requires Ok(s, cpu, dead) && h < |s.chans|
    ensures Ok(Close(s, h), cpu, dead)
    ensures Close(s, h).chans ==
              s.chans[h := s.chans[h].(closed := true, recvWaiter := None, sendWaiter := None)]
  {
    var c := s.chans[h].(closed := true, recvWaiter := None, sendWaiter := None);
    assert ChanOkBut(s, h, dead);
    ChanChange(s, h, c, cpu, dead);
  }

  lemma {:induction false} CloseAllKeeps(s: State, id: nat, h: nat, cpu: Option<nat>)
    requires Ok(s, cpu, Some(id)) && h <= |s.chans|
    requires forall k: nat :: k < h ==> !BlockedOn(s.chans[k], id)
    ensures Ok(CloseAllFrom(s, id, h), cpu, Some(id))
    ensures |CloseAllFrom(s, id, h).chans| == |s.chans|
    ensures forall k: nat :: k < |s.chans| ==> !BlockedOn(CloseAllFrom(s, id, h).chans[k], id)
    decreases |s.chans| - h
  {
    if h < |s.chans| {
      if BlockedOn(s.chans[h], id) {
        CloseKeeps(s, h, cpu, Some(id));
        CloseAllKeeps(Close(s, h), id, h + 1, cpu);
      } else {
        CloseAllKeeps(s, id, h + 1, cpu);
      }
    }
  }

  // A process that dies takes its waits with it.
  lemma BuryKeeps(s: State, id: nat, status: nat)
    requires Inv(s) && Alive(s, id)
    ensures Ok(Bury(s, id, status), if s.current == Some(id) then None else s.current, None)
  {
    var cpu := if s.current == Some(id) then None else s.current;
    var t := Put(s, id, s.table[id].value.(state := Exited, exitStatus := status));
    forall i: nat | i < |t.table| ensures ProcOk(t, i, cpu) { assert ProcOk(s, i, s.current); }
    forall h: nat | h < |t.chans| ensures ChanOkBut(t, h, Some(id)) { assert ChanOkBut(s, h, None); }
    CloseAllKeeps(t, id, 0, cpu);
    var u := CloseAllFrom(t, id, 0);
    forall h: nat | h < |u.chans| ensures ChanOkBut(u, h, None) { assert ChanOkBut(u, h, Some(id)); }
  }

  // ----- Switching -----

  lemma PickIsRunnable(s: State, c: nat, n: nat)
    requires Pick(View(s.table), c, s.cursor) == Some(n)
    ensures HasState(s, n, Runnable) && n != c
  {
    assert View(s.table)[n] == SlotView(s.table[n]);
  }

  // With nobody on CPU, selection puts exactly the chosen slot there.
  lemma SwitchIn(d: State, n: nat)
    requires Ok(d, None, None) && HasState(d, n, Runnable)
    ensures Inv(Put(d, n, d.table[n].value.(state := Running)).(cursor := n, current := Some(n)))
  {
    var t := Put(d, n, d.table[n].value.(state := Running)).(cursor := n, current := Some(n));
    forall i: nat | i < |t.table| ensures ProcOk(t, i, Some(n)) { assert ProcOk(d, i, None); }
    forall h: nat | h < |t.chans| ensures ChanOkBut(t, h, None) { assert ChanOkBut(d, h, None); }
  }

  lemma OkIgnoresCurrent(d: State, current: Option<nat>)
    requires Ok(d, None, None)
    ensures Ok(d.(current := current), None, None)
  {
    var t := d.(current := current);
    forall i: nat | i < |t.table| ensures ProcOk(t, i, None) { assert ProcOk(d, i, None); }
    forall h: nat | h < |t.chans| ensures ChanOkBut(t, h, None) { assert ChanOkBut(d, h, None); }
  }

  lemma ReschedKeeps(s: State)
    requires Inv(s)
    ensures Inv(Resched(s))
  {
    if s.current.Some? {
      var c := s.current.value;
      assert ProcOk(s, c, s.current);
      var d := Demoted(s, Runnable);
      forall i: nat | i < |d.table| ensures ProcOk(d, i, None) { assert ProcOk(s, i, s.current); }
      forall h: nat | h < |d.chans| ensures ChanOkBut(d, h, None) { assert ChanOkBut(s, h, None); }
      var n := Pick(View(d.table), c, d.cursor);
      if n.Some? { PickIsRunnable(d, c, n.value); SwitchIn(d, n.value); }
    }
  }

  lemma LeaveDeadKeeps(s: State)
    requires Ok(s, None, None) && OnCpu(s) && HasState(s, s.current.value, Exited)
    ensures Inv(LeaveDead(s))
  {
    var n := Pick(View(s.table), s.current.value, s.cursor);
    if n.Some? {
      PickIsRunnable(s, s.current.value, n.value);
      SwitchIn(s, n.value);
    } else {
      OkIgnoresCurrent(s, None);
    }
  }

  // The process on CPU has recorded itself as a waiter and may now block.
  ghost predicate ReadyToBlock(s: State) {
    && OnCpu(s) && ChansOk(s, None)
    && (forall i: nat :: i < |s.table| && s.current != Some(i) ==> ProcOk(s, i, s.current))
    && var me := s.current.value; var p := s.table[me].value;
       && p.state == Running && p.prio.effective <= p.prio.base && WakeupPending(s.chans, me, p.call)
       && p.deadline == if p.call.InReceiveAt? then Some(p.call.until) else None
  }

  lemma BlockKeeps(s: State)
    requires ReadyToBlock(s)
    ensures Inv(BlockCurrent(s))
  {
    var c := s.current.value;
    var d := Demoted(s, Blocked);
    forall i: nat | i < |d.table| ensures ProcOk(d, i, None) {
      if i != c { assert ProcOk(s, i, s.current); }
    }
    forall h: nat | h < |d.chans| ensures ChanOkBut(d, h, None) { assert ChanOkBut(s, h, None); }
    var n := Pick(View(d.table), c, d.cursor);
    if n.Some? { PickIsRunnable(d, c, n.value); SwitchIn(d, n.value); } else { OkIgnoresCurrent(d, None); }
  }

  // ----- One waiter per role -----

  predicate BlockedIn(s: State, i: nat, h: nat, sending: bool) {
    HasState(s, i, Blocked) &&
    var call := s.table[i].value.call;
    !call.NoCall? && call.ch == h && call.InSend? == sending
  }

  /** The kernel's stated limit: a channel has one waiter slot per role. */
  ghost predicate OnePerRole(s: State) {
    forall i: nat, j: nat, h: nat, b: bool {:trigger BlockedIn(s, i, h, b), BlockedIn(s, j, h, b)} ::
      BlockedIn(s, i, h, b) && BlockedIn(s, j, h, b) ==> i == j
  }

  // No process but the one on CPU is blocked in this role on channel `h`.
  ghost predicate NoRival(s: State, h: nat, sending: bool) {
    forall i: nat :: s.current != Some(i) ==> !BlockedIn(s, i, h, sending)
  }

  /** Whether a round of `call` has to wait: its channel is open, and full for a
      sender, or empty with the deadline still ahead for a receiver. */
  predicate Waits(s: State, call: Call, now: nat)
    requires !call.NoCall? && call.ch < |s.chans|
  {
    var c := s.chans[call.ch];
    !c.closed && match call
                 case InSend(_, _) => |c.queue| >= QUEUE_CAP
                 case InReceive(_) => c.queue == []
                 case InReceiveAt(_, until) => c.queue == [] && now < until
  }

  // The round of `send` or `receive` a step runs, if it runs one.
  function RoundOf(s: State, step: Step): (call: Call)
    requires Enabled(s, step)
    ensures !call.NoCall? ==> call.ch < |s.chans|
  {
    match step
    case SysSend(h, msg) => if h < |s.chans| then InSend(h, msg) else NoCall
    case SysReply(h, tag, msg) => if h < |s.chans| && msg.tag == tag then InSend(h, msg) else NoCall
    case SysReceive(h) => if h < |s.chans| then InReceive(h) else NoCall
    case SysReceiveAt(h, until, _) => if h < |s.chans| then InReceiveAt(h, until) else NoCall
    case Retry(_) => s.table[s.current.value].value.call
    case _ => NoCall
  }

  function ClockOf(step: Step): nat {
    match step case SysReceiveAt(_, _, now) => now case Retry(now) => now case _ => 0
  }

  /** The test the handlers leave out: a round that has to wait finds no other
      process blocked in its role on its channel. */
  ghost predicate RoleIsFree(s: State, step: Step)
    requires Enabled(s, step)
  {
    var call := RoundOf(s, step);
    !call.NoCall? && Waits(s, call, ClockOf(step)) ==> NoRival(s, call.ch, call.InSend?)
  }

  /** What a step must find to keep the invariant: a free role to wait in, and for
      `sys_kill` a target other than the caller. */
  ghost predicate Safe(s: State, step: Step)
    requires Enabled(s, step)
  {
    RoleIsFree(s, step) && (step.SysKill? ==> s.current != Some(step.pid))
  }

  lemma ReceiveBlockKeeps(s: State, h: nat, until: Option<nat>)
    requires Inv(s) && OnCpu(s) && h < |s.chans|
    requires !s.chans[h].closed && s.chans[h].queue == [] && NoRival(s, h, false)
    ensures var s1 := PutChan(Unboost(s, s.current.value), h, s.chans[h].(recvWaiter := s.current));
            Inv(SuspendIn(s1, if until.Some? then InReceiveAt(h, until.value) else InReceive(h), until))
  {
    var me := s.current.value;
    assert ProcOk(s, me, s.current) && ChanOkBut(s, h, None);
    var c := s.chans[h].(recvWaiter := s.current);
    var s1 := PutChan(Unboost(s, me), h, c);
    var call := if until.Some? then InReceiveAt(h, until.value) else InReceive(h);
    var p := s1.table[me].value;
    var s2 := Put(s1, me, p.(call := call, deadline := if until.Some? then until else p.deadline));
    forall i: nat | i < |s2.table| && s2.current != Some(i) ensures ProcOk(s2, i, s2.current) {
      assert ProcOk(s, i, s.current) && !BlockedIn(s, i, h, false);
      if HasState(s, i, Blocked) { WaitsElsewhere(s.chans, h, c, i, s.table[i].value.call); }
    }
    forall k: nat | k < |s2.chans| ensures ChanOkBut(s2, k, None) { assert ChanOkBut(s, k, None); }
    BlockKeeps(s2);
  }

  lemma SendBlockKeeps(s: State, h: nat, msg: Message)
    requires Inv(s) && OnCpu(s) && h < |s.chans|
    requires !s.chans[h].closed && |s.chans[h].queue| == QUEUE_CAP && NoRival(s, h, true)
    ensures Inv(SuspendIn(PutChan(s, h, s.chans[h].(sendWaiter := s.current)), InSend(h, msg), None))
  {
    var me := s.current.value;
    assert ProcOk(s, me, s.current) && ChanOkBut(s, h, None);
    var c := s.chans[h].(sendWaiter := s.current);
    var s1 := PutChan(s, h, c);
    var p := s1.table[me].value;
    var s2 := Put(s1, me, p.(call := InSend(h, msg), deadline := p.deadline));
    forall i: nat | i < |s2.table| && s2.current != Some(i) ensures ProcOk(s2, i, s2.current) {
      assert ProcOk(s, i, s.current) && !BlockedIn(s, i, h, true);
      if HasState(s, i, Blocked) { WaitsElsewhere(s.chans, h, c, i, s.table[i].value.call); }
    }
    forall k: nat | k < |s2.chans| ensures ChanOkBut(s2, k, None) { assert ChanOkBut(s, k, None); }
    BlockKeeps(s2);
  }

  // A switch changes the process on CPU and a Runnable one, no one else.
  lemma SwitchChanges(s: State, demoteTo: ProcState)
    requires OnCpu(s)
    ensures var (t, switched) := SwitchOut(s, demoteTo); var me := s.current.value; var p := s.table[me].value;
            && |t.table| == |s.table| && t.chans == s.chans
            && t.table[me] == (if p.state != Running then s.table[me]
                               else if switched || demoteTo != Runnable then Some(p.(state := demoteTo))
                               else s.table[me])
            && forall i: nat {:trigger t.table[i]} :: i < |s.table| && i != me ==>
                 || t.table[i] == s.table[i]
                 || (HasState(s, i, Runnable) && t.table[i] == Some(s.table[i].value.(state := Running)))
  {
    var d := Demoted(s, demoteTo);
    var n := Pick(View(d.table), s.current.value, d.cursor);
    if n.Some? { PickIsRunnable(d, s.current.value, n.value); }
  }

  lemma BlockChanges(s: State)
    requires OnCpu(s) && s.table[s.current.value].value.state == Running
    ensures var t := BlockCurrent(s); var me := s.current.value;
            && |t.table| == |s.table| && t.chans == s.chans
            && t.table[me] == Some(s.table[me].value.(state := Blocked))
            && forall i: nat {:trigger t.table[i]} :: i < |s.table| && i != me && !HasState(s, i, Runnable) ==>
                 t.table[i] == s.table[i]
  {
    SwitchChanges(s, Blocked);
  }

  // A suspended call leaves its process Blocked in it, and no one else less so.
  lemma SuspendBlocks(s: State, call: Call, deadline: Option<nat>)
    requires OnCpu(s) && s.table[s.current.value].value.state == Running
    ensures var t := SuspendIn(s, call, deadline); var me := s.current.value;
            && HasState(t, me, Blocked) && t.table[me].value.call == call
            && forall i: nat :: HasState(s, i, Blocked) ==> i < |t.table| && t.table[i] == s.table[i]
  {
    var me := s.current.value;
    var p := s.table[me].value;
    BlockChanges(Put(s, me, p.(call := call, deadline := if deadline.Some? then deadline else p.deadline)));
  }

  lemma NoRivalFrom(s: State, s1: State, h: nat, call: Call, deadline: Option<nat>)
    requires OnCpu(s) && s.table[s.current.value].value.state == Running
    requires s1.current == s.current && OnCpu(s1) && s1.table[s.current.value].value.state == Running
    requires forall i: nat :: HasState(s, i, Blocked) ==> i < |s1.table| && s1.table[i] == s.table[i]
    requires !call.NoCall? && call.ch == h
    requires OnePerRole(SuspendIn(s1, call, deadline))
    ensures NoRival(s, h, call.InSend?)
  {
    SuspendBlocks(s1, call, deadline);
    var t := SuspendIn(s1, call, deadline);
    assert BlockedIn(t, s.current.value, h, call.InSend?);
    forall i: nat | s.current != Some(i) ensures !BlockedIn(s, i, h, call.InSend?) {
      if BlockedIn(s, i, h, call.InSend?) { assert BlockedIn(t, i, h, call.InSend?); }
    }
  }

  // ----- The channel operations -----

  lemma EndCallKeeps(s: State)
    requires Inv(s) && OnCpu(s)
    ensures Inv(EndCall(s))
  {
    var t := EndCall(s);
    assert ProcOk(s, s.current.value, s.current);
    forall i: nat | i < |t.table| ensures ProcOk(t, i, t.current) { assert ProcOk(s, i, s.current); }
    forall h: nat | h < |t.chans| ensures ChanOkBut(t, h, None) { assert ChanOkBut(s, h, None); }
  }

  // Priorities may move as long as they stay at or above their base.
  lemma PrioChangeKeeps(s: State, i: nat, prio: PriorityState)
    requires Inv(s) && Occupied(s, i) && prio.effective <= prio.base
    ensures Inv(Put(s, i, s.table[i].value.(prio := prio)))
  {
    var t := Put(s, i, s.table[i].value.(prio := prio));
    forall k: nat | k < |t.table| ensures ProcOk(t, k, t.current) { assert ProcOk(s, k, s.current); }
    forall h: nat | h < |t.chans| ensures ChanOkBut(t, h, None) { assert ChanOkBut(s, h, None); }
  }

  lemma BoostReceiverKeeps(s: State, r: nat)
    requires Inv(s) && OnCpu(s)
    ensures Inv(BoostReceiver(s, r))
  {
    var p := Priority(s, s.current.value);
    if Occupied(s, r) && p < Priority(s, r) {
      assert ProcOk(s, r, s.current);
      PrioChangeKeeps(s, r, s.table[r].value.prio.Boost(p));
    }
  }

  lemma SetPriorityKeeps(s: State, id: nat, to: Level)
    requires Inv(s)
    ensures Inv(SetPriority(s, id, to))
  {
    if Occupied(s, id) { PrioChangeKeeps(s, id, s.table[id].value.prio.SetBase(to)); }
  }

  lemma DeliverKeeps(s: State, h: nat)
    requires Inv(s) && h < |s.chans| && s.chans[h].queue != []
    ensures Inv(Deliver(s, h))
  {
    var c := s.chans[h];
    assert ChanOkBut(s, h, None);
    assert c.queue == [c.queue[0]] + c.queue[1..];
    var d := c.(queue := c.queue[1..], delivered := c.delivered + [c.queue[0]], sendWaiter := None);
    assert d.accepted == d.delivered + d.queue;
    ChanChange(s, h, d, s.current, None);
  }

  // Hand a message to the recorded receiver: the push never fails.
  lemma HandOverKeeps(s: State, h: nat, msg: Message)
    requires Inv(s) && h < |s.chans| && s.chans[h].recvWaiter.Some?
    ensures |s.chans[h].queue| < QUEUE_CAP
    ensures Inv(Wake(PutChan(s, h, Accept(s.chans[h].(recvWaiter := None), msg)), s.chans[h].recvWaiter.value))
  {
    var c := s.chans[h];
    assert ChanOkBut(s, h, None);
    var d := Accept(c.(recvWaiter := None), msg);
    ChanChange(s, h, d, s.current, None);
  }

  lemma EnqueueKeeps(s: State, h: nat, msg: Message)
    requires Inv(s) && h < |s.chans|
    requires !s.chans[h].closed && s.chans[h].recvWaiter.None? && |s.chans[h].queue| < QUEUE_CAP
    ensures s.chans[h].sendWaiter.None?
    ensures Inv(PutChan(s, h, Accept(s.chans[h], msg)))
  {
    assert ChanOkBut(s, h, None);
    ChanChange(s, h, Accept(s.chans[h], msg), s.current, None);
  }

  lemma TrySendKeeps(s: State, h: nat, msg: Message)
    requires Inv(s) && h < |s.chans|
    ensures Inv(TrySend(s, h, msg).0) && !TrySend(s, h, msg).1.Panicked?
  {
    var c := s.chans[h];
    if !c.closed {
      if c.recvWaiter.Some? { HandOverKeeps(s, h, msg); }
      else if |c.queue| < QUEUE_CAP { EnqueueKeeps(s, h, msg); }
    }
  }

  lemma SendRoundKeeps(s: State, h: nat, msg: Message)
    requires Inv(s) && OnCpu(s) && h < |s.chans|
    requires Waits(s, InSend(h, msg), 0) ==> NoRival(s, h, true)
    ensures Inv(SendRound(s, h, msg).0) && !SendRound(s, h, msg).1.Panicked?
  {
    var c := s.chans[h];
    assert ProcOk(s, s.current.value, s.current) && ChanOkBut(s, h, None);
    if c.closed {
      EndCallKeeps(s);
    } else if c.recvWaiter.Some? {
      var r := c.recvWaiter.value;
      var b := BoostReceiver(s, r);
      BoostReceiverKeeps(s, r);
      HandOverKeeps(b, h, msg);
      var d := Accept(c.(recvWaiter := None), msg);
      assert BoostReceiver(PutChan(s, h, d), r) == PutChan(b, h, d);
      EndCallKeeps(Wake(PutChan(b, h, d), r));
    } else if |c.queue| < QUEUE_CAP {
      EnqueueKeeps(s, h, msg);
      EndCallKeeps(PutChan(s, h, Accept(c, msg)));
    } else {
      SendBlockKeeps(s, h, msg);
    }
  }

  lemma ReceiveRoundKeeps(s: State, h: nat, until: Option<nat>, now: nat)
    requires Inv(s) && OnCpu(s) && h < |s.chans|
    requires Waits(s, if until.Some? then InReceiveAt(h, until.value) else InReceive(h), now) ==> NoRival(s, h, false)
    ensures Inv(ReceiveRound(s, h, until, now).0)
  {
    var c := s.chans[h];
    assert ProcOk(s, s.current.value, s.current) && ChanOkBut(s, h, None);
    if c.closed {
      EndCallKeeps(s);
    } else if c.queue != [] {
      DeliverKeeps(s, h);
      EndCallKeeps(Deliver(s, h));
    } else if until.Some? && until.value <= now {
      EndCallKeeps(s);
    } else {
      ReceiveBlockKeeps(s, h, until);
    }
  }

  lemma InvGivesOnePerRole(s: State)
    requires Inv(s)
    ensures OnePerRole(s)
  {
    forall i: nat, j: nat, h: nat, b: bool | BlockedIn(s, i, h, b) && BlockedIn(s, j, h, b)
      ensures i == j
    {
      assert ProcOk(s, i, s.current) && ProcOk(s, j, s.current);
    }
  }

  // A round that waited and kept the invariant had no rival.
  lemma RoundHadNoRival(s: State, call: Call, now: nat)
    requires Inv(s) && OnCpu(s) && !call.NoCall? && call.ch < |s.chans| && Waits(s, call, now)
    requires Inv(ExecRetry(s, call, now).0)
    ensures NoRival(s, call.ch, call.InSend?)
  {
    var c := s.chans[call.ch];
    assert ProcOk(s, s.current.value, s.current) && ChanOkBut(s, call.ch, None);
    InvGivesOnePerRole(ExecRetry(s, call, now).0);
    if call.InSend? {
      NoRivalFrom(s, PutChan(s, call.ch, c.(sendWaiter := s.current)), call.ch, call, None);
    } else {
      var s1 := PutChan(Unboost(s, s.current.value), call.ch, c.(recvWaiter := s.current));
      NoRivalFrom(s, s1, call.ch, call, if call.InReceiveAt? then Some(call.until) else None);
    }
  }

  lemma RoundKeepsIff(s: State, call: Call, now: nat)
    requires Inv(s) && OnCpu(s) && !call.NoCall? && call.ch < |s.chans|
    ensures Inv(ExecRetry(s, call, now).0) <==> (Waits(s, call, now) ==> NoRival(s, call.ch, call.InSend?))
    ensures Inv(ExecRetry(s, call, now).0) ==> !ExecRetry(s, call, now).1.Panicked?
  {
    if Waits(s, call, now) && Inv(ExecRetry(s, call, now).0) { RoundHadNoRival(s, call, now); }
    if Waits(s, call, now) ==> NoRival(s, call.ch, call.InSend?) {
      match call
      case InSend(h, msg) => SendRoundKeeps(s, h, msg);
      case InReceive(h) => ReceiveRoundKeeps(s, h, None, now);
      case InReceiveAt(h, until) => ReceiveRoundKeeps(s, h, Some(until), now);
    }
  }

  // ----- The table operations -----

  lemma TableChangeKeeps(s: State, t: State)
    requires Inv(s) && t == s.(table := t.table, current := t.current)
    requires forall i: nat :: i < |t.table| ==> ProcOk(t, i, t.current)
    requires t.current.Some? ==> Occupied(t, t.current.value)
    requires forall i: nat :: Alive(s, i) ==> Alive(t, i)
    ensures Inv(t)
  {
    forall h: nat | h < |t.chans| ensures ChanOkBut(t, h, None) { assert ChanOkBut(s, h, None); }
  }

  lemma InstallKeeps(s: State, prio: Level)
    requires Inv(s)
    ensures Inv(Install(s, prio).0)
  {
    var t := Install(s, prio).0;
    forall i: nat | i < |t.table| ensures ProcOk(t, i, t.current) { assert ProcOk(s, i, s.current); }
    TableChangeKeeps(s, t);
  }

  lemma WaitKeeps(s: State, child: nat)
    requires Inv(s)
    ensures Inv(ExecWait(s, child).0)
  {
    var t := ExecWait(s, child).0;
    if s.current.Some? { assert ProcOk(s, s.current.value, s.current); }
    forall i: nat | i < |t.table| ensures ProcOk(t, i, t.current) { assert ProcOk(s, i, s.current); }
    TableChangeKeeps(s, t);
  }

  lemma TickKeeps(s: State, now: nat)
    requires Inv(s)
    ensures Inv(Resched(s.(table := CheckDeadlines(s.table, now))))
  {
    var t := s.(table := CheckDeadlines(s.table, now));
    forall i: nat | i < |t.table| ensures ProcOk(t, i, t.current) { assert ProcOk(s, i, s.current); }
    TableChangeKeeps(s, t);
    ReschedKeeps(t);
  }

  lemma CreateKeeps(s: State)
    requires Inv(s)
    ensures Inv(s.(chans := s.chans + [NewChannel]))
  {
    var t := s.(chans := s.chans + [NewChannel]);
    forall i: nat | i < |t.table| ensures ProcOk(t, i, t.current) { assert ProcOk(s, i, s.current); }
    forall h: nat | h < |t.chans| ensures ChanOkBut(t, h, None) {
      if h < |s.chans| { assert ChanOkBut(s, h, None); }
    }
  }

  lemma RunAllKeeps(s: State)
    requires Inv(s) && Enabled(s, RunAll)
    ensures Inv(Exec(s, RunAll).0)
  {
    var t := Exec(s, RunAll).0;
    forall i: nat | i < |t.table| ensures ProcOk(t, i, t.current) { assert ProcOk(s, i, s.current); }
    TableChangeKeeps(s, t);
  }

  /** `exit_current`'s search for a Running slot finds the process on CPU. */
  lemma RunningIsCurrent(s: State)
    requires Inv(s) && OnCpu(s)
    ensures FindState(s.table, Running, 0) == s.current
  {
    var c := s.current.value;
    assert ProcOk(s, c, s.current);
    var r := FindState(s.table, Running, 0);
    assert r.Some?;
    assert ProcOk(s, r.value, s.current);
  }

  lemma DieKeeps(s: State, status: nat)
    requires Inv(s) && OnCpu(s)
    ensures Inv(Die(s, s.current.value, status))
  {
    var c := s.current.value;
    assert ProcOk(s, c, s.current);
    BuryKeeps(s, c, status);
    BuryKeepsDead(s, c, status);
    BuryKeepsShape(s, c, status);
    LeaveDeadKeeps(Bury(s, c, status));
  }

  // Closing channels only turns Blocked into Runnable.
  lemma CloseAllOnlyWakes(s: State, id: nat, h: nat)
    requires h <= |s.chans|
    ensures |CloseAllFrom(s, id, h).table| == |s.table|
    ensures forall i: nat {:trigger CloseAllFrom(s, id, h).table[i]} :: i < |s.table| ==>
              CloseAllFrom(s, id, h).table[i] == s.table[i] || CloseAllFrom(s, id, h).table[i] == Woken(s.table[i])
    decreases |s.chans| - h
  {
    if h < |s.chans| {
      if BlockedOn(s.chans[h], id) {
        var c := s.chans[h];
        WakesOnly(PutChan(s, h, c.(closed := true, recvWaiter := None, sendWaiter := None)), c.recvWaiter,
                  c.sendWaiter);
        CloseAllOnlyWakes(Close(s, h), id, h + 1);
      } else {
        CloseAllOnlyWakes(s, id, h + 1);
      }
    }
  }

  lemma BuryKeepsDead(s: State, id: nat, status: nat)
    requires Occupied(s, id)
    ensures HasState(Bury(s, id, status), id, Exited)
  {
    CloseAllOnlyWakes(Put(s, id, s.table[id].value.(state := Exited, exitStatus := status)), id, 0);
  }

  // A step that runs a round is that round.
  lemma StepIsRound(s: State, step: Step)
    requires Enabled(s, step) && !RoundOf(s, step).NoCall?
    ensures OnCpu(s) && Exec(s, step) == ExecRetry(s, RoundOf(s, step), ClockOf(step))
  {
  }

  lemma OtherStepKeeps(s: State, step: Step)
    requires Inv(s) && Enabled(s, step) && RoundOf(s, step).NoCall? && (step.SysKill? ==> s.current != Some(step.pid))
    ensures Inv(Exec(s, step).0)
    ensures !step.KernelSpawn? ==> !Exec(s, step).1.Panicked?
  {
    match step {
      case SysYield => ReschedKeeps(s);
      case SysExit(status) => RunningIsCurrent(s); DieKeeps(s, status);
      case SysFault => RunningIsCurrent(s); DieKeeps(s, FAULT_STATUS);
      case SysKill(pid) => if Alive(s, pid) { BuryKeeps(s, pid, KILL_STATUS); BuryKeepsShape(s, pid, KILL_STATUS); }
      case SysWait(child) => WaitKeeps(s, child);
      case SysSpawn(prio) => if prio < IDLE { InstallKeeps(s, prio); }
      case SysSetPrio(pid, prio) => SetPriorityKeeps(s, if pid == SELF then s.current.value else pid, prio % 256);
      case CreateChan => CreateKeeps(s);
      case KernelTrySend(h, msg) => if h < |s.chans| { TrySendKeeps(s, h, msg); }
      case KernelTryReceive(h) => if h < |s.chans| && s.chans[h].queue != [] { DeliverKeeps(s, h); }
      case KernelClose(h) => if h < |s.chans| { CloseKeeps(s, h, s.current, None); }
      case KernelSpawn => InstallKeeps(s, DEFAULT_PRIORITY);
      case KernelSetPriority(pid, prio) => SetPriorityKeeps(s, pid, prio);
      case Tick(now) => TickKeeps(s, now);
      case RunAll => RunAllKeeps(s);
      case _ =>
    }
  }

  // A process that kills itself is Exited and still on CPU.
  lemma SelfKillBreaks(s: State, pid: nat)
    requires Inv(s) && OnCpu(s) && s.current == Some(pid)
    ensures var t := ExecKill(s, pid).0; t.current == Some(pid) && HasState(t, pid, Exited) && !Inv(t)
  {
    assert ProcOk(s, pid, s.current);
    BuryKeepsDead(s, pid, KILL_STATUS);
    BuryKeepsShape(s, pid, KILL_STATUS);
    var t := Bury(s, pid, KILL_STATUS);
    assert !ProcOk(t, pid, t.current);
  }

  /** A step keeps the invariant if and only if, in the state before it, a round that
      has to wait finds its role on the channel free and no process kills itself. */
  lemma StepKeepsInvIff(s: State, step: Step)
    requires Inv(s) && Enabled(s, step)
    ensures Inv(Exec(s, step).0) <==> Safe(s, step)
    ensures Safe(s, step) && !step.KernelSpawn? ==> !Exec(s, step).1.Panicked?
  {
    if step.SysKill? && s.current == Some(step.pid) {
      SelfKillBreaks(s, step.pid);
    } else if RoundOf(s, step).NoCall? {
      OtherStepKeeps(s, step);
    } else {
      StepIsRound(s, step);
      RoundKeepsIff(s, RoundOf(s, step), ClockOf(step));
    }
  }
}
