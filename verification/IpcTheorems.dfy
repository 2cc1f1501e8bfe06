/** The IPC layer's promises, for every run from boot. */
module IpcTheorems {
  import opened Prelude
  import opened Scheduler
  import opened Ipc
  import opened IpcInvariant

  function EmptyTable(n: nat): (t: seq<Option<Process>>)
    ensures |t| == n && forall i :: 0 <= i < n ==> t[i].None?
  {
    if n == 0 then [] else EmptyTable(n - 1) + [None]
  }

  function Boot(n: nat): State {
    State(EmptyTable(n), [], 0, None)
  }

  /** A run: every step enabled, no round waits in a role already taken, and no
      process kills itself. */
  ghost predicate Runs(s: State, steps: seq<Step>, s': State)
    decreases |steps|
  {
    if steps == [] then s == s'
    else
      && Enabled(s, steps[0])
      && Safe(s, steps[0])
      && Runs(Exec(s, steps[0]).0, steps[1..], s')
  }

  ghost predicate Reachable(s: State) {
    exists n: nat, steps :: Runs(Boot(n), steps, s)
  }

  lemma {:induction false} RunKeepsInv(s: State, steps: seq<Step>, s': State)
    requires Inv(s) && Runs(s, steps, s')
    ensures Inv(s')
    decreases |steps|
  {
    if steps != [] {
      StepKeepsInvIff(s, steps[0]);
      RunKeepsInv(Exec(s, steps[0]).0, steps[1..], s');
    }
  }

  lemma ReachableInv(s: State)
    requires Reachable(s)
    ensures Inv(s)
  {
    var n: nat, steps :| Runs(Boot(n), steps, s);
    assert Inv(Boot(n));
    RunKeepsInv(Boot(n), steps, s);
  }

  /** No lost wakeup, across sends, timeouts, spurious wakes, kills, exits and
      slot reuse: a process Blocked in `receive` is the recorded receiver of an
      open, empty channel; one Blocked in `send` is the recorded sender of an
      open, full one; nothing else is ever Blocked. */
  lemma NoLostWakeup(s: State, i: nat)
    requires Reachable(s) && HasState(s, i, Blocked)
    ensures var call := s.table[i].value.call;
            && !call.NoCall? && call.ch < |s.chans|
            && var c := s.chans[call.ch];
               && !c.closed
               && (InReceiveCall(call) ==> c.recvWaiter == Some(i) && c.queue == [])
               && (call.InSend? ==> c.sendWaiter == Some(i) && |c.queue| == QUEUE_CAP)
  {
    ReachableInv(s);
    assert ProcOk(s, i, s.current);
  }

  /** A channel never has both waiters, a closed one has none, and a waiter
      field never names an empty or Exited slot. */
  lemma WaitersAreLive(s: State, h: nat)
    requires Reachable(s) && h < |s.chans|
    ensures var c := s.chans[h];
            && !(c.recvWaiter.Some? && c.sendWaiter.Some?)
            && (c.closed ==> c.recvWaiter.None? && c.sendWaiter.None?)
            && (c.recvWaiter.Some? ==> Alive(s, c.recvWaiter.value))
            && (c.sendWaiter.Some? ==> Alive(s, c.sendWaiter.value))
  {
    ReachableInv(s);
    assert ChanOkBut(s, h, None);
  }

  /** Exactly-once FIFO: the messages accepted from senders are the messages
      handed to receivers followed by those still queued, and the queue never
      overflows. */
  lemma ExactlyOnceFifo(s: State, h: nat)
    requires Reachable(s) && h < |s.chans|
    ensures s.chans[h].accepted == s.chans[h].delivered + s.chans[h].queue
    ensures |s.chans[h].queue| <= QUEUE_CAP
  {
    ReachableInv(s);
    assert ChanOkBut(s, h, None);
  }

  // What a round of `send` on channel `h` comes to: Ok exactly when the message joined
  // the queue, once; Closed exactly when the channel is; else the sender blocks.
  ghost predicate SendAnswered(s: State, h: nat, msg: Message, t: State, reply: Reply)
    requires h < |s.chans|
  {
    var c := s.chans[h];
    && |t.chans| == |s.chans| && t.chans == s.chans[h := t.chans[h]]
    && (reply == Sent <==> !c.closed && |c.queue| < QUEUE_CAP)
    && (reply == Failed(Closed) <==> c.closed)
    && (reply == Suspended <==> !c.closed && |c.queue| == QUEUE_CAP)
    && t.chans[h].queue == (if reply == Sent then c.queue + [msg] else c.queue)
    && t.chans[h].accepted == (if reply == Sent then c.accepted + [msg] else c.accepted)
    && t.chans[h].delivered == c.delivered && t.chans[h].closed == c.closed
  }

  /** A round of `send` never panics on its push, answers Ok exactly when the
      message joined the queue (once), and blocks only without having queued
      it: the re-read of `send_waiter` is always right. */
  lemma SendAnswersHonestly(s: State, h: nat, msg: Message)
    requires Reachable(s) && OnCpu(s) && h < |s.chans|
    ensures SendAnswered(s, h, msg, SendRound(s, h, msg).0, SendRound(s, h, msg).1)
  {
    ReachableInv(s);
    SendAnswers(s, h, msg);
  }

  lemma SendAnswers(s: State, h: nat, msg: Message)
    requires Inv(s) && OnCpu(s) && h < |s.chans|
    ensures SendAnswered(s, h, msg, SendRound(s, h, msg).0, SendRound(s, h, msg).1)
  {
    assert ChanOkBut(s, h, None) && ProcOk(s, s.current.value, s.current);
    var c := s.chans[h];
    if !c.closed && c.recvWaiter.None? && |c.queue| == QUEUE_CAP {
      var s1 := PutChan(s, h, c.(sendWaiter := s.current));
      var me := s.current.value;
      BlockChanges(Put(s1, me, s1.table[me].value.(call := InSend(h, msg), deadline := s1.table[me].value.deadline)));
    }
  }

  /** At most one slot is Running and it is the one TPIDR names. */
  lemma OneRunning(s: State, i: nat)
    requires Reachable(s) && Occupied(s, i)
    ensures s.table[i].value.state == Running <==> s.current == Some(i)
    ensures OnCpu(s) ==> FindState(s.table, Running, 0) == s.current
  {
    ReachableInv(s);
    assert ProcOk(s, i, s.current);
    if OnCpu(s) { RunningIsCurrent(s); }
  }

  // ----- The limit of one waiter per role -----

  /** The missing test is one look at the waiter slot: the role is taken exactly
      when the recorded waiter is blocked in it. */
  lemma RivalIsRecorded(s: State, h: nat, sending: bool)
    requires Reachable(s) && h < |s.chans|
    ensures var w := if sending then s.chans[h].sendWaiter else s.chans[h].recvWaiter;
            NoRival(s, h, sending) <==> w.None? || !BlockedIn(s, w.value, h, sending)
  {
    ReachableInv(s);
    var w := if sending then s.chans[h].sendWaiter else s.chans[h].recvWaiter;
    if s.current.Some? { assert ProcOk(s, s.current.value, s.current); }
    forall i: nat | BlockedIn(s, i, h, sending) ensures w == Some(i) { assert ProcOk(s, i, s.current); }
  }

  lemma {:induction false} RunsThen(s: State, steps: seq<Step>, s': State, step: Step)
    requires Runs(s, steps, s') && Enabled(s', step) && Safe(s', step)
    ensures Runs(s, steps + [step], Exec(s', step).0)
    decreases |steps|
  {
    if steps == [] {
      assert Runs(Exec(s, step).0, [], Exec(s, step).0);
    } else {
      RunsThen(Exec(s, steps[0]).0, steps[1..], s', step);
      assert (steps + [step])[1..] == steps[1..] + [step];
    }
  }

  lemma Reaches(s: State, step: Step) returns (s': State)
    requires Reachable(s) && Enabled(s, step) && Safe(s, step)
    ensures s' == Exec(s, step).0 && Reachable(s')
  {
    var n: nat, steps :| Runs(Boot(n), steps, s);
    RunsThen(Boot(n), steps, s, step);
    s' := Exec(s, step).0;
  }

  // With nothing else Runnable, the process on CPU blocks and the kernel runs.
  lemma BlocksAlone(s: State, me: nat)
    requires s.current == Some(me) && HasState(s, me, Running) && forall i: nat :: !HasState(s, i, Runnable)
    ensures BlockCurrent(s) == Put(s, me, s.table[me].value.(state := Blocked)).(current := None)
  {
    var d := Demoted(s, Blocked);
    assert forall i: nat :: i != me && HasState(d, i, Runnable) ==> HasState(s, i, Runnable);
    var n := Pick(View(d.table), me, d.cursor);
    if n.Some? { PickIsRunnable(d, me, n.value); }
  }

  lemma Booted() returns (s: State)
    ensures Reachable(s) && s == State([None, None], [NewChannel], 0, None)
  {
    s := Boot(2);
    assert Runs(s, [], s);
    assert s.table == [None, None];
    s := Reaches(s, CreateChan);
  }

  lemma Spawned(s: State) returns (s': State)
    requires Reachable(s) && s == State([None, None], [NewChannel], 0, None)
    ensures Reachable(s') && s' == s.(table := [Some(NewProcess(DEFAULT_PRIORITY)), None])
  {
    s' := Reaches(s, KernelSpawn);
  }

  // Boot with two slots, one channel and one process at the default level on CPU.
  lemma OneProcess() returns (s: State)
    ensures Reachable(s)
    ensures s == State([Some(NewProcess(DEFAULT_PRIORITY).(state := Running)), None], [NewChannel], 0, Some(0))
  {
    s := Booted();
    s := Spawned(s);
    s := Reaches(s, RunAll);
  }

  // With the first process Blocked, a second one is spawned and put on CPU.
  lemma SecondProcess(s: State) returns (s': State)
    requires Reachable(s) && s.current.None? && |s.table| == 2 && HasState(s, 0, Blocked) && s.table[1].None?
    ensures Reachable(s')
    ensures s' == s.(table := [s.table[0], Some(NewProcess(DEFAULT_PRIORITY).(state := Running))], current := Some(1))
  {
    assert FindFree(s.table, 0) == Some(1);
    s' := Reaches(s, KernelSpawn);
    assert s'.table[1].value.state == Runnable && s'.table[0] == s.table[0];
    assert FindState(s'.table, Runnable, 0) == Some(1);
    s' := Reaches(s', RunAll);
  }

  // The ninth message blocks its sender.
  lemma BlocksWhenFull(s: State, msg: Message) returns (s': State)
    requires Reachable(s) && s.current == Some(0) && |s.table| == 2 && s.table[1].None? && |s.chans| == 1
    requires s.table[0] == Some(NewProcess(DEFAULT_PRIORITY).(state := Running))
    requires s.chans[0].recvWaiter.None? && !s.chans[0].closed && |s.chans[0].queue| == QUEUE_CAP
    ensures Reachable(s') && s'.current.None? && |s'.table| == 2 && BlockedIn(s', 0, 0, true) && s'.table[1].None?
    ensures s'.chans == [s.chans[0].(sendWaiter := Some(0))]
  {
    var s1 := PutChan(s, 0, s.chans[0].(sendWaiter := Some(0)));
    BlocksAlone(Put(s1, 0, s1.table[0].value.(call := InSend(0, msg))), 0);
    s' := Reaches(s, SysSend(0, msg));
  }

  // The process blocks in `receive` on an empty channel.
  lemma BlocksWhenEmpty(s: State) returns (s': State)
    requires Reachable(s)
    requires s == State([Some(NewProcess(DEFAULT_PRIORITY).(state := Running)), None], [NewChannel], 0, Some(0))
    ensures Reachable(s')
    ensures s' == State([Some(NewProcess(DEFAULT_PRIORITY).(state := Blocked, call := InReceive(0))), None],
                        [NewChannel.(recvWaiter := Some(0))], 0, None)
  {
    var s1 := PutChan(Unboost(s, 0), 0, s.chans[0].(recvWaiter := Some(0)));
    BlocksAlone(Put(s1, 0, s1.table[0].value.(call := InReceive(0))), 0);
    s' := Reaches(s, SysReceive(0));
  }

  lemma {:induction false} Fills(s: State, k: nat, msg: Message) returns (s': State)
    requires Reachable(s) && k <= QUEUE_CAP
    requires s == State([Some(NewProcess(DEFAULT_PRIORITY).(state := Running)), None], [NewChannel], 0, Some(0))
    ensures Reachable(s')
    ensures s' == s.(chans := [NewChannel.(queue := Repeat(msg, k), accepted := Repeat(msg, k))])
  {
    s' := s;
    if k > 0 {
      s' := Fills(s, k - 1, msg);
      s' := Reaches(s', SysSend(0, msg));
    }
  }

  function Repeat(msg: Message, k: nat): (q: seq<Message>)
    ensures |q| == k
  {
    if k == 0 then [] else Repeat(msg, k - 1) + [msg]
  }

  /** Boot, fill a channel and send once more: the sender blocks.  A second
      process that sends overwrites its waiter slot: the first stays Blocked with
      nothing left to wake it. */
  lemma SecondSenderStrandsFirst() returns (s: State, msg: Message)
    ensures Reachable(s) && Enabled(s, SysSend(0, msg)) && BlockedIn(s, 0, 0, true) && s.current == Some(1)
    ensures !RoleIsFree(s, SysSend(0, msg))
    ensures var t := Exec(s, SysSend(0, msg)).0;
            && BlockedIn(t, 0, 0, true) && |t.chans| == 1
            && t.chans[0].recvWaiter.None? && t.chans[0].sendWaiter == Some(1)
  {
    msg := Message(1, 0, []);
    s := OneProcess();
    s := Fills(s, QUEUE_CAP, msg);
    s := BlocksWhenFull(s, msg);
    s := SecondProcess(s);
    var s2 := PutChan(s, 0, s.chans[0].(sendWaiter := Some(1)));
    BlockChanges(Put(s2, 1, s2.table[1].value.(call := InSend(0, msg))));
  }

  /** A process that kills itself goes on running: its next exit or fault panics, and as
      long as no earlier slot is free its next spawn claims the slot it runs in. */
  lemma SelfKillGoesOn(s: State, pid: nat)
    requires Reachable(s) && Enabled(s, SysKill(pid)) && s.current == Some(pid)
    ensures var t := Exec(s, SysKill(pid)).0;
            && OnCpu(t) && t.current == Some(pid) && HasState(t, pid, Exited) && Enabled(t, SysExit(0))
            && Exec(t, SysExit(0)).1 == Panicked && Exec(t, SysFault).1 == Panicked
            && (FindFree(s.table, 0).None? || pid < FindFree(s.table, 0).value ==>
                Install(t, DEFAULT_PRIORITY).1 == Some(pid))
  {
    ReachableInv(s);
    SelfKillBreaks(s, pid);
    assert ProcOk(s, pid, s.current);
    BuryKeepsCall(s, pid, KILL_STATUS);
    BuryKeepsShape(s, pid, KILL_STATUS);
    NobodyRuns(s, pid);
    var t := Exec(s, SysKill(pid)).0;
    if FindFree(s.table, 0).None? || pid < FindFree(s.table, 0).value { OwnSlotIsFree(s, t, pid, 0); }
  }

  /** One process, from boot: it kills itself, exits or faults, and the kernel panics. */
  lemma SelfKillPanics() returns (s: State)
    ensures Reachable(s) && Enabled(s, SysKill(0)) && s.current == Some(0)
    ensures var t := Exec(s, SysKill(0)).0;
            Enabled(t, SysExit(0)) && Exec(t, SysExit(0)).1 == Panicked && Exec(t, SysFault).1 == Panicked
  {
    s := OneProcess();
    SelfKillGoesOn(s, 0);
  }

  lemma BuryKeepsCall(s: State, id: nat, status: nat)
    requires Occupied(s, id)
    ensures Occupied(Bury(s, id, status), id) && Bury(s, id, status).table[id].value.call == s.table[id].value.call
  {
    CloseAllOnlyWakes(Put(s, id, s.table[id].value.(state := Exited, exitStatus := status)), id, 0);
  }

  lemma NobodyRuns(s: State, pid: nat)
    requires Inv(s) && s.current == Some(pid) && Alive(s, pid)
    ensures FindState(Bury(s, pid, KILL_STATUS).table, Running, 0).None?
  {
    var dead := Put(s, pid, s.table[pid].value.(state := Exited, exitStatus := KILL_STATUS));
    var t := Bury(s, pid, KILL_STATUS);
    CloseAllOnlyWakes(dead, pid, 0);
    forall i: nat | i < |t.table| && t.table[i].Some?
      ensures t.table[i].value.state != Running
    {
      assert ProcOk(s, i, s.current);
    }
  }

  // Of the slots from `i` on, the one just buried is the first free one.
  lemma {:induction false} OwnSlotIsFree(s: State, t: State, pid: nat, i: nat)
    requires Alive(s, pid) && t == Bury(s, pid, KILL_STATUS) && i <= pid && HasState(t, pid, Exited)
    requires |t.table| == |s.table|
    requires FindFree(s.table, i).None? || pid < FindFree(s.table, i).value
    ensures FindFree(t.table, i) == Some(pid)
    decreases pid - i
  {
    CloseAllOnlyWakes(Put(s, pid, s.table[pid].value.(state := Exited, exitStatus := KILL_STATUS)), pid, 0);
    if i < pid { OwnSlotIsFree(s, t, pid, i + 1); }
  }

  // ----- Channels closed on death -----

  // `step` ends process `id`: its own exit or fault, or a kill.
  ghost predicate Ends(s: State, step: Step, id: nat) {
    && Enabled(s, step)
    && (((step.SysExit? || step.SysFault?) && s.current == Some(id)) || (step == SysKill(id) && Alive(s, id)))
  }

  // The channel after the death of `id`.
  function Bereaved(c: Channel, id: nat): Channel {
    if BlockedOn(c, id) then c.(closed := true, recvWaiter := None, sendWaiter := None) else c
  }

  lemma {:induction false} CloseAllChans(s: State, id: nat, from: nat, h: nat)
    requires from <= |s.chans| && h < |s.chans|
    ensures |CloseAllFrom(s, id, from).chans| == |s.chans|
    ensures CloseAllFrom(s, id, from).chans[h] == if h < from then s.chans[h] else Bereaved(s.chans[h], id)
    decreases |s.chans| - from
  {
    if from < |s.chans| { CloseAllChans(if BlockedOn(s.chans[from], id) then Close(s, from) else s, id, from + 1, h); }
  }

  lemma DeathCloses(s: State, step: Step, id: nat, h: nat)
    requires Reachable(s) && Ends(s, step, id) && h < |s.chans|
    ensures var t := Exec(s, step).0; |t.chans| == |s.chans| && t.chans[h] == Bereaved(s.chans[h], id)
  {
    ReachableInv(s);
    if s.current.Some? { RunningIsCurrent(s); }
    var status := if step.SysExit? then step.status else if step.SysFault? then FAULT_STATUS else KILL_STATUS;
    BuryKeepsShape(s, id, status);
    CloseAllChans(Put(s, id, s.table[id].value.(state := Exited, exitStatus := status)), id, 0, h);
  }

  /** A death closes exactly the open channels with a waiter slot that names the dead
      process, and leaves every channel alone exactly when no slot does. */
  lemma DeathClosesIff(s: State, step: Step, id: nat)
    requires Reachable(s) && Ends(s, step, id)
    ensures var t := Exec(s, step).0;
            && |t.chans| == |s.chans|
            && (forall h: nat :: h < |s.chans| ==>
                (t.chans[h].closed <==> s.chans[h].closed || BlockedOn(s.chans[h], id)))
            && (t.chans == s.chans <==> forall h: nat :: h < |s.chans| ==> !BlockedOn(s.chans[h], id))
  {
    var t := Exec(s, step).0;
    if s.chans != [] { DeathCloses(s, step, id, 0); }
    forall h: nat | h < |s.chans| ensures |t.chans| == |s.chans| && t.chans[h] == Bereaved(s.chans[h], id) {
      DeathCloses(s, step, id, h);
    }
  }

  // The process waits in `receive_at` for a moment that is yet to come.
  lemma BlocksUntil(s: State, until: nat) returns (s': State)
    requires Reachable(s) && until > 0
    requires s == State([Some(NewProcess(DEFAULT_PRIORITY).(state := Running)), None], [NewChannel], 0, Some(0))
    ensures Reachable(s')
    ensures var p := NewProcess(DEFAULT_PRIORITY);
            s' == State([Some(p.(state := Blocked, call := InReceiveAt(0, until), deadline := Some(until))), None],
                        [NewChannel.(recvWaiter := Some(0))], 0, None)
  {
    var s1 := PutChan(Unboost(s, 0), 0, s.chans[0].(recvWaiter := Some(0)));
    BlocksAlone(Put(s1, 0, s1.table[0].value.(call := InReceiveAt(0, until), deadline := Some(until))), 0);
    s' := Reaches(s, SysReceiveAt(0, until, 0));
  }

  // The tick ends the wait, and the process finds that its time is up.
  lemma TimesOut(s: State, until: nat) returns (s': State)
    requires Reachable(s) && until > 0
    requires var p := NewProcess(DEFAULT_PRIORITY);
             s == State([Some(p.(state := Blocked, call := InReceiveAt(0, until), deadline := Some(until))), None],
                        [NewChannel.(recvWaiter := Some(0))], 0, None)
    ensures Reachable(s')
    ensures s' == State([Some(NewProcess(DEFAULT_PRIORITY).(state := Running)), None],
                        [NewChannel.(recvWaiter := Some(0))], 0, Some(0))
  {
    s' := Reaches(s, Tick(until));
    assert s'.table == [Some(s.table[0].value.(state := Runnable, deadline := None)), None];
    s' := Reaches(s', RunAll);
    s' := Reaches(s', Retry(until));
  }

  /** From boot, a process waits in `receive_at` and times out: it runs on, blocked on
      nothing, with its name still in the waiter slot.  Its exit closes the channel. */
  lemma TimeoutExitCloses() returns (s: State)
    ensures Reachable(s) && s.current == Some(0) && HasState(s, 0, Running) && s.table[0].value.call.NoCall?
    ensures Enabled(s, SysExit(0)) && |s.chans| == 1 && !s.chans[0].closed
    ensures |Exec(s, SysExit(0)).0.chans| == 1 && Exec(s, SysExit(0)).0.chans[0].closed
  {
    s := OneProcess();
    s := BlocksUntil(s, 5);
    s := TimesOut(s, 5);
    assert BlockedOn(s.chans[0], 0);
    DeathClosesIff(s, SysExit(0), 0);
  }

  // ----- Exited slots -----

  ghost predicate KeepsExited(s: State, t: State) {
    |t.table| == |s.table| &&
    forall i: nat {:trigger HasState(s, i, Exited)} :: HasState(s, i, Exited) ==>
      HasState(t, i, Exited) && t.table[i].value.exitStatus == s.table[i].value.exitStatus
  }

  lemma SwitchKeepsExited(s: State, demoteTo: ProcState)
    requires s.current.Some? ==> OnCpu(s)
    ensures KeepsExited(s, SwitchOut(s, demoteTo).0)
  {
    if s.current.Some? { SwitchChanges(s, demoteTo); }
  }

  lemma BuryKeepsExited(s: State, id: nat, status: nat)
    requires Alive(s, id)
    ensures KeepsExited(s, Bury(s, id, status))
  {
    CloseAllOnlyWakes(Put(s, id, s.table[id].value.(state := Exited, exitStatus := status)), id, 0);
  }

  lemma DieKeepsExited(s: State, status: nat)
    requires Inv(s) && OnCpu(s)
    ensures KeepsExited(s, Die(s, s.current.value, status))
  {
    var c := s.current.value;
    assert ProcOk(s, c, s.current);
    BuryKeepsExited(s, c, status);
    BuryKeepsShape(s, c, status);
    SwitchKeepsExited(Bury(s, c, status), Runnable);
  }

  lemma SendKeepsExited(s: State, h: nat, msg: Message)
    requires Inv(s) && OnCpu(s) && h < |s.chans|
    ensures KeepsExited(s, SendRound(s, h, msg).0)
  {
    var c := s.chans[h];
    var me := s.current.value;
    assert ChanOkBut(s, h, None) && ProcOk(s, me, s.current);
    if !c.closed && c.recvWaiter.None? && |c.queue| == QUEUE_CAP {
      var s1 := PutChan(s, h, c.(sendWaiter := s.current));
      var p := s.table[me].value;
      var s2 := Put(s1, me, p.(call := InSend(h, msg), deadline := p.deadline));
      assert KeepsExited(s, s2);
      SwitchKeepsExited(s2, Blocked);
    }
  }

  lemma ReceiveKeepsExited(s: State, h: nat, until: Option<nat>, now: nat)
    requires Inv(s) && OnCpu(s) && h < |s.chans|
    ensures KeepsExited(s, ReceiveRound(s, h, until, now).0)
  {
    var c := s.chans[h];
    var me := s.current.value;
    assert ProcOk(s, me, s.current);
    if !c.closed && c.queue == [] && !(until.Some? && until.value <= now) {
      var s1 := PutChan(Unboost(s, me), h, c.(recvWaiter := s.current));
      var p := s1.table[me].value;
      var call := if until.Some? then InReceiveAt(h, until.value) else InReceive(h);
      var s2 := Put(s1, me, p.(call := call, deadline := if until.Some? then until else p.deadline));
      assert KeepsExited(s, s2);
      SwitchKeepsExited(s2, Blocked);
    }
  }

  lemma CallKeepsExited(s: State, call: Call, now: nat)
    requires Inv(s) && OnCpu(s) && !call.NoCall? && call.ch < |s.chans|
    ensures KeepsExited(s, ExecRetry(s, call, now).0)
  {
    match call
    case InSend(h, msg) => SendKeepsExited(s, h, msg);
    case InReceive(h) => ReceiveKeepsExited(s, h, None, now);
    case InReceiveAt(h, until) => ReceiveKeepsExited(s, h, Some(until), now);
  }

  // The steps that run a send or receive.
  predicate IsCall(step: Step) {
    step.SysSend? || step.SysReply? || step.SysReceive? || step.SysReceiveAt? || step.Retry?
  }

  lemma StepKeepsExited(s: State, step: Step)
    requires Inv(s) && Enabled(s, step) && !step.SysWait? && !step.SysSpawn? && !step.KernelSpawn?
    ensures KeepsExited(s, Exec(s, step).0)
  {
    if IsCall(step) { StepKeepsExitedInCall(s, step); } else { StepKeepsExitedElse(s, step); }
  }

  lemma StepKeepsExitedInCall(s: State, step: Step)
    requires Inv(s) && Enabled(s, step) && !step.SysWait? && !step.SysSpawn? && !step.KernelSpawn? && IsCall(step)
    ensures KeepsExited(s, Exec(s, step).0)
  {
    match step {
      case SysSend(h, msg) => if h < |s.chans| { CallKeepsExited(s, InSend(h, msg), 0); }
      case SysReply(h, tag, msg) => if h < |s.chans| && msg.tag == tag { CallKeepsExited(s, InSend(h, msg), 0); }
      case SysReceive(h) => if h < |s.chans| { CallKeepsExited(s, InReceive(h), 0); }
      case SysReceiveAt(h, until, now) => if h < |s.chans| { CallKeepsExited(s, InReceiveAt(h, until), now); }
      case Retry(now) => CallKeepsExited(s, s.table[s.current.value].value.call, now);
    }
  }

  lemma TickKeepsExited(s: State, now: nat)
    requires Inv(s)
    ensures KeepsExited(s, Exec(s, Tick(now)).0)
  {
    if s.current.Some? { RunningIsCurrent(s); }
    var t := s.(table := CheckDeadlines(s.table, now));
    assert KeepsExited(s, t);
    SwitchKeepsExited(t, Runnable);
  }

  lemma StepKeepsExitedElse(s: State, step: Step)
    requires Inv(s) && Enabled(s, step) && !step.SysWait? && !step.SysSpawn? && !step.KernelSpawn? && !IsCall(step)
    ensures KeepsExited(s, Exec(s, step).0)
  {
    match step {
      case SysYield => SwitchKeepsExited(s, Runnable);
      case SysExit(status) => RunningIsCurrent(s); DieKeepsExited(s, status);
      case SysFault => RunningIsCurrent(s); DieKeepsExited(s, FAULT_STATUS);
      case SysKill(pid) => if Alive(s, pid) { BuryKeepsExited(s, pid, KILL_STATUS); }
      case Tick(now) => TickKeepsExited(s, now);
      case _ =>
    }
  }

  /** An Exited slot keeps its state and status through every step until
      `sys_wait` frees it or a spawn claims it for a new process. */
  lemma ExitedIsFinal(s: State, step: Step, i: nat)
    requires Reachable(s) && Enabled(s, step) && HasState(s, i, Exited)
    ensures var t := Exec(s, step).0;
            && i < |t.table|
            && (|| (HasState(t, i, Exited) && t.table[i].value.exitStatus == s.table[i].value.exitStatus)
                || (step.SysWait? && t.table[i].None?)
                || (step.SysSpawn? && step.prio < IDLE && t.table[i] == Some(NewProcess(step.prio)))
                || (step.KernelSpawn? && t.table[i] == Some(NewProcess(DEFAULT_PRIORITY))))
  {
    ReachableInv(s);
    if !step.SysWait? && !step.SysSpawn? && !step.KernelSpawn? { StepKeepsExited(s, step); }
  }

  // ----- Priorities -----

  /** Effective priority is never less urgent than base, in any run. */
  lemma NeverBelowBase(s: State, i: nat)
    requires Reachable(s) && Occupied(s, i)
    ensures s.table[i].value.prio.effective <= s.table[i].value.prio.base
  {
    ReachableInv(s);
    assert ProcOk(s, i, s.current);
  }

  // A process Blocked in a receive sits exactly at its base.
  predicate AtBase(slot: Option<Process>) {
    slot.Some? && slot.value.state == Blocked && InReceiveCall(slot.value.call) ==>
      slot.value.prio.effective == slot.value.prio.base
  }

  ghost predicate AllAtBase(s: State) {
    forall i: nat {:trigger s.table[i]} :: i < |s.table| ==> AtBase(s.table[i])
  }

  lemma SwitchKeepsAtBase(s: State, demoteTo: ProcState)
    requires s.current.Some? ==> OnCpu(s)
    requires AllAtBase(s)
    requires demoteTo == Blocked && s.current.Some? ==>
      var p := s.table[s.current.value].value; InReceiveCall(p.call) ==> p.prio.effective == p.prio.base
    requires demoteTo == Blocked || demoteTo == Runnable
    ensures AllAtBase(SwitchOut(s, demoteTo).0)
  {
    if s.current.Some? {
      SwitchChanges(s, demoteTo);
      var t := SwitchOut(s, demoteTo).0;
      forall i: nat | i < |t.table| ensures AtBase(t.table[i]) { assert AtBase(s.table[i]); }
    }
  }

  lemma CloseAllKeepsAtBase(s: State, id: nat, h: nat)
    requires h <= |s.chans| && AllAtBase(s)
    ensures AllAtBase(CloseAllFrom(s, id, h))
  {
    CloseAllOnlyWakes(s, id, h);
    var t := CloseAllFrom(s, id, h);
    forall i: nat | i < |t.table| ensures AtBase(t.table[i]) { assert AtBase(s.table[i]); }
  }

  lemma DieKeepsAtBase(s: State, id: nat, status: nat)
    requires OnCpu(s) && Occupied(s, id) && AllAtBase(s)
    ensures AllAtBase(Die(s, id, status)) && AllAtBase(Bury(s, id, status))
  {
    var t := Put(s, id, s.table[id].value.(state := Exited, exitStatus := status));
    CloseAllKeepsAtBase(t, id, 0);
    BuryKeepsShape(s, id, status);
    SwitchKeepsAtBase(Bury(s, id, status), Runnable);
  }

  lemma SendKeepsAtBase(s: State, h: nat, msg: Message)
    requires Inv(s) && OnCpu(s) && h < |s.chans| && AllAtBase(s)
    ensures AllAtBase(SendRound(s, h, msg).0)
  {
    var c := s.chans[h];
    var me := s.current.value;
    assert ChanOkBut(s, h, None) && ProcOk(s, me, s.current);
    if !c.closed && c.recvWaiter.None? && |c.queue| == QUEUE_CAP {
      var s1 := PutChan(s, h, c.(sendWaiter := s.current));
      var p := s.table[me].value;
      var s2 := Put(s1, me, p.(call := InSend(h, msg), deadline := p.deadline));
      assert AllAtBase(s2);
      SwitchKeepsAtBase(s2, Blocked);
    }
  }

  lemma ReceiveKeepsAtBase(s: State, h: nat, until: Option<nat>, now: nat)
    requires Inv(s) && OnCpu(s) && h < |s.chans| && AllAtBase(s)
    ensures AllAtBase(ReceiveRound(s, h, until, now).0)
  {
    var c := s.chans[h];
    var me := s.current.value;
    assert ProcOk(s, me, s.current);
    if !c.closed && c.queue == [] && !(until.Some? && until.value <= now) {
      var s1 := PutChan(Unboost(s, me), h, c.(recvWaiter := s.current));
      var p := s1.table[me].value;
      var call := if until.Some? then InReceiveAt(h, until.value) else InReceive(h);
      var s2 := Put(s1, me, p.(call := call, deadline := if until.Some? then until else p.deadline));
      assert AllAtBase(s2);
      SwitchKeepsAtBase(s2, Blocked);
    }
  }

  predicate SetsPriority(step: Step) {
    step.SysSetPrio? || step.KernelSetPriority?
  }

  lemma CallKeepsAtBase(s: State, call: Call, now: nat)
    requires Inv(s) && OnCpu(s) && !call.NoCall? && call.ch < |s.chans| && AllAtBase(s)
    ensures AllAtBase(ExecRetry(s, call, now).0)
  {
    match call
    case InSend(h, msg) => SendKeepsAtBase(s, h, msg);
    case InReceive(h) => ReceiveKeepsAtBase(s, h, None, now);
    case InReceiveAt(h, until) => ReceiveKeepsAtBase(s, h, Some(until), now);
  }

  lemma StepKeepsAtBase(s: State, step: Step)
    requires Inv(s) && Enabled(s, step) && AllAtBase(s) && !SetsPriority(step)
    ensures AllAtBase(Exec(s, step).0)
  {
    if IsCall(step) { StepKeepsAtBaseInCall(s, step); } else { StepKeepsAtBaseElse(s, step); }
  }

  lemma StepKeepsAtBaseInCall(s: State, step: Step)
    requires Inv(s) && Enabled(s, step) && AllAtBase(s) && !SetsPriority(step) && IsCall(step)
    ensures AllAtBase(Exec(s, step).0)
  {
    match step {
      case SysSend(h, msg) => if h < |s.chans| { CallKeepsAtBase(s, InSend(h, msg), 0); }
      case SysReply(h, tag, msg) => if h < |s.chans| && msg.tag == tag { CallKeepsAtBase(s, InSend(h, msg), 0); }
      case SysReceive(h) => if h < |s.chans| { CallKeepsAtBase(s, InReceive(h), 0); }
      case SysReceiveAt(h, until, now) => if h < |s.chans| { CallKeepsAtBase(s, InReceiveAt(h, until), now); }
      case Retry(now) => CallKeepsAtBase(s, s.table[s.current.value].value.call, now);
    }
  }

  lemma StepKeepsAtBaseElse(s: State, step: Step)
    requires Inv(s) && Enabled(s, step) && AllAtBase(s) && !SetsPriority(step) && !IsCall(step)
    ensures AllAtBase(Exec(s, step).0)
  {
    match step {
      case SysYield => SwitchKeepsAtBase(s, Runnable);
      case SysExit(status) => RunningIsCurrent(s); DieKeepsAtBase(s, s.current.value, status);
      case SysFault => RunningIsCurrent(s); DieKeepsAtBase(s, s.current.value, FAULT_STATUS);
      case SysKill(pid) => if Alive(s, pid) { DieKeepsAtBase(s, pid, KILL_STATUS); }
      case Tick(now) =>
        var t := s.(table := CheckDeadlines(s.table, now));
        forall i: nat | i < |t.table| ensures AtBase(t.table[i]) { assert AtBase(s.table[i]); }
        SwitchKeepsAtBase(t, Runnable);
      case _ =>
    }
  }

  lemma {:induction false} RunKeepsAtBase(s: State, steps: seq<Step>, s': State)
    requires Inv(s) && AllAtBase(s) && Runs(s, steps, s')
    requires forall k :: 0 <= k < |steps| ==> !SetsPriority(steps[k])
    ensures Inv(s') && AllAtBase(s')
    decreases |steps|
  {
    if steps != [] {
      StepKeepsInvIff(s, steps[0]);
      StepKeepsAtBase(s, steps[0]);
      RunKeepsAtBase(Exec(s, steps[0]).0, steps[1..], s');
    }
  }

  // The process on CPU sends on `h`, whose recorded receiver `r` is Blocked.
  ghost predicate SendWakes(s: State, h: nat, r: nat) {
    OnCpu(s) && h < |s.chans| && s.chans[h].recvWaiter == Some(r) && HasState(s, r, Blocked)
  }

  /** Priority inheritance, in every run: a send that wakes a Blocked receiver
      leaves it at least as urgent as the sender if and only if the receiver was
      not marked boosted before, or was that urgent already. */
  lemma SendInheritsPriorityIff(s: State, h: nat, msg: Message, r: nat)
    requires Reachable(s) && SendWakes(s, h, r)
    ensures var t := SendRound(s, h, msg).0; var sender := s.table[s.current.value].value.prio.effective;
            && HasState(t, r, Runnable)
            && (t.table[r].value.prio.effective <= sender
                <==> !s.table[r].value.prio.IsBoosted() || s.table[r].value.prio.effective <= sender)
            && t.table[r].value.prio.base == s.table[r].value.prio.base
            && (t.table[r].value.prio.effective == s.table[r].value.prio.effective
                || (t.table[r].value.prio.effective == sender < s.table[r].value.prio.effective))
  {
    ReachableInv(s);
    assert ChanOkBut(s, h, None) && ProcOk(s, s.current.value, s.current) && ProcOk(s, r, s.current);
  }

  /** In a run that never sets a priority, a process Blocked in `receive` sits
      exactly at its base, so the sender's priority is always inherited. */
  lemma SendInheritsPriority(n: nat, steps: seq<Step>, s: State, h: nat, msg: Message, r: nat)
    requires Runs(Boot(n), steps, s) && (forall k :: 0 <= k < |steps| ==> !SetsPriority(steps[k]))
    requires SendWakes(s, h, r) && InReceiveCall(s.table[r].value.call)
    ensures !s.table[r].value.prio.IsBoosted()
    ensures var t := SendRound(s, h, msg).0;
            HasState(t, r, Runnable) && t.table[r].value.prio.effective <= s.table[s.current.value].value.prio.effective
  {
    assert Inv(Boot(n));
    RunKeepsAtBase(Boot(n), steps, s);
    assert AtBase(s.table[r]);
    SendInheritsPriorityIff(s, h, msg, r);
  }

  /** Giving a Blocked receiver a less urgent base marks it boosted: it waits at
      level 128 and a sender at level 50 then leaves it there. */
  lemma SetPriorityStopsInheritance() returns (s: State, msg: Message)
    ensures Reachable(s) && SendWakes(s, 0, 0) && s.current == Some(1)
    ensures s.table[0].value.prio == PriorityState(200, 128) && s.table[1].Some?
    ensures s.table[1].value.prio == PriorityState(50, 50)
    ensures var t := SendRound(s, 0, msg).0; HasState(t, 0, Runnable) && t.table[0].value.prio.effective == 128
  {
    msg := Message(1, 0, []);
    s := OneProcess();
    s := BlocksWhenEmpty(s);
    s := Reaches(s, KernelSetPriority(0, 200));
    s := SecondProcess(s);
    s := Reaches(s, KernelSetPriority(1, 50));
  }

  /** `sys_setprio` tests its whole argument against the idle level and stores its
      low byte: an accepted call installs the idle level exactly when the low byte
      is 255, so for 511 and every 256 from there on. */
  lemma SetPrioInstallsIdleIff(s: State, pid: nat, prio: nat, i: nat)
    requires Enabled(s, SysSetPrio(pid, prio)) && i == (if pid == SELF then s.current.value else pid)
    ensures var (t, reply) := Exec(s, SysSetPrio(pid, prio));
            && (reply == Value(0) <==> Occupied(s, i) && prio != IDLE)
            && (reply == Value(0) ==>
                  && Occupied(t, i) && t == s.(table := s.table[i := t.table[i]])
                  && t.table[i].value == s.table[i].value.(prio := t.table[i].value.prio)
                  && t.table[i].value.prio.base == prio % 256
                  && (t.table[i].value.prio.base == IDLE <==> prio % 256 == IDLE))
            && (reply != Value(0) ==> t == s)
  {
  }

  /** The idle level is installed by the argument 511. */
  lemma IdleLevelInstalled() returns (s: State)
    ensures Reachable(s) && Enabled(s, SysSetPrio(SELF, 511)) && OnCpu(s)
    ensures var (t, reply) := Exec(s, SysSetPrio(SELF, 511));
            reply == Value(0) && OnCpu(t) && t.table[t.current.value].value.prio.base == IDLE
  {
    s := OneProcess();
  }
}
