/** Who is woken by what, in every run (port/src/ipc.rs, aarch64/src/process.rs). */
module IpcWakeups {
  import opened Prelude
  import opened Scheduler
  import opened Ipc
  import opened IpcInvariant
  import opened IpcTheorems

  // A waiter slot of channel `h` that named process `i` is empty afterwards.
  predicate TakenAt(s: State, t: State, h: nat, i: nat) {
    && h < |s.chans| && h < |t.chans|
    && (|| (s.chans[h].recvWaiter == Some(i) && t.chans[h].recvWaiter.None?)
        || (s.chans[h].sendWaiter == Some(i) && t.chans[h].sendWaiter.None?))
  }

  ghost predicate Taken(s: State, t: State, i: nat) {
    exists h: nat :: TakenAt(s, t, h, i)
  }

  // Process `i`, Blocked before, is still so exactly when no waiter slot gave it up.
  ghost predicate WokenByChannel(s: State, t: State, i: nat) {
    HasState(t, i, Blocked) <==> !Taken(s, t, i)
  }

  // One channel changes, and of the Blocked processes those its slots give up.
  lemma OneChannel(s: State, t: State, h: nat, i: nat)
    requires h < |s.chans| && |t.chans| == |s.chans| && t.chans == s.chans[h := t.chans[h]]
    requires HasState(t, i, Blocked) <==> !TakenAt(s, t, h, i)
    ensures WokenByChannel(s, t, i)
  {
    forall k: nat ensures TakenAt(s, t, k, i) ==> k == h {}
  }

  lemma SendWakes(s: State, h: nat, msg: Message, i: nat)
    requires Inv(s) && OnCpu(s) && h < |s.chans| && HasState(s, i, Blocked)
    ensures WokenByChannel(s, SendRound(s, h, msg).0, i)
  {
    var c, me := s.chans[h], s.current.value;
    assert ChanOkBut(s, h, None) && ProcOk(s, me, s.current) && ProcOk(s, i, s.current);
    if !c.closed && c.recvWaiter.None? && |c.queue| == QUEUE_CAP {
      var s1 := PutChan(s, h, c.(sendWaiter := s.current));
      BlockChanges(Put(s1, me, s1.table[me].value.(call := InSend(h, msg), deadline := s1.table[me].value.deadline)));
    }
    OneChannel(s, SendRound(s, h, msg).0, h, i);
  }

  // A process that waits changes its own slot and a Runnable one.
  lemma SuspendWakesNobody(s: State, call: Call, deadline: Option<nat>, i: nat)
    requires OnCpu(s) && HasState(s, s.current.value, Running) && HasState(s, i, Blocked)
    ensures var t := SuspendIn(s, call, deadline); HasState(t, i, Blocked) && t.chans == s.chans
  {
    var me := s.current.value;
    var p := s.table[me].value;
    BlockChanges(Put(s, me, p.(call := call, deadline := if deadline.Some? then deadline else p.deadline)));
  }

  lemma ReceiveWaits(s: State, h: nat, until: Option<nat>, now: nat, i: nat)
    requires Inv(s) && OnCpu(s) && h < |s.chans| && HasState(s, i, Blocked)
    requires !s.chans[h].closed && s.chans[h].queue == [] && (until.None? || now < until.value)
    ensures WokenByChannel(s, ReceiveRound(s, h, until, now).0, i)
  {
    var me := s.current.value;
    assert ChanOkBut(s, h, None) && ProcOk(s, me, s.current) && ProcOk(s, i, s.current);
    var s1 := PutChan(Unboost(s, me), h, s.chans[h].(recvWaiter := s.current));
    SuspendWakesNobody(s1, if until.Some? then InReceiveAt(h, until.value) else InReceive(h), until, i);
    OneChannel(s, ReceiveRound(s, h, until, now).0, h, i);
  }

  lemma ReceiveWakes(s: State, h: nat, until: Option<nat>, now: nat, i: nat)
    requires Inv(s) && OnCpu(s) && h < |s.chans| && HasState(s, i, Blocked)
    ensures WokenByChannel(s, ReceiveRound(s, h, until, now).0, i)
  {
    var c := s.chans[h];
    if !c.closed && c.queue == [] && (until.None? || now < until.value) {
      ReceiveWaits(s, h, until, now, i);
    } else {
      assert ChanOkBut(s, h, None) && ProcOk(s, s.current.value, s.current) && ProcOk(s, i, s.current);
      OneChannel(s, ReceiveRound(s, h, until, now).0, h, i);
    }
  }

  lemma CallWakes(s: State, call: Call, now: nat, i: nat)
    requires Inv(s) && OnCpu(s) && !call.NoCall? && call.ch < |s.chans| && HasState(s, i, Blocked)
    ensures WokenByChannel(s, ExecRetry(s, call, now).0, i)
  {
    match call
    case InSend(h, msg) => SendWakes(s, h, msg, i);
    case InReceive(h) => ReceiveWakes(s, h, None, now, i);
    case InReceiveAt(h, until) => ReceiveWakes(s, h, Some(until), now, i);
  }

  // ----- Closing -----

  predicate BothAt(s: State, h: nat, id: nat, i: nat) {
    h < |s.chans| && BlockedOn(s.chans[h], id) && BlockedOn(s.chans[h], i)
  }

  // Some channel from `from` on names both processes.
  ghost predicate Both(s: State, from: nat, id: nat, i: nat) {
    exists h: nat :: from <= h && BothAt(s, h, id, i)
  }

  lemma {:induction false} CloseAllWakes(s: State, id: nat, from: nat, i: nat)
    requires from <= |s.chans| && i < |s.table|
    ensures |CloseAllFrom(s, id, from).table| == |s.table|
    ensures CloseAllFrom(s, id, from).table[i] == if Both(s, from, id, i) then Woken(s.table[i]) else s.table[i]
    decreases |s.chans| - from
  {
    if from < |s.chans| {
      var closes := BlockedOn(s.chans[from], id);
      var s1 := if closes then Close(s, from) else s;
      if closes {
        var c := s.chans[from];
        WakesOnly(PutChan(s, from, c.(closed := true, recvWaiter := None, sendWaiter := None)), c.recvWaiter,
                  c.sendWaiter);
      }
      CloseAllWakes(s1, id, from + 1, i);
      forall h: nat | from < h ensures BothAt(s1, h, id, i) <==> BothAt(s, h, id, i) {}
      BothSplits(s, s1, from, id, i);
    }
  }

  lemma BothSplits(s: State, s1: State, from: nat, id: nat, i: nat)
    requires forall h: nat :: from < h ==> (BothAt(s1, h, id, i) <==> BothAt(s, h, id, i))
    ensures Both(s, from, id, i) <==> BothAt(s, from, id, i) || Both(s1, from + 1, id, i)
  {
    if Both(s, from, id, i) {
      var h: nat :| from <= h && BothAt(s, h, id, i);
      assert h == from || BothAt(s1, h, id, i);
    }
    if Both(s1, from + 1, id, i) {
      var h: nat :| from + 1 <= h && BothAt(s1, h, id, i);
      assert BothAt(s, h, id, i);
    }
  }

  lemma BuryWakes(s: State, id: nat, status: nat, i: nat)
    requires Occupied(s, id) && HasState(s, i, Blocked) && i != id
    ensures WokenByChannel(s, Bury(s, id, status), i)
    ensures HasState(Bury(s, id, status), i, Blocked) || HasState(Bury(s, id, status), i, Runnable)
  {
    var dead := Put(s, id, s.table[id].value.(state := Exited, exitStatus := status));
    var t := Bury(s, id, status);
    BuryKeepsShape(s, id, status);
    CloseAllWakes(dead, id, 0, i);
    forall h: nat ensures TakenAt(s, t, h, i) <==> BothAt(dead, h, id, i) {
      if h < |s.chans| { CloseAllChans(dead, id, 0, h); }
    }
    if Taken(s, t, i) { var h: nat :| TakenAt(s, t, h, i); assert BothAt(dead, h, id, i); }
    if Both(dead, 0, id, i) { var h: nat :| 0 <= h && BothAt(dead, h, id, i); assert TakenAt(s, t, h, i); }
  }

  lemma ReschedWakesNobody(s: State, i: nat)
    requires (s.current.Some? ==> OnCpu(s)) && Occupied(s, i) && s.current != Some(i)
    ensures var t := Resched(s); t.chans == s.chans && (HasState(t, i, Blocked) <==> HasState(s, i, Blocked))
  {
    if s.current.Some? { SwitchChanges(s, Runnable); }
  }

  lemma DieWakes(s: State, status: nat, i: nat)
    requires Inv(s) && OnCpu(s) && HasState(s, i, Blocked)
    ensures WokenByChannel(s, Die(s, s.current.value, status), i)
  {
    var me := s.current.value;
    assert ProcOk(s, me, s.current) && ProcOk(s, i, s.current);
    var b := Bury(s, me, status);
    BuryKeepsShape(s, me, status);
    BuryWakes(s, me, status, i);
    ReschedWakesNobody(b, i);
    SameTaken(s, b, Die(s, me, status), i);
  }

  lemma SameTaken(s: State, b: State, t: State, i: nat)
    requires t.chans == b.chans
    ensures Taken(s, t, i) <==> Taken(s, b, i)
  {
    forall h: nat ensures TakenAt(s, t, h, i) <==> TakenAt(s, b, h, i) {}
  }

  // ----- Every step -----

  // The moment process `i` waits for in `receive_at` has come.
  predicate Due(s: State, i: nat, now: nat)
    requires Occupied(s, i)
  {
    var call := s.table[i].value.call;
    call.InReceiveAt? && call.until <= now
  }

  lemma NoneTaken(s: State, t: State, i: nat)
    requires |s.chans| <= |t.chans| && forall h: nat :: h < |s.chans| ==> t.chans[h] == s.chans[h]
    ensures !Taken(s, t, i)
  {
    forall h: nat ensures !TakenAt(s, t, h, i) {}
  }

  lemma CheckWakes(s: State, now: nat, i: nat) returns (s1: State)
    requires Inv(s) && HasState(s, i, Blocked)
    ensures s1 == s.(table := CheckDeadlines(s.table, now)) && (s1.current.Some? ==> OnCpu(s1)) && Occupied(s1, i)
    ensures HasState(s1, i, Blocked) <==> !Due(s, i, now)
  {
    assert ProcOk(s, i, s.current);
    s1 := s.(table := CheckDeadlines(s.table, now));
  }

  lemma TickWakes(s: State, now: nat, i: nat)
    requires Inv(s) && HasState(s, i, Blocked)
    ensures Enabled(s, Tick(now))
    ensures var t := Exec(s, Tick(now)).0; t.chans == s.chans && (HasState(t, i, Blocked) <==> !Due(s, i, now))
  {
    assert ProcOk(s, i, s.current);
    var s1 := CheckWakes(s, now, i);
    ReschedWakesNobody(s1, i);
  }

  lemma ChannelStepWakes(s: State, step: Step, i: nat)
    requires Inv(s) && Enabled(s, step) && HasState(s, i, Blocked)
    requires step.KernelTrySend? || step.KernelTryReceive? || step.KernelClose?
    ensures WokenByChannel(s, Exec(s, step).0, i)
  {
    var t := Exec(s, step).0;
    if step.ch < |s.chans| {
      assert ChanOkBut(s, step.ch, None);
      OneChannel(s, t, step.ch, i);
    } else {
      NoneTaken(s, t, i);
    }
  }

  lemma QuietStepWakes(s: State, step: Step, i: nat)
    requires Inv(s) && Enabled(s, step) && HasState(s, i, Blocked) && RoundOf(s, step).NoCall?
    requires !step.KernelTrySend? && !step.KernelTryReceive? && !step.KernelClose? && !step.Tick?
    requires !step.SysExit? && !step.SysFault? && !step.SysKill?
    ensures WokenByChannel(s, Exec(s, step).0, i)
  {
    var t := Exec(s, step).0;
    assert ProcOk(s, i, s.current);
    if step.SysYield? { SwitchChanges(s, Runnable); }
    NoneTaken(s, t, i);
  }

  /** A process Blocked in `send` or `receive` leaves that state in a step if and only if
      a waiter slot that named it was emptied, the moment it waits for has come at a
      tick, or it was killed. */
  lemma WokenIff(s: State, step: Step, i: nat)
    requires Reachable(s) && Enabled(s, step) && HasState(s, i, Blocked)
    ensures var t := Exec(s, step).0;
            !HasState(t, i, Blocked)
            <==> Taken(s, t, i) || (step.Tick? && Due(s, i, step.now)) || step == SysKill(i)
  {
    ReachableInv(s);
    assert ProcOk(s, i, s.current);
    if !RoundOf(s, step).NoCall? {
      StepIsRound(s, step);
      CallWakes(s, RoundOf(s, step), ClockOf(step), i);
    } else if step.SysExit? || step.SysFault? {
      RunningIsCurrent(s);
      DieWakes(s, if step.SysExit? then step.status else FAULT_STATUS, i);
    } else if step.SysKill? {
      KillWakes(s, step.pid, i);
    } else if step.Tick? {
      TickWakes(s, step.now, i);
      NoneTaken(s, Exec(s, step).0, i);
    } else if step.KernelTrySend? || step.KernelTryReceive? || step.KernelClose? {
      ChannelStepWakes(s, step, i);
    } else {
      QuietStepWakes(s, step, i);
    }
  }

  lemma KillWakes(s: State, pid: nat, i: nat)
    requires HasState(s, i, Blocked)
    ensures var t := ExecKill(s, pid).0; if pid == i then HasState(t, i, Exited) else WokenByChannel(s, t, i)
  {
    if pid == i {
      BuryKeepsDead(s, i, KILL_STATUS);
    } else if Alive(s, pid) {
      BuryWakes(s, pid, KILL_STATUS, i);
    } else {
      NoneTaken(s, s, i);
    }
  }

  /** After a tick nobody is Blocked whose moment has come, and nobody else was woken. */
  lemma TickWakesIff(s: State, now: nat, i: nat)
    requires Reachable(s) && HasState(s, i, Blocked)
    ensures Enabled(s, Tick(now)) && (HasState(Exec(s, Tick(now)).0, i, Blocked) <==> !Due(s, i, now))
    ensures s.table[i].value.deadline ==
            if s.table[i].value.call.InReceiveAt? then Some(s.table[i].value.call.until) else None
  {
    ReachableInv(s);
    assert ProcOk(s, i, s.current);
    TickWakes(s, now, i);
  }

  // ----- What a step leaves of the others -----

  // Slot `i` holds the same process, in the same call.
  predicate Same(s: State, t: State, i: nat)
    requires Occupied(s, i)
  {
    && Occupied(t, i)
    && var a, b := s.table[i].value, t.table[i].value; b == a.(state := b.state, deadline := b.deadline)
  }

  lemma SuspendKeeps(s: State, call: Call, deadline: Option<nat>, i: nat)
    requires OnCpu(s) && HasState(s, s.current.value, Running) && Occupied(s, i) && s.current != Some(i)
    ensures Same(s, SuspendIn(s, call, deadline), i)
  {
    var me := s.current.value;
    var p := s.table[me].value;
    SwitchChanges(Put(s, me, p.(call := call, deadline := if deadline.Some? then deadline else p.deadline)), Blocked);
  }

  // The process on CPU sends, and `i` is the receiver on record.
  predicate SendsTo(s: State, call: Call, i: nat) {
    call.InSend? && call.ch < |s.chans| && s.chans[call.ch].recvWaiter == Some(i)
  }

  lemma CallKeepsOthers(s: State, call: Call, now: nat, i: nat)
    requires Inv(s) && OnCpu(s) && !call.NoCall? && call.ch < |s.chans| && Occupied(s, i) && s.current != Some(i)
    requires !SendsTo(s, call, i)
    ensures Same(s, ExecRetry(s, call, now).0, i)
  {
    var me, c := s.current.value, s.chans[call.ch];
    assert ChanOkBut(s, call.ch, None) && ProcOk(s, me, s.current);
    if Waits(s, call, now) {
      if call.InSend? {
        SuspendKeeps(PutChan(s, call.ch, c.(sendWaiter := s.current)), call, None, i);
      } else {
        var until := if call.InReceiveAt? then Some(call.until) else None;
        SuspendKeeps(PutChan(Unboost(s, me), call.ch, c.(recvWaiter := s.current)), call, until, i);
      }
    }
  }

  lemma DieKeepsOthers(s: State, status: nat, i: nat)
    requires OnCpu(s) && Occupied(s, i) && s.current != Some(i)
    ensures Same(s, Die(s, s.current.value, status), i)
  {
    var me := s.current.value;
    BuryKeepsShape(s, me, status);
    CloseAllOnlyWakes(Put(s, me, s.table[me].value.(state := Exited, exitStatus := status)), me, 0);
    SwitchChanges(Bury(s, me, status), Runnable);
  }

  // The process whose level a step sets.
  predicate Sets(s: State, step: Step, i: nat) {
    match step
    case SysSetPrio(pid, _) => pid == i || (pid == SELF && s.current == Some(i))
    case KernelSetPriority(pid, _) => pid == i
    case _ => false
  }

  lemma ReschedKeepsOthers(s: State, i: nat)
    requires (s.current.Some? ==> OnCpu(s)) && Occupied(s, i) && s.current != Some(i)
    ensures Same(s, Resched(s), i)
  {
    if s.current.Some? { SwitchChanges(s, Runnable); }
  }

  lemma CheckKeeps(s: State, now: nat, i: nat) returns (s1: State)
    requires (s.current.Some? ==> OnCpu(s)) && Occupied(s, i)
    ensures s1 == s.(table := CheckDeadlines(s.table, now)) && (s1.current.Some? ==> OnCpu(s1)) && Same(s, s1, i)
  {
    s1 := s.(table := CheckDeadlines(s.table, now));
  }

  lemma SameTwice(s: State, s1: State, t: State, i: nat)
    requires Occupied(s, i) && Same(s, s1, i) && Same(s1, t, i)
    ensures Same(s, t, i)
  {
  }

  lemma TickKeepsOthers(s: State, now: nat, i: nat)
    requires Occupied(s, i) && s.current != Some(i) && Enabled(s, Tick(now))
    ensures Same(s, Exec(s, Tick(now)).0, i)
  {
    var s1 := CheckKeeps(s, now, i);
    ReschedKeepsOthers(s1, i);
    SameTwice(s, s1, Resched(s1), i);
  }

  lemma KillKeepsOthers(s: State, pid: nat, i: nat)
    requires Occupied(s, i) && pid != i
    ensures Same(s, ExecKill(s, pid).0, i)
  {
    if Alive(s, pid) {
      CloseAllOnlyWakes(Put(s, pid, s.table[pid].value.(state := Exited, exitStatus := KILL_STATUS)), pid, 0);
    }
  }

  // The steps that may take the CPU from a process or its life.
  predicate MovesCpu(step: Step) {
    step.SysYield? || step.SysExit? || step.SysFault? || step.SysKill? || step.Tick?
  }

  lemma CpuStepKeepsOthers(s: State, step: Step, i: nat)
    requires Inv(s) && Enabled(s, step) && MovesCpu(step) && Alive(s, i) && s.current != Some(i) && step != SysKill(i)
    ensures Same(s, Exec(s, step).0, i)
  {
    match step {
      case SysYield => ReschedKeepsOthers(s, i);
      case SysExit(status) => RunningIsCurrent(s); DieKeepsOthers(s, status, i);
      case SysFault => RunningIsCurrent(s); DieKeepsOthers(s, FAULT_STATUS, i);
      case SysKill(pid) => KillKeepsOthers(s, pid, i);
      case Tick(now) => TickKeepsOthers(s, now, i);
    }
  }

  lemma TableStepKeepsOthers(s: State, step: Step, i: nat)
    requires Enabled(s, step) && RoundOf(s, step).NoCall? && !MovesCpu(step) && Alive(s, i) && s.current != Some(i)
    requires !Sets(s, step, i)
    ensures Same(s, Exec(s, step).0, i)
  {
  }

  /** A step leaves every other live process in the call it is in, at the level it has
      and with the status it has, unless it kills it, sets its level, or sends to it as
      the receiver on record, which changes its level only. */
  lemma OthersKeep(s: State, step: Step, i: nat)
    requires Reachable(s) && Enabled(s, step) && Alive(s, i) && s.current != Some(i)
    requires !Sets(s, step, i) && step != SysKill(i)
    ensures var t := Exec(s, step).0; var call := RoundOf(s, step);
            if SendsTo(s, call, i)
            then && Occupied(t, i)
                 && var a, b := s.table[i].value, t.table[i].value;
                    b == a.(state := b.state, deadline := b.deadline, prio := b.prio) && b.prio.base == a.prio.base
            else Same(s, t, i)
  {
    ReachableInv(s);
    var call := RoundOf(s, step);
    if MovesCpu(step) {
      CpuStepKeepsOthers(s, step, i);
    } else if call.NoCall? {
      TableStepKeepsOthers(s, step, i);
    } else {
      StepIsRound(s, step);
      if SendsTo(s, call, i) {
        assert ChanOkBut(s, call.ch, None) && ProcOk(s, s.current.value, s.current);
      } else {
        CallKeepsOthers(s, call, ClockOf(step), i);
      }
    }
  }
}
