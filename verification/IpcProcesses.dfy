/** What becomes of processes, in every run: who runs next, who is woken and what a
    dead one leaves behind (aarch64/src/process.rs). */
module IpcProcesses {
  import opened Prelude
  import opened Scheduler
  import opened Ipc
  import opened IpcInvariant
  import opened IpcTheorems

  // ----- Who runs next -----

  // Slot `n` goes before slot `i` when the cursor is at `cursor`.
  predicate Before(t: State, cursor: nat, n: nat, i: nat)
    requires Occupied(t, n) && Occupied(t, i)
  {
    var a, b := t.table[n].value.prio.effective, t.table[i].value.prio.effective;
    a < b || (a == b && Dist(|t.table|, cursor, n) <= Dist(|t.table|, cursor, i))
  }

  /** Slot `c` left the CPU to another: the one now Running goes before every slot still
      Runnable, and the cursor is on it. */
  ghost predicate HandedOn(t: State, cursor: nat, c: nat) {
    && t.current.Some? && t.current != Some(c) && HasState(t, t.current.value, Running)
    && t.cursor == t.current.value
    && forall i: nat :: i != c && HasState(t, i, Runnable) ==> Before(t, cursor, t.current.value, i)
  }

  // No slot but `c` is Runnable, and the cursor stays.
  ghost predicate NobodyElse(t: State, cursor: nat, c: nat) {
    t.cursor == cursor && forall i: nat :: i != c ==> !HasState(t, i, Runnable)
  }

  lemma SwitchHandsOn(s: State, demoteTo: ProcState)
    requires OnCpu(s)
    ensures var (t, switched) := SwitchOut(s, demoteTo); var c := s.current.value;
            if switched then HandedOn(t, s.cursor, c) else t.current == s.current && NobodyElse(t, s.cursor, c)
  {
    var c := s.current.value;
    var d := Demoted(s, demoteTo);
    var slots := View(d.table);
    var t := SwitchOut(s, demoteTo).0;
    var w := Pick(slots, c, d.cursor);
    if w.Some? { PickIsRunnable(d, c, w.value); }
    forall i: nat | i != c && HasState(t, i, Runnable) ensures Eligible(slots, c, i) {
      assert slots[i] == SlotView(d.table[i]);
    }
    if w.Some? {
      forall i: nat | i != c && HasState(t, i, Runnable) ensures Before(t, s.cursor, w.value, i) {
        assert Eligible(slots, c, i) && slots[i] == SlotView(d.table[i]);
        assert slots[w.value] == SlotView(d.table[w.value]);
      }
    }
  }

  /** Yielding, or a tick while a process runs: the most urgent other Runnable slot, the
      first after the cursor of equals, takes the CPU and the process waits its turn;
      it keeps the CPU exactly when no other slot is Runnable. */
  lemma YieldHandsOn(s: State, step: Step)
    requires Reachable(s) && OnCpu(s) && Enabled(s, step) && (step.SysYield? || step.Tick?)
    ensures var (t, reply) := Exec(s, step); var c := s.current.value;
            && reply == Value(0)
            && if t.current == s.current then HasState(t, c, Running) && NobodyElse(t, s.cursor, c)
               else HasState(t, c, Runnable) && HandedOn(t, s.cursor, c)
  {
    ReachableInv(s);
    assert ProcOk(s, s.current.value, s.current);
    if step.Tick? {
      ReschedHandsOn(s.(table := CheckDeadlines(s.table, step.now)));
    } else {
      ReschedHandsOn(s);
    }
  }

  lemma ReschedHandsOn(s: State)
    requires OnCpu(s) && HasState(s, s.current.value, Running)
    ensures var t := Resched(s); var c := s.current.value;
            if t.current == s.current then HasState(t, c, Running) && NobodyElse(t, s.cursor, c)
            else HasState(t, c, Runnable) && HandedOn(t, s.cursor, c)
  {
    SwitchHandsOn(s, Runnable);
    SwitchChanges(s, Runnable);
  }

  // The CPU went to the slot whose turn it was, or to the kernel for want of one.
  ghost predicate LeftCpu(t: State, cursor: nat, c: nat) {
    if t.current.None? then NobodyElse(t, cursor, c) else HandedOn(t, cursor, c)
  }

  lemma ToKernel(t: State, cursor: nat, c: nat)
    requires NobodyElse(t, cursor, c)
    ensures LeftCpu(t.(current := None), cursor, c)
  {
    forall i: nat | i != c ensures !HasState(t.(current := None), i, Runnable) { assert !HasState(t, i, Runnable); }
  }

  lemma SuspendHandsOn(s: State, call: Call, deadline: Option<nat>)
    requires OnCpu(s) && HasState(s, s.current.value, Running)
    ensures var t := SuspendIn(s, call, deadline); var me := s.current.value;
            && LeftCpu(t, s.cursor, me) && HasState(t, me, Blocked) && t.table[me].value.call == call
            && t.table[me].value.prio == s.table[me].value.prio && t.chans == s.chans
  {
    var me := s.current.value;
    var p := s.table[me].value;
    var s1 := Put(s, me, p.(call := call, deadline := if deadline.Some? then deadline else p.deadline));
    SwitchHandsOn(s1, Blocked);
    var (t, switched) := SwitchOut(s1, Blocked);
    if !switched { ToKernel(t, s.cursor, me); }
    BlockChanges(s1);
  }

  // The process is recorded in its role's waiter slot.
  predicate Awaited(c: Channel, sending: bool, me: nat) {
    if sending then c.sendWaiter == Some(me) else c.recvWaiter == Some(me)
  }

  // A receiver that waits gives up its boost.
  function WaitingLevel(p: PriorityState, call: Call): PriorityState {
    if call.InSend? then p else PriorityState(p.base, p.base)
  }

  // What a round leaves of its process: Blocked in the call and on record, or back from it.
  ghost predicate RoundLeaves(s: State, call: Call, t: State, reply: Reply)
    requires OnCpu(s) && !call.NoCall? && call.ch < |s.chans|
  {
    var me := s.current.value;
    var p := s.table[me].value;
    if reply == Suspended
    then && LeftCpu(t, s.cursor, me) && HasState(t, me, Blocked) && t.table[me].value.call == call
         && t.table[me].value.prio == WaitingLevel(p.prio, call)
         && |t.chans| == |s.chans| && Awaited(t.chans[call.ch], call.InSend?, me)
    else && t.current == s.current && t.cursor == s.cursor
         && HasState(t, me, Running) && (reply.Panicked? || t.table[me].value == p.(call := NoCall))
  }

  lemma CallHandsOn(s: State, call: Call, now: nat)
    requires Inv(s) && OnCpu(s) && !call.NoCall? && call.ch < |s.chans|
    ensures RoundLeaves(s, call, ExecRetry(s, call, now).0, ExecRetry(s, call, now).1)
  {
    var me := s.current.value;
    var c := s.chans[call.ch];
    assert ChanOkBut(s, call.ch, None) && ProcOk(s, me, s.current);
    if Waits(s, call, now) {
      if call.InSend? {
        SuspendHandsOn(PutChan(s, call.ch, c.(sendWaiter := s.current)), call, None);
      } else {
        var until := if call.InReceiveAt? then Some(call.until) else None;
        SuspendHandsOn(PutChan(Unboost(s, me), call.ch, c.(recvWaiter := s.current)), call, until);
      }
    }
  }

  /** A round of `send` or `receive` that has to wait leaves its process Blocked in that
      call, recorded as the channel's waiter, at its base level if it receives, and the
      CPU to the slot whose turn it is, or to the kernel when none is Runnable; any other
      round leaves its process on CPU, back from the call. */
  lemma WaitingHandsOn(s: State, step: Step)
    requires Reachable(s) && Enabled(s, step) && !RoundOf(s, step).NoCall?
    ensures OnCpu(s) && RoundLeaves(s, RoundOf(s, step), Exec(s, step).0, Exec(s, step).1)
  {
    ReachableInv(s);
    StepIsRound(s, step);
    CallHandsOn(s, RoundOf(s, step), ClockOf(step));
  }

  lemma DieHandsOn(s: State, status: nat)
    requires Inv(s) && OnCpu(s)
    ensures var t := Die(s, s.current.value, status); var me := s.current.value;
            && LeftCpu(t, s.cursor, me) && HasState(t, me, Exited) && t.table[me].value.exitStatus == status
  {
    var me := s.current.value;
    var dead := Put(s, me, s.table[me].value.(state := Exited, exitStatus := status));
    BuryKeepsShape(s, me, status);
    CloseAllOnlyWakes(dead, me, 0);
    SwitchHandsOn(Bury(s, me, status), Runnable);
    var (t, switched) := SwitchOut(Bury(s, me, status), Runnable);
    if !switched { ToKernel(t, s.cursor, me); }
    SwitchChanges(Bury(s, me, status), Runnable);
  }

  // The status a death leaves.
  function StatusOf(step: Step): nat {
    match step case SysExit(status) => status case SysFault => 0xff case _ => 0x7f
  }

  /** An exit or a fault ends the process on CPU with its status and hands the CPU on in
      the same way; a kill ends its target and keeps the CPU. */
  lemma DeathHandsOn(s: State, step: Step, id: nat)
    requires Reachable(s) && Ends(s, step, id)
    ensures var (t, reply) := Exec(s, step);
            && HasState(t, id, Exited) && t.table[id].value.exitStatus == StatusOf(step)
            && if step.SysKill? then reply == Value(0) && t.current == s.current && t.cursor == s.cursor
               else reply == Suspended && LeftCpu(t, s.cursor, id)
  {
    ReachableInv(s);
    if step.SysKill? {
      BuryKeepsShape(s, id, KILL_STATUS);
      CloseAllOnlyWakes(Put(s, id, s.table[id].value.(state := Exited, exitStatus := KILL_STATUS)), id, 0);
    } else {
      RunningIsCurrent(s);
      DieHandsOn(s, StatusOf(step));
    }
  }

  // ----- What a dead process leaves behind -----

  /** `sys_wait` answers with the status of the child named, or for child 0 of the first
      Exited slot, and frees that slot; with no such slot it refuses. */
  lemma WaitAnswers(s: State, child: nat) returns (i: Option<nat>)
    requires Enabled(s, SysWait(child))
    ensures match i
            case Some(i) =>
              && HasState(s, i, Exited)
              && (if child == 0 then forall j: nat :: j < i ==> !HasState(s, j, Exited) else i == child)
              && Exec(s, SysWait(child)) == (s.(table := s.table[i := None]), Value(s.table[i].value.exitStatus))
            case None =>
              && Exec(s, SysWait(child)) == (s, Refused)
              && if child == 0 then forall j: nat :: !HasState(s, j, Exited) else !HasState(s, child, Exited)
  {
    i := if child == 0 then FindState(s.table, Exited, 0) else if HasState(s, child, Exited) then Some(child) else None;
  }

  // Slot `id` is Exited after every step of the run.
  ghost predicate StaysDead(s: State, steps: seq<Step>, id: nat)
    decreases |steps|
  {
    steps == [] || (Enabled(s, steps[0]) && HasState(Exec(s, steps[0]).0, id, Exited)
                    && StaysDead(Exec(s, steps[0]).0, steps[1..], id))
  }

  lemma {:induction false} StatusStays(s: State, steps: seq<Step>, s': State, id: nat)
    requires Reachable(s) && Runs(s, steps, s') && HasState(s, id, Exited) && StaysDead(s, steps, id)
    ensures HasState(s', id, Exited) && s'.table[id].value.exitStatus == s.table[id].value.exitStatus
    decreases |steps|
  {
    if steps != [] {
      ExitedIsFinal(s, steps[0], id);
      var t := Reaches(s, steps[0]);
      StatusStays(t, steps[1..], s', id);
    }
  }

  /** Whatever happens between the death of a process and the wait for it, as long as its
      slot is not freed or claimed by a spawn, the wait answers with the status of the
      exit, the fault or the kill. */
  lemma DeathIsReported(s: State, step: Step, id: nat, steps: seq<Step>, s': State)
    requires Reachable(s) && Ends(s, step, id) && Safe(s, step)
    requires Runs(Exec(s, step).0, steps, s') && StaysDead(Exec(s, step).0, steps, id) && Enabled(s', SysWait(id))
    ensures var (t, reply) := Exec(s', SysWait(id));
            reply == Value(StatusOf(step)) && id < |t.table| && t.table[id].None?
  {
    DeathHandsOn(s, step, id);
    var t := Reaches(s, step);
    StatusStays(t, steps, s', id);
    WaitReports(s', id);
  }

  lemma WaitReports(s: State, id: nat)
    requires HasState(s, id, Exited) && Enabled(s, SysWait(id))
    ensures var (t, reply) := Exec(s, SysWait(id));
            reply == Value(s.table[id].value.exitStatus) && id < |t.table| && t.table[id].None?
  {
    var i := WaitAnswers(s, id);
  }

  // ----- New processes -----

  lemma {:induction false} FirstFree(table: seq<Option<Process>>, from: nat, j: nat)
    requires from <= j < |table| && (FindFree(table, from).None? || j < FindFree(table, from).value)
    ensures table[j].Some? && table[j].value.state != Exited
    decreases j - from
  {
    if from < j { FirstFree(table, from + 1, j); }
  }

  // The level a spawn asks for, if it is one a process may have.
  function SpawnLevel(step: Step): Option<Level> {
    match step
    case SysSpawn(prio) => if prio < IDLE then Some(prio) else None
    case _ => Some(DEFAULT_PRIORITY)
  }

  /** A spawn takes the first slot that is empty or Exited for a Runnable process at the
      level asked for, in no call, and answers with its number; it fails exactly when
      the level is the idle one or beyond, or every slot holds a live process. */
  lemma SpawnAnswers(s: State, step: Step) returns (id: Option<nat>)
    requires Enabled(s, step) && (step.SysSpawn? || step.KernelSpawn?)
    ensures match id
            case Some(id) =>
              && id < |s.table| && !Alive(s, id) && (forall j: nat :: j < id ==> Alive(s, j)) && SpawnLevel(step).Some?
              && Exec(s, step).1 == Value(id)
              && var t := Exec(s, step).0;
                 && t == s.(table := t.table) && t.table == s.table[id := t.table[id]] && HasState(t, id, Runnable)
                 && var p := t.table[id].value;
                    && p.prio.base == p.prio.effective == SpawnLevel(step).value && p.call.NoCall? && p.deadline.None?
            case None =>
              && Exec(s, step).0 == s && !Exec(s, step).1.Value?
              && (SpawnLevel(step).None? || forall j: nat :: j < |s.table| ==> Alive(s, j))
  {
    id := if SpawnLevel(step).None? then None else FindFree(s.table, 0);
    var free := FindFree(s.table, 0);
    forall j: nat | j < |s.table| && (free.None? || j < free.value) ensures Alive(s, j) { FirstFree(s.table, 0, j); }
  }

  /** The kernel starts the first Runnable slot; the kernel call has to find one. */
  lemma RunAllStartsFirst(s: State)
    requires Enabled(s, RunAll)
    ensures var t := Exec(s, RunAll).0;
            && t.current.Some? && HasState(s, t.current.value, Runnable) && HasState(t, t.current.value, Running)
            && (forall j: nat :: j < t.current.value ==> !HasState(s, j, Runnable))
            && t == s.(table := s.table[t.current.value := t.table[t.current.value]], current := t.current)
            && t.table[t.current.value].value == s.table[t.current.value].value.(state := Running)
  {
  }

  // ----- Channels -----

  /** A closed channel has no waiters and never changes again. */
  lemma StaysClosed(s: State, step: Step, h: nat)
    requires Inv(s) && Enabled(s, step) && h < |s.chans| && s.chans[h].closed
    ensures h < |Exec(s, step).0.chans| && Exec(s, step).0.chans[h] == s.chans[h]
  {
    assert ChanOkBut(s, h, None);
    if !RoundOf(s, step).NoCall? {
      StepIsRound(s, step);
      CallOnlyOwn(s, RoundOf(s, step), ClockOf(step), h);
    } else {
      OtherLeavesClosed(s, step, h);
    }
  }

  lemma CallOnlyOwn(s: State, call: Call, now: nat, h: nat)
    requires Inv(s) && OnCpu(s) && !call.NoCall? && call.ch < |s.chans| && h < |s.chans| && s.chans[h].closed
    ensures var t := ExecRetry(s, call, now).0; h < |t.chans| && t.chans[h] == s.chans[h]
  {
    var me := s.current.value;
    var c := s.chans[call.ch];
    assert ChanOkBut(s, call.ch, None) && ProcOk(s, me, s.current);
    if Waits(s, call, now) {
      if call.InSend? {
        SuspendHandsOn(PutChan(s, call.ch, c.(sendWaiter := s.current)), call, None);
      } else {
        var until := if call.InReceiveAt? then Some(call.until) else None;
        SuspendHandsOn(PutChan(Unboost(s, me), call.ch, c.(recvWaiter := s.current)), call, until);
      }
    }
  }

  lemma OtherLeavesClosed(s: State, step: Step, h: nat)
    requires Inv(s) && Enabled(s, step) && RoundOf(s, step).NoCall? && h < |s.chans| && s.chans[h].closed
    ensures h < |Exec(s, step).0.chans| && Exec(s, step).0.chans[h] == s.chans[h]
  {
    assert ChanOkBut(s, h, None);
    match step {
      case SysYield => SwitchChanges(s, Runnable);
      case SysExit(status) => RunningIsCurrent(s); DieLeavesClosed(s, status, h);
      case SysFault => RunningIsCurrent(s); DieLeavesClosed(s, FAULT_STATUS, h);
      case SysKill(pid) => if Alive(s, pid) { BuryLeavesClosed(s, pid, KILL_STATUS, h); }
      case Tick(now) =>
        if s.current.Some? { SwitchChanges(s.(table := CheckDeadlines(s.table, now)), Runnable); }
      case _ =>
    }
  }

  lemma BuryLeavesClosed(s: State, id: nat, status: nat, h: nat)
    requires Inv(s) && Occupied(s, id) && h < |s.chans| && s.chans[h].closed
    ensures |Bury(s, id, status).chans| == |s.chans| && Bury(s, id, status).chans[h] == s.chans[h]
  {
    assert ChanOkBut(s, h, None);
    CloseAllChans(Put(s, id, s.table[id].value.(state := Exited, exitStatus := status)), id, 0, h);
  }

  lemma DieLeavesClosed(s: State, status: nat, h: nat)
    requires Inv(s) && OnCpu(s) && h < |s.chans| && s.chans[h].closed
    ensures var t := Die(s, s.current.value, status); h < |t.chans| && t.chans[h] == s.chans[h]
  {
    BuryKeepsShape(s, s.current.value, status);
    BuryLeavesClosed(s, s.current.value, status, h);
    SwitchChanges(Bury(s, s.current.value, status), Runnable);
  }

  lemma {:induction false} RunStaysClosed(s: State, steps: seq<Step>, s': State, h: nat)
    requires Inv(s) && Runs(s, steps, s') && h < |s.chans| && s.chans[h].closed
    ensures h < |s'.chans| && s'.chans[h] == s.chans[h]
    decreases |steps|
  {
    if steps != [] {
      StaysClosed(s, steps[0], h);
      StepKeepsInvIff(s, steps[0]);
      RunStaysClosed(Exec(s, steps[0]).0, steps[1..], s', h);
    }
  }

  /** Closing a channel empties its waiter slots, and whatever happens from then on the
      channel stays as it is: closed, with the messages it held. */
  lemma ClosedForGood(s: State, h: nat, steps: seq<Step>, s': State)
    requires Reachable(s) && h < |s.chans| && Enabled(s, KernelClose(h)) && Runs(Exec(s, KernelClose(h)).0, steps, s')
    ensures h < |s'.chans|
    ensures s'.chans[h] == s.chans[h].(closed := true, recvWaiter := None, sendWaiter := None)
  {
    ReachableInv(s);
    StepKeepsInvIff(s, KernelClose(h));
    RunStaysClosed(Exec(s, KernelClose(h)).0, steps, s', h);
  }

  // The handle a step uses.
  function HandleOf(step: Step): Option<nat> {
    match step
    case SysSend(h, _) => Some(h)
    case SysReply(h, _, _) => Some(h)
    case SysReceive(h) => Some(h)
    case SysReceiveAt(h, _, _) => Some(h)
    case KernelTrySend(h, _) => Some(h)
    case KernelTryReceive(h) => Some(h)
    case KernelClose(h) => Some(h)
    case _ => None
  }

  /** A handle is good exactly when its channel was created: handles count up from 0 to
      16, each new channel is open and empty, and any other handle is refused. */
  lemma HandlesCountUp(s: State, step: Step)
    requires Reachable(s) && Enabled(s, step) && (HandleOf(step).Some? || step.CreateChan?)
    ensures var (t, reply) := Exec(s, step);
            if step.CreateChan?
            then if |s.chans| < NCHANNELS
                 then t == s.(chans := s.chans + [NewChannel]) && reply == Value(|s.chans|)
                 else t == s && reply == Refused
            else reply == BadHandle <==> HandleOf(step).value >= |s.chans|
    ensures Exec(s, step).1 == BadHandle ==> Exec(s, step).0 == s
  {
  }
}
