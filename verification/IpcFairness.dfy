/** Round robin within a level, over whole runs of the kernel
    (aarch64/src/process.rs, `switch_out` with `pick_next`). */
module IpcFairness {
  import opened Prelude
  import opened Scheduler
  import opened Ipc
  import opened IpcInvariant
  import opened IpcTheorems

  // Between the two states one process left the CPU to another.
  predicate Switched(s: State, t: State) {
    s.current.Some? && t.current.Some? && s.current != t.current
  }

  // The process on CPU is not more urgent than slot `i`.
  predicate NotOutranked(t: State, i: nat) {
    OnCpu(t) && Occupied(t, i) && t.table[i].value.prio.effective <= t.table[t.current.value].value.prio.effective
  }

  /** A switch that passes over the Runnable slot `i` for a process no more urgent
      brings it strictly closer to the cursor; only a switch moves the cursor. */
  ghost predicate Passes(s: State, t: State, i: nat)
    requires i < |s.table|
  {
    && |t.table| == |s.table|
    && (if Switched(s, t)
        then HasState(t, i, Runnable) && NotOutranked(t, i) ==>
          Dist(|t.table|, t.cursor, i) < Dist(|s.table|, s.cursor, i)
        else t.cursor == s.cursor)
  }

  lemma SwitchPasses(s: State, demoteTo: ProcState, i: nat)
    requires OnCpu(s) && HasState(s, i, Runnable) && s.current != Some(i)
    ensures var (t, switched) := SwitchOut(s, demoteTo); Passes(s, t, i) && switched == Switched(s, t)
  {
    var c := s.current.value;
    var d := Demoted(s, demoteTo);
    var slots := View(d.table);
    var w := Pick(slots, c, d.cursor);
    assert slots[i] == SlotView(d.table[i]) && Eligible(slots, c, i);
    PickIsRunnable(d, c, w.value);
    var t := SwitchOut(s, demoteTo).0;
    if HasState(t, i, Runnable) && NotOutranked(t, i) {
      assert slots[w.value] == SlotView(d.table[w.value]);
      PassedOverComesCloser(slots, c, d.cursor, w.value, i);
    }
  }

  // A handler that prepares `s1`, switches away and may fall back to the kernel.
  lemma SwitchFrom(s: State, s1: State, demoteTo: ProcState, i: nat)
    requires OnCpu(s1) && HasState(s1, i, Runnable) && s1.current != Some(i)
    requires |s1.table| == |s.table| && s1.current == s.current && s1.cursor == s.cursor
    ensures var (t, switched) := SwitchOut(s1, demoteTo);
            Passes(s, t, i) && (!switched ==> Passes(s, t.(current := None), i))
  {
    SwitchPasses(s1, demoteTo, i);
  }

  lemma RoundPasses(s: State, call: Call, now: nat, i: nat)
    requires Inv(s) && OnCpu(s) && !call.NoCall? && call.ch < |s.chans| && HasState(s, i, Runnable)
    ensures Passes(s, ExecRetry(s, call, now).0, i)
  {
    var me := s.current.value;
    var c := s.chans[call.ch];
    assert ProcOk(s, me, s.current) && ProcOk(s, i, s.current) && ChanOkBut(s, call.ch, None);
    if Waits(s, call, now) {
      var s1 := if call.InSend? then PutChan(s, call.ch, c.(sendWaiter := s.current))
                else PutChan(Unboost(s, me), call.ch, c.(recvWaiter := s.current));
      var p := s1.table[me].value;
      var deadline := if call.InReceiveAt? then Some(call.until) else p.deadline;
      SwitchFrom(s, Put(s1, me, p.(call := call, deadline := deadline)), Blocked, i);
    }
  }

  lemma DiePasses(s: State, status: nat, i: nat)
    requires Inv(s) && OnCpu(s) && HasState(s, i, Runnable)
    ensures Passes(s, Die(s, s.current.value, status), i)
  {
    var c := s.current.value;
    assert ProcOk(s, c, s.current) && ProcOk(s, i, s.current);
    BuryKeepsShape(s, c, status);
    var dead := Put(s, c, s.table[c].value.(state := Exited, exitStatus := status));
    CloseAllOnlyWakes(dead, c, 0);
    assert dead.table[i] == s.table[i];
    SwitchFrom(s, Bury(s, c, status), Runnable, i);
  }

  lemma StepPasses(s: State, step: Step, i: nat)
    requires Inv(s) && Enabled(s, step) && HasState(s, i, Runnable)
    ensures Passes(s, Exec(s, step).0, i)
  {
    assert ProcOk(s, i, s.current);
    if !RoundOf(s, step).NoCall? {
      StepIsRound(s, step);
      RoundPasses(s, RoundOf(s, step), ClockOf(step), i);
    } else {
      OtherStepPasses(s, step, i);
    }
  }

  lemma OtherStepPasses(s: State, step: Step, i: nat)
    requires Inv(s) && Enabled(s, step) && HasState(s, i, Runnable) && RoundOf(s, step).NoCall?
    ensures Passes(s, Exec(s, step).0, i)
  {
    assert ProcOk(s, i, s.current);
    match step {
      case SysYield => SwitchFrom(s, s, Runnable, i);
      case SysExit(status) => RunningIsCurrent(s); DiePasses(s, status, i);
      case SysFault => RunningIsCurrent(s); DiePasses(s, FAULT_STATUS, i);
      case SysKill(pid) => if Alive(s, pid) { BuryKeepsShape(s, pid, KILL_STATUS); }
      case Tick(now) => if s.current.Some? { SwitchFrom(s, s.(table := CheckDeadlines(s.table, now)), Runnable, i); }
      case _ =>
    }
  }

  /** How often a run takes the CPU from one process and gives it to another. */
  ghost function Switches(s: State, steps: seq<Step>): nat
    decreases |steps|
  {
    if steps == [] || !Enabled(s, steps[0]) then 0
    else
      var t := Exec(s, steps[0]).0;
      (if Switched(s, t) then 1 else 0) + Switches(t, steps[1..])
  }

  /** Slot `i` is Runnable in every state of the run, and no process switched to
      is more urgent. */
  ghost predicate KeptWaiting(s: State, steps: seq<Step>, i: nat)
    decreases |steps|
  {
    && HasState(s, i, Runnable)
    && (steps != [] && Enabled(s, steps[0]) ==>
          var t := Exec(s, steps[0]).0;
          (Switched(s, t) ==> NotOutranked(t, i)) && KeptWaiting(t, steps[1..], i))
  }

  /** Nobody starves within a level: in any part of any run, a slot that stays
      Runnable while no more urgent process is switched to sees fewer switches
      than its distance from the cursor, so fewer than there are slots. */
  lemma {:induction false} NoStarvation(s: State, steps: seq<Step>, s': State, i: nat)
    requires Reachable(s) && Runs(s, steps, s') && KeptWaiting(s, steps, i)
    ensures Switches(s, steps) < Dist(|s.table|, s.cursor, i) <= |s.table|
    decreases |steps|
  {
    if steps != [] {
      ReachableInv(s);
      StepPasses(s, steps[0], i);
      var t := Reaches(s, steps[0]);
      NoStarvation(t, steps[1..], s', i);
    }
  }
}
