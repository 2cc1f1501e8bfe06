/** What the handlers answer, in every run: the messages handed over, the statuses
    reported, who is woken and who runs next (port/src/ipc.rs, aarch64/src/process.rs). */
module IpcAnswers {
  import opened Prelude
  import opened Scheduler
  import opened Ipc
  import opened IpcInvariant
  import opened IpcTheorems

  // ----- Receiving -----

  // What one look at channel `h` hands over: the oldest message, once, exactly when the
  // channel is open and holds one; Closed exactly when it is closed.
  ghost predicate Handed(s: State, h: nat, t: State, reply: Reply)
    requires h < |s.chans|
  {
    var c := s.chans[h];
    && |t.chans| == |s.chans| && t.chans == s.chans[h := t.chans[h]]
    && (reply.Received? <==> !c.closed && c.queue != [])
    && (reply.Received? ==> c.queue == [reply.msg] + t.chans[h].queue)
    && (reply == Failed(Closed) <==> c.closed)
    && (!reply.Received? ==> t.chans[h].queue == c.queue)
    && t.chans[h].delivered == c.delivered + (if reply.Received? then [reply.msg] else [])
    && t.chans[h].accepted == c.accepted && t.chans[h].closed == c.closed
  }

  lemma ReceiveAnswers(s: State, h: nat, until: Option<nat>, now: nat)
    requires Inv(s) && OnCpu(s) && h < |s.chans|
    ensures var (t, reply) := ReceiveRound(s, h, until, now); var c := s.chans[h];
            && Handed(s, h, t, reply)
            && (reply == TimedOut <==> !c.closed && c.queue == [] && until.Some? && until.value <= now)
            && (reply == Suspended <==> !c.closed && c.queue == [] && (until.None? || now < until.value))
  {
    assert ChanOkBut(s, h, None) && ProcOk(s, s.current.value, s.current);
    var c := s.chans[h];
    if !c.closed && c.queue == [] && (until.None? || now < until.value) {
      var s1 := PutChan(Unboost(s, s.current.value), h, c.(recvWaiter := s.current));
      var me := s.current.value;
      var p := s1.table[me].value;
      var call := if until.Some? then InReceiveAt(h, until.value) else InReceive(h);
      BlockChanges(Put(s1, me, p.(call := call, deadline := if until.Some? then until else p.deadline)));
    }
  }

  /** `receive` and `receive_at` hand over the oldest message exactly when the channel is
      open and holds one, say Closed exactly when it is closed, time out exactly when it
      is open and empty with the moment passed, and wait otherwise. */
  lemma ReceiveAnswersHonestly(s: State, h: nat, until: Option<nat>, now: nat)
    requires Reachable(s) && OnCpu(s) && h < |s.chans|
    ensures var (t, reply) := ReceiveRound(s, h, until, now); var c := s.chans[h];
            && Handed(s, h, t, reply)
            && (reply == TimedOut <==> !c.closed && c.queue == [] && until.Some? && until.value <= now)
            && (reply == Suspended <==> !c.closed && c.queue == [] && (until.None? || now < until.value))
  {
    ReachableInv(s);
    ReceiveAnswers(s, h, until, now);
  }

  /** `try_receive` answers likewise, and Empty where `receive` would wait. */
  lemma TryReceiveAnswersHonestly(s: State, h: nat)
    requires Reachable(s) && h < |s.chans|
    ensures var (t, reply) := TryReceive(s, h);
            Handed(s, h, t, reply) && (reply == Failed(Empty) <==> !s.chans[h].closed && s.chans[h].queue == [])
  {
    ReachableInv(s);
    assert ChanOkBut(s, h, None);
  }

  lemma TrySendAnswers(s: State, h: nat, msg: Message)
    requires Inv(s) && h < |s.chans|
    ensures var (t, reply) := TrySend(s, h, msg); var c := s.chans[h];
            && |t.chans| == |s.chans| && t.chans == s.chans[h := t.chans[h]]
            && (reply == Sent <==> !c.closed && |c.queue| < QUEUE_CAP)
            && (reply == Failed(Closed) <==> c.closed)
            && (reply == Failed(Full) <==> !c.closed && |c.queue| == QUEUE_CAP)
            && t.chans[h].queue == (if reply == Sent then c.queue + [msg] else c.queue)
            && t.chans[h].accepted == (if reply == Sent then c.accepted + [msg] else c.accepted)
            && t.chans[h].delivered == c.delivered && t.chans[h].closed == c.closed
  {
    assert ChanOkBut(s, h, None);
  }

  /** `try_send` takes the message exactly when the channel is open with room, says Full
      exactly when it is open without, and Closed exactly when it is closed. */
  lemma TrySendAnswersHonestly(s: State, h: nat, msg: Message)
    requires Reachable(s) && h < |s.chans|
    ensures var (t, reply) := TrySend(s, h, msg); var c := s.chans[h];
            && (reply == Sent <==> !c.closed && |c.queue| < 8)
            && (reply == Failed(Closed) <==> c.closed)
            && (reply == Failed(Full) <==> !c.closed && |c.queue| == 8)
            && |t.chans| == |s.chans| && t.chans[h].queue == (if reply == Sent then c.queue + [msg] else c.queue)
  {
    ReachableInv(s);
    TrySendAnswers(s, h, msg);
  }

  /** A message under another tag than the caller's is refused, and changes nothing. */
  lemma ReplyNeedsTag(s: State, h: nat, tag: nat, msg: Message)
    requires Reachable(s) && Enabled(s, SysReply(h, tag, msg)) && h < |s.chans|
    ensures var (t, reply) := Exec(s, SysReply(h, tag, msg));
            if msg.tag != tag then t == s && reply == Failed(BadTag)
            else SendAnswered(s, h, msg, t, reply)
  {
    if msg.tag == tag { SendAnswersHonestly(s, h, msg); }
  }

  // ----- The answers of a run -----

  // The message a step tries to send on channel `h`.
  function SendOf(s: State, step: Step, h: nat): Option<Message>
    requires Enabled(s, step)
  {
    match step
    case SysSend(k, msg) => if k == h then Some(msg) else None
    case SysReply(k, _, msg) => if k == h then Some(msg) else None
    case KernelTrySend(k, msg) => if k == h then Some(msg) else None
    case Retry(_) =>
      var call := s.table[s.current.value].value.call;
      if call.InSend? && call.ch == h then Some(call.msg) else None
    case _ => None
  }

  // Whether a step tries to receive from it.
  predicate ReceivesFrom(s: State, step: Step, h: nat)
    requires Enabled(s, step)
  {
    match step
    case SysReceive(k) => k == h
    case SysReceiveAt(k, _, _) => k == h
    case KernelTryReceive(k) => k == h
    case Retry(_) => var call := s.table[s.current.value].value.call; InReceiveCall(call) && call.ch == h
    case _ => false
  }

  // The message whose sender is told Ok by a step, and the one a receiver is handed.
  ghost function SentBy(s: State, step: Step, h: nat): seq<Message>
    requires Enabled(s, step)
  {
    var m := SendOf(s, step, h);
    if m.Some? && Exec(s, step).1 == Sent then [m.value] else []
  }

  ghost function ReceivedBy(s: State, step: Step, h: nat): seq<Message>
    requires Enabled(s, step)
  {
    var reply := Exec(s, step).1;
    if ReceivesFrom(s, step, h) && reply.Received? then [reply.msg] else []
  }

  /** The messages of a run whose senders were told Ok, in the order of the answers. */
  ghost function AllSent(s: State, steps: seq<Step>, h: nat): seq<Message>
    decreases |steps|
  {
    if steps == [] || !Enabled(s, steps[0]) then []
    else SentBy(s, steps[0], h) + AllSent(Exec(s, steps[0]).0, steps[1..], h)
  }

  /** The messages its receivers were handed. */
  ghost function AllReceived(s: State, steps: seq<Step>, h: nat): seq<Message>
    decreases |steps|
  {
    if steps == [] || !Enabled(s, steps[0]) then []
    else ReceivedBy(s, steps[0], h) + AllReceived(Exec(s, steps[0]).0, steps[1..], h)
  }

  // Channel `h`, or what it will be once it is created.
  function ChanAt(s: State, h: nat): Channel {
    if h < |s.chans| then s.chans[h] else NewChannel
  }

  // The records grow by the answers of the run.
  ghost predicate Grown(s: State, s': State, h: nat, sent: seq<Message>, received: seq<Message>) {
    && ChanAt(s', h).accepted == ChanAt(s, h).accepted + sent
    && ChanAt(s', h).delivered == ChanAt(s, h).delivered + received
  }

  ghost predicate Recorded(s: State, step: Step, h: nat)
    requires Enabled(s, step)
  {
    Grown(s, Exec(s, step).0, h, SentBy(s, step, h), ReceivedBy(s, step, h))
  }

  lemma RoundIs(s: State, step: Step, h: nat)
    requires Enabled(s, step) && !RoundOf(s, step).NoCall?
    ensures var call := RoundOf(s, step);
            && SendOf(s, step, h) == (if call.InSend? && call.ch == h then Some(call.msg) else None)
            && (ReceivesFrom(s, step, h) <==> InReceiveCall(call) && call.ch == h)
  {
  }

  lemma CallRecorded(s: State, call: Call, now: nat, h: nat)
    requires Inv(s) && OnCpu(s) && !call.NoCall? && call.ch < |s.chans|
    ensures var (t, reply) := ExecRetry(s, call, now);
            && ChanAt(t, h).accepted ==
               ChanAt(s, h).accepted + (if call.InSend? && call.ch == h && reply == Sent then [call.msg] else [])
            && ChanAt(t, h).delivered ==
               ChanAt(s, h).delivered
               + (if InReceiveCall(call) && call.ch == h && reply.Received? then [reply.msg] else [])
  {
    match call {
      case InSend(k, msg) => SendAnswers(s, k, msg);
      case InReceive(k) => ReceiveAnswers(s, k, None, now);
      case InReceiveAt(k, until) => ReceiveAnswers(s, k, Some(until), now);
    }
  }

  lemma RoundRecorded(s: State, step: Step, h: nat)
    requires Inv(s) && Enabled(s, step) && !RoundOf(s, step).NoCall?
    ensures Recorded(s, step, h)
  {
    StepIsRound(s, step);
    RoundIs(s, step, h);
    CallRecorded(s, RoundOf(s, step), ClockOf(step), h);
  }

  // The step leaves the messages of every channel alone.
  ghost predicate Silent(s: State, t: State) {
    && |s.chans| <= |t.chans|
    && forall h: nat ::
         ChanAt(t, h).accepted == ChanAt(s, h).accepted && ChanAt(t, h).delivered == ChanAt(s, h).delivered
  }

  lemma BurySilent(s: State, id: nat, status: nat)
    requires Occupied(s, id)
    ensures Silent(s, Bury(s, id, status))
  {
    BuryKeepsShape(s, id, status);
    var dead := Put(s, id, s.table[id].value.(state := Exited, exitStatus := status));
    forall h: nat | h < |s.chans|
      ensures var t := Bury(s, id, status); |t.chans| == |s.chans| && t.chans[h] == Bereaved(s.chans[h], id)
    {
      CloseAllChans(dead, id, 0, h);
    }
  }

  lemma DieSilent(s: State, status: nat)
    requires Inv(s) && OnCpu(s)
    ensures Silent(s, Die(s, s.current.value, status))
  {
    var c := s.current.value;
    BuryKeepsShape(s, c, status);
    BurySilent(s, c, status);
    SwitchChanges(Bury(s, c, status), Runnable);
  }

  lemma TickSilent(s: State, now: nat)
    requires s.current.Some? ==> OnCpu(s)
    ensures Silent(s, Exec(s, Tick(now)).0)
  {
    if s.current.Some? { SwitchChanges(s.(table := CheckDeadlines(s.table, now)), Runnable); }
  }

  lemma OtherStepSilent(s: State, step: Step)
    requires Inv(s) && Enabled(s, step) && RoundOf(s, step).NoCall? && !step.KernelTrySend? && !step.KernelTryReceive?
    ensures Silent(s, Exec(s, step).0) && Exec(s, step).1 != Sent && !Exec(s, step).1.Received?
  {
    match step {
      case SysYield => SwitchChanges(s, Runnable);
      case SysExit(status) => RunningIsCurrent(s); DieSilent(s, status);
      case SysFault => RunningIsCurrent(s); DieSilent(s, FAULT_STATUS);
      case SysKill(pid) => if Alive(s, pid) { BurySilent(s, pid, KILL_STATUS); }
      case Tick(now) => TickSilent(s, now);
      case _ =>
    }
  }

  lemma StepRecorded(s: State, step: Step, h: nat)
    requires Inv(s) && Enabled(s, step)
    ensures Recorded(s, step, h)
  {
    if !RoundOf(s, step).NoCall? {
      RoundRecorded(s, step, h);
    } else if step.KernelTrySend? {
      if step.ch < |s.chans| { TrySendAnswers(s, step.ch, step.msg); }
    } else if step.KernelTryReceive? {
      if step.ch < |s.chans| { assert ChanOkBut(s, step.ch, None); }
    } else {
      OtherStepSilent(s, step);
    }
  }

  lemma GrownTwice(s: State, t: State, s': State, h: nat, sent: seq<Message>, received: seq<Message>,
                   sent': seq<Message>, received': seq<Message>)
    requires Grown(s, t, h, sent, received) && Grown(t, s', h, sent', received')
    ensures Grown(s, s', h, sent + sent', received + received')
  {
  }

  lemma {:induction false} RunRecorded(s: State, steps: seq<Step>, s': State, h: nat)
    requires Inv(s) && Runs(s, steps, s')
    ensures Grown(s, s', h, AllSent(s, steps, h), AllReceived(s, steps, h))
    decreases |steps|
  {
    if steps != [] {
      StepKeepsInvIff(s, steps[0]);
      StepRecorded(s, steps[0], h);
      var t := Exec(s, steps[0]).0;
      RunRecorded(t, steps[1..], s', h);
      GrownTwice(s, t, s', h, SentBy(s, steps[0], h), ReceivedBy(s, steps[0], h),
                 AllSent(t, steps[1..], h), AllReceived(t, steps[1..], h));
    }
  }

  /** Exactly-once FIFO on the answers: in every run from boot, the messages whose
      senders were told Ok are the messages the receivers were handed, in the same
      order, followed by those still in the queue. */
  lemma AnswersAreFifo(n: nat, steps: seq<Step>, s: State, h: nat)
    requires Runs(Boot(n), steps, s)
    ensures AllSent(Boot(n), steps, h) == AllReceived(Boot(n), steps, h) + ChanAt(s, h).queue
  {
    assert Inv(Boot(n));
    assert ChanAt(Boot(n), h) == NewChannel;
    RunRecorded(Boot(n), steps, s, h);
    RunKeepsInv(Boot(n), steps, s);
    assert [] + AllSent(Boot(n), steps, h) == AllSent(Boot(n), steps, h);
    assert [] + AllReceived(Boot(n), steps, h) == AllReceived(Boot(n), steps, h);
    if h < |s.chans| { assert ChanOkBut(s, h, None); }
  }
}
