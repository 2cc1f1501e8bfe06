/** Channels over the process table (port/src/ipc.rs, aarch64/src/ipc.rs,
    aarch64/src/process.rs), as a state machine.

    One step is one handler run, from its entry to its return or to the block
    that switches away: IRQs stay masked in between and one process is on CPU.
    A process that blocked inside `send` or `receive` resumes at the top of
    that call's loop; `call` is the saved kernel context that says which. */
module Ipc {
  import opened Prelude
  import opened Scheduler

  const QUEUE_CAP := 8
  const NCHANNELS := 16
  const FAULT_STATUS := 0xff
  const KILL_STATUS := 0x7f
  const DEFAULT_PRIORITY: Level := 128
  const SELF := TWO_64 - 1

  datatype Message = Message(opcode: nat, tag: nat, data: seq<nat>)

  datatype IpcErr = Closed | Full | BadTag | Empty

  /** What a handler run comes to: a result for its caller, or a suspended call. */
  datatype Reply =
    | Sent
    | Received(msg: Message)
    | TimedOut
    | Failed(err: IpcErr)
    | Suspended
    | BadHandle
    | Value(v: nat)
    | Refused
    | Panicked

  datatype Call =
    | NoCall
    | InSend(ch: nat, msg: Message)
    | InReceive(ch: nat)
    | InReceiveAt(ch: nat, until: nat)

  datatype Process = Process(
    state: ProcState,
    exitStatus: nat,
    prio: PriorityState,
    deadline: Option<nat>,
    call: Call)

  /** `accepted` and `delivered` record history: the messages whose sender was
      told Ok, and the messages a receiver was handed, in order. */
  datatype Channel = Channel(
    queue: seq<Message>,
    recvWaiter: Option<nat>,
    sendWaiter: Option<nat>,
    closed: bool,
    accepted: seq<Message>,
    delivered: seq<Message>)

  const NewChannel := Channel([], None, None, false, [], [])

  /** `current` is the slot TPIDR names, None while the kernel itself runs. */
  datatype State = State(
    table: seq<Option<Process>>,
    chans: seq<Channel>,
    cursor: nat,
    current: Option<nat>)

  predicate Occupied(s: State, i: nat) {
    i < |s.table| && s.table[i].Some?
  }

  predicate Alive(s: State, i: nat) {
    Occupied(s, i) && s.table[i].value.state != Exited
  }

  predicate HasState(s: State, i: nat, st: ProcState) {
    Occupied(s, i) && s.table[i].value.state == st
  }

  // ----- The process table -----

  function Put(s: State, i: nat, p: Process): State
    requires i < |s.table|
  {
    s.(table := s.table[i := Some(p)])
  }

  function Wake(s: State, id: nat): State {
    if HasState(s, id, Blocked) then Put(s, id, s.table[id].value.(state := Runnable, deadline := None)) else s
  }

  function WakeOpt(s: State, id: Option<nat>): State {
    if id.Some? then Wake(s, id.value) else s
  }

  function Priority(s: State, id: nat): Level {
    if Occupied(s, id) then s.table[id].value.prio.effective else 255
  }

  function Boost(s: State, id: nat, to: Level): State {
    if Occupied(s, id) then Put(s, id, s.table[id].value.(prio := s.table[id].value.prio.Boost(to))) else s
  }

  function Unboost(s: State, id: nat): State {
    if Occupied(s, id) then Put(s, id, s.table[id].value.(prio := s.table[id].value.prio.Unboost())) else s
  }

  function SetPriority(s: State, id: nat, to: Level): State {
    if Occupied(s, id) then Put(s, id, s.table[id].value.(prio := s.table[id].value.prio.SetBase(to))) else s
  }

  function SlotView(slot: Option<Process>): (ProcState, Level) {
    if slot.Some? then (slot.value.state, slot.value.prio.effective) else (Exited, IDLE)
  }

  function View(table: seq<Option<Process>>): (v: Slots)
    ensures |v| == |table|
    ensures forall i :: 0 <= i < |v| ==> v[i] == SlotView(table[i])
  {
    if table == [] then [] else [SlotView(table[0])] + View(table[1..])
  }

  // Some process is on CPU and the table holds it.
  predicate OnCpu(s: State) {
    s.current.Some? && Occupied(s, s.current.value)
  }

  function Demoted(s: State, demoteTo: ProcState): State
    requires OnCpu(s)
  {
    var c := s.current.value;
    if s.table[c].value.state == Running then Put(s, c, s.table[c].value.(state := demoteTo)) else s
  }

  /** `switch_out`: the new state and whether it switched. */
  ghost function SwitchOut(s: State, demoteTo: ProcState): (State, bool)
    requires s.current.Some? ==> OnCpu(s)
  {
    if s.current.None? then (s, false)
    else
      var c := s.current.value;
      var d := Demoted(s, demoteTo);
      match Pick(View(d.table), c, d.cursor)
      case None => (if demoteTo == Runnable then s else d, false)
      case Some(n) =>
        if Occupied(d, n) then (Put(d, n, d.table[n].value.(state := Running)).(cursor := n, current := Some(n)), true)
        else (d, false)
  }

  ghost function Resched(s: State): State
    requires s.current.Some? ==> OnCpu(s)
  {
    SwitchOut(s, Runnable).0
  }

  /** With nothing else Runnable the process stays Blocked and the kernel runs. */
  ghost function BlockCurrent(s: State): State
    requires s.current.Some? ==> OnCpu(s)
  {
    var (s1, switched) := SwitchOut(s, Blocked);
    if switched then s1 else s1.(current := None)
  }

  // Leave the dead process: the next Runnable one, or back to the kernel.
  ghost function LeaveDead(s: State): State
    requires OnCpu(s)
  {
    var (s1, switched) := SwitchOut(s, Runnable);
    if switched then s1 else s1.(current := None)
  }

  function CheckDeadline(slot: Option<Process>, now: nat): Option<Process> {
    if slot.Some? && slot.value.state == Blocked && slot.value.deadline.Some? && slot.value.deadline.value <= now
    then Some(slot.value.(state := Runnable, deadline := None)) else slot
  }

  function CheckDeadlines(table: seq<Option<Process>>, now: nat): (t: seq<Option<Process>>)
    ensures |t| == |table|
    ensures forall i :: 0 <= i < |t| ==> t[i] == CheckDeadline(table[i], now)
  {
    if table == [] then [] else [CheckDeadline(table[0], now)] + CheckDeadlines(table[1..], now)
  }

  // The first slot at or after `i` that is empty or Exited.
  function FindFree(table: seq<Option<Process>>, i: nat): (r: Option<nat>)
    requires i <= |table|
    ensures r.Some? ==> i <= r.value < |table| && (table[r.value].None? || table[r.value].value.state == Exited)
    decreases |table| - i
  {
    if i == |table| then None
    else if table[i].None? || table[i].value.state == Exited then Some(i)
    else FindFree(table, i + 1)
  }

  // The first slot at or after `i` in state `st`.
  function FindState(table: seq<Option<Process>>, st: ProcState, i: nat): (r: Option<nat>)
    requires i <= |table|
    ensures r.Some? ==> i <= r.value < |table| && table[r.value].Some? && table[r.value].value.state == st
    ensures r.None? ==> forall k :: i <= k < |table| && table[k].Some? ==> table[k].value.state != st
    ensures r.Some? ==> forall k :: i <= k < r.value && table[k].Some? ==> table[k].value.state != st
    decreases |table| - i
  {
    if i == |table| then None
    else if table[i].Some? && table[i].value.state == st then Some(i)
    else FindState(table, st, i + 1)
  }

  function NewProcess(prio: Level): Process {
    Process(Runnable, 0, PriorityState(prio, prio), None, NoCall)
  }

  function Install(s: State, prio: Level): (State, Option<nat>) {
    var id := FindFree(s.table, 0);
    if id.None? then (s, None) else (Put(s, id.value, NewProcess(prio)), id)
  }

  // ----- Channels -----

  function PutChan(s: State, h: nat, c: Channel): State
    requires h < |s.chans|
  {
    s.(chans := s.chans[h := c])
  }

  function EndCall(s: State): State
    requires OnCpu(s)
  {
    var me := s.current.value;
    Put(s, me, s.table[me].value.(call := NoCall))
  }

  ghost function SuspendIn(s: State, call: Call, deadline: Option<nat>): State
    requires OnCpu(s)
  {
    var me := s.current.value;
    var p := s.table[me].value;
    BlockCurrent(Put(s, me, p.(call := call, deadline := if deadline.Some? then deadline else p.deadline)))
  }

  function Close(s: State, h: nat): State
    requires h < |s.chans|
  {
    var c := s.chans[h];
    WakeOpt(WakeOpt(PutChan(s, h, c.(closed := true, recvWaiter := None, sendWaiter := None)), c.recvWaiter),
            c.sendWaiter)
  }

  predicate BlockedOn(c: Channel, id: nat) {
    c.recvWaiter == Some(id) || c.sendWaiter == Some(id)
  }

  // `close_all_for` from channel `h` on.
  function CloseAllFrom(s: State, id: nat, h: nat): State
    requires h <= |s.chans|
    decreases |s.chans| - h
  {
    if h == |s.chans| then s
    else if BlockedOn(s.chans[h], id) then CloseAllFrom(Close(s, h), id, h + 1)
    else CloseAllFrom(s, id, h + 1)
  }

  // The queue takes the message and the sender is told Ok.
  function Accept(c: Channel, msg: Message): Channel {
    c.(queue := c.queue + [msg], accepted := c.accepted + [msg])
  }

  function BoostReceiver(s: State, r: nat): State
    requires OnCpu(s)
  {
    var p := Priority(s, s.current.value);
    if p < Priority(s, r) then Boost(s, r, p) else s
  }

  /** One round of the loop in `send`, run by the process on CPU. */
  ghost function SendRound(s: State, h: nat, msg: Message): (State, Reply)
    requires OnCpu(s) && h < |s.chans|
  {
    var c := s.chans[h];
    if c.closed then (EndCall(s), Failed(Closed))
    else if c.recvWaiter.Some? then
      if |c.queue| >= QUEUE_CAP then (s, Panicked)
      else
        var s1 := BoostReceiver(PutChan(s, h, Accept(c.(recvWaiter := None), msg)), c.recvWaiter.value);
        (EndCall(Wake(s1, c.recvWaiter.value)), Sent)
    else if |c.queue| < QUEUE_CAP then
      // The re-read of send_waiter decides between "enqueued" and "must block".
      if c.sendWaiter.None? then (EndCall(PutChan(s, h, Accept(c, msg))), Sent)
      else (SuspendIn(PutChan(s, h, c.(queue := c.queue + [msg])), InSend(h, msg), None), Suspended)
    else
      (SuspendIn(PutChan(s, h, c.(sendWaiter := s.current)), InSend(h, msg), None), Suspended)
  }

  function TrySend(s: State, h: nat, msg: Message): (State, Reply)
    requires h < |s.chans|
  {
    var c := s.chans[h];
    if c.closed then (s, Failed(Closed))
    else if c.recvWaiter.Some? then
      if |c.queue| >= QUEUE_CAP then (s, Panicked)
      else (Wake(PutChan(s, h, Accept(c.(recvWaiter := None), msg)), c.recvWaiter.value), Sent)
    else if |c.queue| < QUEUE_CAP then (PutChan(s, h, Accept(c, msg)), Sent)
    else (s, Failed(Full))
  }

  // Pop the oldest message and wake a sender blocked on the full queue.
  function Deliver(s: State, h: nat): State
    requires h < |s.chans| && s.chans[h].queue != []
  {
    var c := s.chans[h];
    WakeOpt(PutChan(s, h, c.(queue := c.queue[1..], delivered := c.delivered + [c.queue[0]], sendWaiter := None)),
            c.sendWaiter)
  }

  function TryReceive(s: State, h: nat): (State, Reply)
    requires h < |s.chans|
  {
    var c := s.chans[h];
    if c.closed then (s, Failed(Closed))
    else if c.queue == [] then (s, Failed(Empty))
    else (Deliver(s, h), Received(c.queue[0]))
  }

  /** One round of the loop in `receive` (until == None) or `receive_at`. */
  ghost function ReceiveRound(s: State, h: nat, until: Option<nat>, now: nat): (State, Reply)
    requires OnCpu(s) && h < |s.chans|
  {
    var c := s.chans[h];
    if c.closed then (EndCall(s), Failed(Closed))
    else if c.queue != [] then (EndCall(Deliver(s, h)), Received(c.queue[0]))
    else if until.Some? && until.value <= now then (EndCall(s), TimedOut)
    else
      var s1 := PutChan(Unboost(s, s.current.value), h, c.(recvWaiter := s.current));
      (SuspendIn(s1, if until.Some? then InReceiveAt(h, until.value) else InReceive(h), until), Suspended)
  }

  // ----- Steps -----

  datatype Step =
    // syscalls of the process on CPU
    | SysSend(ch: nat, msg: Message)
    | SysReply(ch: nat, tag: nat, msg: Message)
    | SysReceive(ch: nat)
    | SysReceiveAt(ch: nat, until: nat, now: nat)
    | Retry(now: nat)             // back on CPU inside a suspended call
    | SysYield
    | SysExit(status: nat)
    | SysFault
    | SysKill(pid: nat)
    | SysWait(child: nat)
    | SysSpawn(prio: nat)
    | SysSetPrio(pid: nat, prio: nat)
    // interrupts and the kernel itself
    | CreateChan
    | KernelTrySend(ch: nat, msg: Message)
    | KernelTryReceive(ch: nat)
    | KernelClose(ch: nat)
    | KernelSpawn
    | KernelSetPriority(pid: nat, to: Level)
    | Tick(now: nat)
    | RunAll

  predicate IsSyscall(step: Step) {
    step.SysSend? || step.SysReply? || step.SysReceive? || step.SysReceiveAt? || step.SysYield? || step.SysExit?
    || step.SysFault? || step.SysKill? || step.SysWait? || step.SysSpawn? || step.SysSetPrio?
  }

  predicate Enabled(s: State, step: Step) {
    && (IsSyscall(step) ==> OnCpu(s) && s.table[s.current.value].value.call.NoCall?)
    && (step.Retry? ==>
          && OnCpu(s) && !s.table[s.current.value].value.call.NoCall?
          && s.table[s.current.value].value.call.ch < |s.chans|)
    && (step.Tick? ==> (s.current.Some? ==> OnCpu(s)))
    && (step.RunAll? ==> s.current.None? && FindState(s.table, Runnable, 0).Some?)
  }

  ghost function Exec(s: State, step: Step): (State, Reply)
    requires Enabled(s, step)
  {
    match step
    case SysSend(h, msg) => if h < |s.chans| then SendRound(s, h, msg) else (s, BadHandle)
    case SysReply(h, tag, msg) =>
      if h >= |s.chans| then (s, BadHandle)
      else if msg.tag != tag then (s, Failed(BadTag))
      else SendRound(s, h, msg)
    case SysReceive(h) => if h < |s.chans| then ReceiveRound(s, h, None, 0) else (s, BadHandle)
    case SysReceiveAt(h, until, now) =>
      if h < |s.chans| then ReceiveRound(s, h, Some(until), now) else (s, BadHandle)
    case Retry(now) => ExecRetry(s, s.table[s.current.value].value.call, now)
    case SysYield => (Resched(s), Value(0))
    case SysExit(status) => ExecExit(s, status)
    case SysFault => ExecFault(s)
    case SysKill(pid) => ExecKill(s, pid)
    case SysWait(child) => ExecWait(s, child)
    case SysSpawn(prio) =>
      if prio >= IDLE then (s, Refused)
      else
        var (s1, id) := Install(s, prio);
        (s1, if id.Some? then Value(id.value) else Refused)
    case SysSetPrio(pid, prio) => ExecSetPrio(s, if pid == SELF then s.current.value else pid, prio)
    case CreateChan =>
      if |s.chans| < NCHANNELS then (s.(chans := s.chans + [NewChannel]), Value(|s.chans|)) else (s, Refused)
    case KernelTrySend(h, msg) => if h < |s.chans| then TrySend(s, h, msg) else (s, BadHandle)
    case KernelTryReceive(h) => if h < |s.chans| then TryReceive(s, h) else (s, BadHandle)
    case KernelClose(h) => if h < |s.chans| then (Close(s, h), Value(0)) else (s, BadHandle)
    case KernelSpawn =>
      var (s1, id) := Install(s, DEFAULT_PRIORITY);
      (s1, if id.Some? then Value(id.value) else Panicked)
    case KernelSetPriority(pid, prio) => (SetPriority(s, pid, prio), Value(0))
    case Tick(now) =>
      var s1 := s.(table := CheckDeadlines(s.table, now));
      (Resched(s1), Value(0))
    case RunAll =>
      var n := FindState(s.table, Runnable, 0).value;
      (Put(s, n, s.table[n].value.(state := Running)).(current := Some(n)), Value(0))
  }

  // `sys_setprio`: the whole argument is compared with the idle level, its low byte is stored.
  function ExecSetPrio(s: State, id: nat, prio: nat): (State, Reply) {
    if prio == IDLE || !Occupied(s, id) then (s, Refused) else (SetPriority(s, id, prio % 256), Value(0))
  }

  ghost function ExecRetry(s: State, call: Call, now: nat): (State, Reply)
    requires OnCpu(s) && !call.NoCall? && call.ch < |s.chans|
  {
    match call
    case InSend(h, msg) => SendRound(s, h, msg)
    case InReceive(h) => ReceiveRound(s, h, None, now)
    case InReceiveAt(h, until) => ReceiveRound(s, h, Some(until), now)
  }

  // Mark `id` Exited and close the channels that name it as a waiter.
  function Bury(s: State, id: nat, status: nat): (s': State)
    requires Occupied(s, id)
  {
    CloseAllFrom(Put(s, id, s.table[id].value.(state := Exited, exitStatus := status)), id, 0)
  }

  ghost function Die(s: State, id: nat, status: nat): State
    requires OnCpu(s) && Occupied(s, id)
  {
    BuryKeepsShape(s, id, status);
    LeaveDead(Bury(s, id, status))
  }

  // `exit_current` looks for a Running slot rather than the current one.
  ghost function ExecExit(s: State, status: nat): (State, Reply)
    requires OnCpu(s)
  {
    var id := FindState(s.table, Running, 0);
    if id.None? then (s, Panicked) else (Die(s, id.value, status), Suspended)
  }

  // `fault` buries the process on CPU, which must be Running.
  ghost function ExecFault(s: State): (State, Reply)
    requires OnCpu(s)
  {
    if HasState(s, s.current.value, Running) then (Die(s, s.current.value, FAULT_STATUS), Suspended) else (s, Panicked)
  }

  function ExecKill(s: State, pid: nat): (State, Reply) {
    if Alive(s, pid) then (Bury(s, pid, KILL_STATUS), Value(0)) else (s, Refused)
  }

  // `sys_wait`: child 0 reaps any Exited slot; the slot is freed.
  function ExecWait(s: State, child: nat): (State, Reply) {
    if child != 0 && !HasState(s, child, Exited) then (s, Refused)
    else
      var id := if child == 0 then FindState(s.table, Exited, 0) else Some(child);
      if id.None? then (s, Refused)
      else (s.(table := s.table[id.value := None]), Value(s.table[id.value].value.exitStatus))
  }

  // Closing channels neither adds nor removes processes or channels.
  lemma CloseAllKeepsShape(s: State, id: nat, h: nat)
    requires h <= |s.chans|
    ensures var t := CloseAllFrom(s, id, h);
            && |t.table| == |s.table| && |t.chans| == |s.chans| && t.current == s.current && t.cursor == s.cursor
            && forall i :: 0 <= i < |s.table| ==> (t.table[i].Some? <==> s.table[i].Some?)
    decreases |s.chans| - h
  {
    if h < |s.chans| {
      if BlockedOn(s.chans[h], id) { CloseAllKeepsShape(Close(s, h), id, h + 1); }
      else { CloseAllKeepsShape(s, id, h + 1); }
    }
  }

  lemma BuryKeepsShape(s: State, id: nat, status: nat)
    requires Occupied(s, id)
    ensures var t := Bury(s, id, status);
            && |t.table| == |s.table| && |t.chans| == |s.chans| && t.current == s.current && t.cursor == s.cursor
            && forall i :: 0 <= i < |s.table| ==> (t.table[i].Some? <==> s.table[i].Some?)
  {
    CloseAllKeepsShape(Put(s, id, s.table[id].value.(state := Exited, exitStatus := status)), id, 0);
  }
}
