/** The handlers themselves, updating the process table and the channels in
    place, each proved against its step of the state machine in `Ipc`. */
module Kernel {
  import opened Prelude
  import opened Scheduler
  import opened Ipc
  import IpcInvariant

  // The slot of the k-th message from `head`.
  function SlotOf(head: nat, k: nat): (i: nat)
    ensures i < QUEUE_CAP
    ensures head < QUEUE_CAP && k < QUEUE_CAP ==> i == if head + k < QUEUE_CAP then head + k else head + k - QUEUE_CAP
  {
    (head + k) % QUEUE_CAP
  }

  // The messages of a ring of slots, oldest first.
  ghost function RingContents(slots: seq<Option<Message>>, head: nat, len: nat): (c: seq<Message>)
    requires |slots| == QUEUE_CAP
    requires forall k: nat :: k < len ==> slots[SlotOf(head, k)].Some?
    ensures |c| == len && forall k: nat :: k < len ==> c[k] == slots[SlotOf(head, k)].value
  {
    seq(len, k requires 0 <= k < len => slots[SlotOf(head, k)].value)
  }

  /** A bounded FIFO over a fixed array of slots. */
  class BoundedQueue {
    const slots: array<Option<Message>>
    var head: nat
    var len: nat

    ghost predicate Valid()
      reads this, slots
    {
      && slots.Length == QUEUE_CAP && head < QUEUE_CAP && len <= QUEUE_CAP
      && forall k: nat :: k < QUEUE_CAP ==> (slots[SlotOf(head, k)].Some? <==> k < len)
    }

    ghost function Contents(): (c: seq<Message>)
      requires Valid()
      reads this, slots
      ensures |c| == len
    {
      RingContents(slots[..], head, len)
    }

    constructor ()
      ensures Valid() && Contents() == [] && fresh(slots)
    {
      slots := new Option<Message>[QUEUE_CAP](_ => None);
      head, len := 0, 0;
    }

    method Push(msg: Message) returns (ok: bool)
      requires Valid()
      modifies this, slots
      ensures Valid()
      ensures ok == (|old(Contents())| < QUEUE_CAP)
      ensures Contents() == if ok then old(Contents()) + [msg] else old(Contents())
    {
      if len == QUEUE_CAP { return false; }
      var tail := SlotOf(head, len);
      slots[tail] := Some(msg);
      len := len + 1;
      return true;
    }

    method Pop() returns (msg: Option<Message>)
      requires Valid()
      modifies this, slots
      ensures Valid()
      ensures msg == if old(Contents()) == [] then None else Some(old(Contents())[0])
      ensures Contents() == if msg.None? then old(Contents()) else old(Contents())[1..]
    {
      msg := slots[head];
      assert SlotOf(head, 0) == head;
      if msg.None? { return; }
      slots[head] := None;
      ghost var h := head;
      head := (head + 1) % QUEUE_CAP;
      len := len - 1;
      assert forall k: nat :: k < QUEUE_CAP - 1 ==> SlotOf(head, k) == SlotOf(h, k + 1);
      assert SlotOf(head, QUEUE_CAP - 1) == h;
    }
  }

  // `send` with no receiver recorded, in the order the handler does it.
  lemma SlowSend(s: State, h: nat, msg: Message)
    requires IpcInvariant.Inv(s) && OnCpu(s) && h < |s.chans|
    requires !s.chans[h].closed && s.chans[h].recvWaiter.None?
    ensures var c := s.chans[h].(recvWaiter := None); var ok := |c.queue| < QUEUE_CAP;
            var s1 := PutChan(s, h, if ok then Accept(c, msg) else c);
            && (s1.chans[h].sendWaiter.Some? ==> !ok)
            && SendRound(s, h, msg) ==
                 if ok then (EndCall(s1), Sent)
                 else (SuspendIn(PutChan(s1, h, s1.chans[h].(sendWaiter := s1.current)), InSend(h, msg), None),
                       Suspended)
  {
    assert IpcInvariant.ChanOkBut(s, h, None);
    var c := s.chans[h];
    if |c.queue| >= QUEUE_CAP {
      var s1 := PutChan(s, h, c);
      assert s1.chans == s.chans;
    }
  }

  /** A channel: its queue, its two waiter slots and its close flag. */
  class ChannelCell {
    const queue: BoundedQueue
    var recvWaiter: Option<nat>
    var sendWaiter: Option<nat>
    var closed: bool
    ghost var accepted: seq<Message>
    ghost var delivered: seq<Message>

    ghost predicate Valid()
      reads this, queue, queue.slots
    {
      queue.Valid()
    }

    ghost function Abs(): Channel
      requires Valid()
      reads this, queue, queue.slots
    {
      Channel(queue.Contents(), recvWaiter, sendWaiter, closed, accepted, delivered)
    }

    constructor ()
      ensures Valid() && Abs() == NewChannel && fresh(queue) && fresh(queue.slots)
    {
      queue := new BoundedQueue();
      recvWaiter, sendWaiter, closed := None, None, false;
      accepted, delivered := [], [];
    }
  }

  /** The process table, the scan cursor and TPIDR.  Each handler takes the
      channels' abstract state along, which it leaves alone. */
  class ProcTable {
    const table: array<Option<Process>>
    var cursor: nat
    var current: Option<nat>

    ghost function Abs(cs: seq<Channel>): State
      reads this, table
    {
      State(table[..], cs, cursor, current)
    }

    constructor (n: nat)
      ensures fresh(table) && table.Length == n && cursor == 0 && current.None?
      ensures forall i :: 0 <= i < n ==> table[i].None?
    {
      table := new Option<Process>[n](_ => None);
      cursor, current := 0, None;
    }

    method SetSlot(i: nat, p: Process, ghost cs: seq<Channel>)
      requires i < table.Length
      modifies table
      ensures Abs(cs) == Put(old(Abs(cs)), i, p)
    {
      table[i] := Some(p);
    }

    method Wake(id: nat, ghost cs: seq<Channel>)
      modifies table
      ensures Abs(cs) == Ipc.Wake(old(Abs(cs)), id)
    {
      if id < table.Length && table[id].Some? && table[id].value.state == Blocked {
        SetSlot(id, table[id].value.(state := Runnable, deadline := None), cs);
      }
    }

    method Boost(id: nat, to: Level, ghost cs: seq<Channel>)
      modifies table
      ensures Abs(cs) == Ipc.Boost(old(Abs(cs)), id, to)
    {
      if id < table.Length && table[id].Some? {
        SetSlot(id, table[id].value.(prio := table[id].value.prio.Boost(to)), cs);
      }
    }

    method Unboost(id: nat, ghost cs: seq<Channel>)
      modifies table
      ensures Abs(cs) == Ipc.Unboost(old(Abs(cs)), id)
    {
      if id < table.Length && table[id].Some? {
        SetSlot(id, table[id].value.(prio := table[id].value.prio.Unboost()), cs);
      }
    }

    /** The slot's base becomes `to` and it runs at the more urgent of `to` and the
        level it ran at; nothing else of it changes, nor any other slot. */
    method SetPriority(id: nat, to: Level, ghost cs: seq<Channel>)
      modifies table
      ensures Abs(cs) == Ipc.SetPriority(old(Abs(cs)), id, to)
      ensures forall i :: 0 <= i < table.Length && (i != id || old(table[i]).None?) ==> table[i] == old(table[i])
      ensures id < table.Length && old(table[id]).Some? ==>
        var was := old(table[id]).value;
        table[id] == Some(was.(prio := PriorityState(to, if was.prio.effective < to then was.prio.effective else to)))
    {
      ghost var before := Abs(cs);
      if id < table.Length && table[id].Some? {
        var prio := table[id].value.prio.(base := to);
        if !prio.IsBoosted() { prio := prio.(effective := to); }
        SetSlot(id, table[id].value.(prio := prio), cs);
        assert table[..] == before.table[id := table[id]];
      }
    }

    method EffectivePriority(id: nat, ghost cs: seq<Channel>) returns (p: Level)
      ensures p == Ipc.Priority(Abs(cs), id)
    {
      p := if id < table.Length && table[id].Some? then table[id].value.prio.effective else 255;
    }

    method CheckDeadlines(now: nat)
      modifies table
      ensures table[..] == Ipc.CheckDeadlines(old(table[..]), now)
    {
      for i := 0 to table.Length
        invariant forall k :: 0 <= k < i ==> table[k] == Ipc.CheckDeadline(old(table[k]), now)
        invariant forall k :: i <= k < table.Length ==> table[k] == old(table[k])
      {
        if table[i].Some? {
          var p := table[i].value;
          if p.state == Blocked && p.deadline.Some? && p.deadline.value <= now {
            table[i] := Some(p.(state := Runnable, deadline := None));
          }
        }
      }
    }

    // The per-slot (state, effective priority) view that selection works on.
    method Snapshot() returns (slots: Slots)
      ensures slots == View(table[..])
    {
      slots := [];
      for i := 0 to table.Length
        invariant |slots| == i && forall k :: 0 <= k < i ==> slots[k] == SlotView(table[k])
      {
        slots := slots + [match table[i] case Some(p) => (p.state, p.prio.effective) case None => (Exited, IDLE)];
      }
      assert slots == View(table[..]);
    }

    // Take the process on CPU off it, unless it is already marked Exited.
    method Demote(demoteTo: ProcState, ghost cs: seq<Channel>) returns (demoted: bool)
      requires OnCpu(Abs(cs))
      modifies table
      ensures Abs(cs) == Demoted(old(Abs(cs)), demoteTo)
      ensures demoted == (old(table[current.value].value.state) == Running)
    {
      var c := current.value;
      demoted := table[c].value.state == Running;
      if demoted { SetSlot(c, table[c].value.(state := demoteTo), cs); }
    }

    method SelectNext(c: nat) returns (next: Option<nat>)
      ensures next == Pick(View(table[..]), c, cursor)
      ensures next.Some? ==> next.value < table.Length && table[next.value].Some?
    {
      var slots := Snapshot();
      next := PickNext(slots, c, cursor);
      if next.Some? { assert slots[next.value] == SlotView(table[next.value]); }
    }

    method SwitchOut(demoteTo: ProcState, ghost cs: seq<Channel>) returns (switched: bool)
      requires current.Some? ==> OnCpu(Abs(cs))
      requires demoteTo == Runnable || demoteTo == Blocked
      modifies this, table
      ensures Abs(cs) == Ipc.SwitchOut(old(Abs(cs)), demoteTo).0
      ensures switched == Ipc.SwitchOut(old(Abs(cs)), demoteTo).1
    {
      if current.None? { return false; }
      var c := current.value;
      var demoted := Demote(demoteTo, cs);
      var next := SelectNext(c);
      if next.Some? {
        SetSlot(next.value, table[next.value].value.(state := Running), cs);
        cursor := next.value;
        current := next;
        return true;
      }
      if demoted && demoteTo == Runnable {
        SetSlot(c, table[c].value.(state := Running), cs);
        assert table[..] == old(table[..]);
      }
      return false;
    }

    method Resched(ghost cs: seq<Channel>) returns (switched: bool)
      requires current.Some? ==> OnCpu(Abs(cs))
      modifies this, table
      ensures Abs(cs) == Ipc.SwitchOut(old(Abs(cs)), Runnable).0
      ensures switched == Ipc.SwitchOut(old(Abs(cs)), Runnable).1
    {
      switched := SwitchOut(Runnable, cs);
    }

    method BlockCurrent(ghost cs: seq<Channel>)
      requires current.Some? ==> OnCpu(Abs(cs))
      modifies this, table
      ensures Abs(cs) == Ipc.BlockCurrent(old(Abs(cs)))
    {
      var switched := SwitchOut(Blocked, cs);
      if !switched { current := None; }
    }

    // Suspend the process on CPU in `call`, with a wake deadline if it has one.
    method SuspendIn(call: Call, deadline: Option<nat>, ghost cs: seq<Channel>)
      requires OnCpu(Abs(cs))
      modifies this, table
      ensures Abs(cs) == Ipc.SuspendIn(old(Abs(cs)), call, deadline)
    {
      var me := current.value;
      var p := table[me].value;
      SetSlot(me, p.(call := call, deadline := if deadline.Some? then deadline else p.deadline), cs);
      BlockCurrent(cs);
    }

    method EndCall(ghost cs: seq<Channel>)
      requires OnCpu(Abs(cs))
      modifies table
      ensures Abs(cs) == Ipc.EndCall(old(Abs(cs)))
    {
      SetSlot(current.value, table[current.value].value.(call := NoCall), cs);
    }

    // Leave a process just marked Exited.
    method LeaveDead(ghost cs: seq<Channel>)
      requires OnCpu(Abs(cs))
      modifies this, table
      ensures Abs(cs) == Ipc.LeaveDead(old(Abs(cs)))
    {
      var switched := Resched(cs);
      if !switched { current := None; }
    }

    method Tick(now: nat, ghost cs: seq<Channel>)
      requires current.Some? ==> OnCpu(Abs(cs))
      modifies this, table
      ensures Abs(cs) == Exec(old(Abs(cs)), Step.Tick(now)).0
    {
      CheckDeadlines(now);
      if current.None? { return; }
      var _ := Resched(cs);
    }

    method TryInstall(prio: Level, ghost cs: seq<Channel>) returns (id: Option<nat>)
      modifies table
      ensures Abs(cs) == Install(old(Abs(cs)), prio).0 && id == Install(old(Abs(cs)), prio).1
    {
      var i := 0;
      while i < table.Length && table[i].Some? && table[i].value.state != Exited
        invariant i <= table.Length && FindFree(table[..], 0) == FindFree(table[..], i)
      {
        i := i + 1;
      }
      if i == table.Length { return None; }
      SetSlot(i, Process(Runnable, 0, PriorityState(prio, prio), None, NoCall), cs);
      return Some(i);
    }

    // The first slot in state `st`.
    method Search(st: ProcState) returns (r: Option<nat>)
      ensures r == FindState(table[..], st, 0)
    {
      var i := 0;
      while i < table.Length
        invariant i <= table.Length && FindState(table[..], st, 0) == FindState(table[..], st, i)
      {
        if table[i].Some? && table[i].value.state == st { return Some(i); }
        i := i + 1;
      }
      return None;
    }

    method RunAll(ghost cs: seq<Channel>)
      requires Enabled(Abs(cs), Step.RunAll)
      modifies this, table
      ensures Abs(cs) == Exec(old(Abs(cs)), Step.RunAll).0
    {
      var first := Search(Runnable);
      var n := first.value;
      SetSlot(n, table[n].value.(state := Running), cs);
      current := Some(n);
    }

    method SysWait(child: nat, ghost cs: seq<Channel>) returns (reply: Reply)
      modifies table
      ensures Abs(cs) == ExecWait(old(Abs(cs)), child).0 && reply == ExecWait(old(Abs(cs)), child).1
    {
      if child != 0 && (child >= table.Length || !(table[child].Some? && table[child].value.state == Exited)) {
        return Refused;
      }
      var id: Option<nat> := Some(child);
      if child == 0 { id := Search(Exited); }
      if id.None? { return Refused; }
      reply := Value(table[id.value].value.exitStatus);
      table[id.value] := None;
    }
  }

  /** The whole machine: the process table and the table of channels. */
  class Machine {
    const procs: ProcTable
    const channels: seq<ChannelCell>
    var nused: nat

    // The objects the channels are made of.
    ghost const memory: set<object>

    ghost predicate CellOk(i: nat)
      requires i < |channels|
      reads this, memory
    {
      var c := channels[i];
      && c in memory && c.queue in memory && c.queue.slots in memory
      && c.Valid() && (nused <= i ==> c.Abs() == NewChannel)
    }

    // Two channels share no memory.
    ghost predicate Apart(i: nat, j: nat)
      requires i < |channels| && j < |channels|
    {
      i != j ==>
        && channels[i] != channels[j]
        && channels[i].queue != channels[j].queue
        && channels[i].queue.slots != channels[j].queue.slots
    }

    ghost predicate Valid()
      reads this, memory
    {
      && |channels| == NCHANNELS && nused <= NCHANNELS
      && this !in memory && procs !in memory && procs.table !in memory
      && (forall i: nat, j: nat :: i < |channels| && j < |channels| ==> Apart(i, j))
      && (forall i: nat :: i < |channels| ==> CellOk(i))
    }

    ghost function ChanAt(i: nat): Channel
      requires Valid() && i < |channels|
      reads this, memory
    {
      assert CellOk(i);
      channels[i].Abs()
    }

    ghost function Chans(): (cs: seq<Channel>)
      requires Valid()
      reads this, memory
      ensures |cs| == nused && forall i :: 0 <= i < nused ==> cs[i] == ChanAt(i)
    {
      seq(nused, i requires 0 <= i < nused && Valid() reads this, memory => ChanAt(i))
    }

    ghost function Abs(): State
      requires Valid()
      reads this, procs, procs.table, memory
    {
      procs.Abs(Chans())
    }

    // A change confined to channel `h` shows in the abstract state as such.
    twostate lemma OnlyChannel(h: nat)
      requires old(Valid()) && h < nused && unchanged(this)
      requires channels[h].Valid()
      requires forall x: object :: x in memory && old(allocated(x)) ==>
                 x == channels[h] || x == channels[h].queue || x == channels[h].queue.slots || unchanged(x)
      ensures Valid() && Chans() == old(Chans())[h := channels[h].Abs()]
    {
      forall i: nat | i < |channels|
        ensures CellOk(i) && old(CellOk(i)) && (i != h ==> channels[i].Abs() == old(channels[i].Abs()))
      {
        assert old(CellOk(i));
        assert Apart(i, h);
      }
    }

    /** `nprocs` empty slots, every channel unused, the kernel running. */
    constructor (nprocs: nat)
      ensures Valid() && Abs().chans == [] && Abs().current.None? && Abs().cursor == 0
      ensures |Abs().table| == nprocs && forall i :: 0 <= i < nprocs ==> Abs().table[i].None?
    {
      var p := new ProcTable(nprocs);
      var cs: seq<ChannelCell> := [];
      ghost var mem: set<object> := {};
      while |cs| < NCHANNELS
        invariant |cs| <= NCHANNELS && p !in mem && p.table !in mem && fresh(mem)
        invariant forall c :: c in cs ==> c.Valid() && c.Abs() == NewChannel
        invariant forall c :: c in cs ==> c in mem && c.queue in mem && c.queue.slots in mem
        invariant forall i, j :: 0 <= i < j < |cs| ==>
                    cs[i] != cs[j] && cs[i].queue != cs[j].queue && cs[i].queue.slots != cs[j].queue.slots
        invariant forall i :: 0 <= i < p.table.Length ==> p.table[i].None?
        invariant p.cursor == 0 && p.current.None?
      {
        var c := new ChannelCell();
        mem := mem + {c, c.queue, c.queue.slots};
        cs := cs + [c];
      }
      procs, channels, nused, memory := p, cs, 0, mem;
      new;
      forall i: nat | i < |channels| ensures CellOk(i) { assert channels[i] in cs; }
      forall i: nat, j: nat | i < |channels| && j < |channels| ensures Apart(i, j) {}
    }

    method Wake(id: Option<nat>)
      requires Valid()
      modifies procs.table
      ensures Valid() && Abs() == WakeOpt(old(Abs()), id)
    {
      if id.Some? { procs.Wake(id.value, Chans()); }
    }

    // Mark the channel closed and take both waiters.
    method Shut(h: nat) returns (recv: Option<nat>, sendw: Option<nat>)
      requires Valid() && h < nused
      modifies memory
      ensures Valid() && recv == old(Abs()).chans[h].recvWaiter && sendw == old(Abs()).chans[h].sendWaiter
      ensures var c := old(Abs()).chans[h];
              Abs() == PutChan(old(Abs()), h, c.(closed := true, recvWaiter := None, sendWaiter := None))
    {
      assert CellOk(h);
      var ch := channels[h];
      recv, sendw := ch.recvWaiter, ch.sendWaiter;
      ch.closed := true;
      ch.recvWaiter, ch.sendWaiter := None, None;
      OnlyChannel(h);
    }

    method Close(h: nat)
      requires Valid() && h < nused
      modifies procs.table, memory
      ensures Valid() && Abs() == Ipc.Close(old(Abs()), h)
    {
      var recv, sendw := Shut(h);
      Wake(recv);
      Wake(sendw);
    }

    method CloseIfNamed(h: nat, id: nat)
      requires Valid() && h < nused
      modifies procs.table, memory
      ensures Valid() && Abs() == if BlockedOn(old(Abs()).chans[h], id) then Ipc.Close(old(Abs()), h) else old(Abs())
    {
      assert CellOk(h);
      if channels[h].recvWaiter == Some(id) || channels[h].sendWaiter == Some(id) { Close(h); }
    }

    method CloseAllFor(id: nat)
      requires Valid()
      modifies procs.table, memory
      ensures Valid() && Abs() == CloseAllFrom(old(Abs()), id, 0)
    {
      var h := 0;
      while h < nused
        invariant Valid() && h <= nused == |Abs().chans|
        invariant CloseAllFrom(Abs(), id, h) == CloseAllFrom(old(Abs()), id, 0)
        decreases nused - h
      {
        ghost var s := Abs();
        CloseIfNamed(h, id);
        assert CloseAllFrom(s, id, h) == CloseAllFrom(Abs(), id, h + 1);
        h := h + 1;
      }
    }

    // Mark a process Exited and close the channels that name it.
    method Bury(id: nat, status: nat)
      requires Valid() && Occupied(Abs(), id)
      modifies procs.table, memory
      ensures Valid() && Abs() == Ipc.Bury(old(Abs()), id, status)
    {
      procs.SetSlot(id, procs.table[id].value.(state := Exited, exitStatus := status), Chans());
      CloseAllFor(id);
    }

    method SysKill(pid: nat) returns (reply: Reply)
      requires Valid()
      modifies procs.table, memory
      ensures Valid() && Abs() == ExecKill(old(Abs()), pid).0 && reply == ExecKill(old(Abs()), pid).1
    {
      if pid < procs.table.Length && procs.table[pid].Some? && procs.table[pid].value.state != Exited {
        Bury(pid, KILL_STATUS);
        return Value(0);
      }
      return Refused;
    }

    method ExitCurrent(status: nat) returns (reply: Reply)
      requires Valid() && OnCpu(Abs())
      modifies procs, procs.table, memory
      ensures Valid() && Abs() == ExecExit(old(Abs()), status).0 && reply == ExecExit(old(Abs()), status).1
    {
      var found := procs.Search(Running);
      if found.None? { return Panicked; }
      BuryKeepsShape(Abs(), found.value, status);
      Bury(found.value, status);
      procs.LeaveDead(Chans());
      return Suspended;
    }

    method Fault() returns (reply: Reply)
      requires Valid() && OnCpu(Abs())
      modifies procs, procs.table, memory
      ensures Valid() && Abs() == ExecFault(old(Abs())).0 && reply == ExecFault(old(Abs())).1
    {
      var id := procs.current.value;
      if procs.table[id].value.state != Running { return Panicked; }
      BuryKeepsShape(Abs(), id, FAULT_STATUS);
      Bury(id, FAULT_STATUS);
      procs.LeaveDead(Chans());
      return Suspended;
    }

    // Take the recorded receiver, if any, and push; an Ok push is an accepted one.
    method Enqueue(h: nat, msg: Message) returns (receiver: Option<nat>, ok: bool)
      requires Valid() && h < nused
      modifies memory
      ensures Valid() && receiver == old(Abs()).chans[h].recvWaiter
      ensures ok == (|old(Abs()).chans[h].queue| < QUEUE_CAP)
      ensures var c := old(Abs()).chans[h].(recvWaiter := None);
              Abs() == PutChan(old(Abs()), h, if ok then Accept(c, msg) else c)
    {
      assert CellOk(h);
      var ch := channels[h];
      receiver := ch.recvWaiter;
      ch.recvWaiter := None;
      ok := ch.queue.Push(msg);
      if ok { ch.accepted := ch.accepted + [msg]; }
      OnlyChannel(h);
    }

    method IsClosed(h: nat) returns (closed: bool)
      requires Valid() && h < nused
      ensures closed == Abs().chans[h].closed
    {
      assert CellOk(h);
      closed := channels[h].closed;
    }

    method TrySend(h: nat, msg: Message) returns (reply: Reply)
      requires Valid() && h < nused && IpcInvariant.Inv(Abs())
      modifies procs.table, memory
      ensures Valid() && Abs() == Ipc.TrySend(old(Abs()), h, msg).0 && reply == Ipc.TrySend(old(Abs()), h, msg).1
    {
      assert IpcInvariant.ChanOkBut(Abs(), h, None);
      var closed := IsClosed(h);
      if closed { return Failed(Closed); }
      var receiver, ok := Enqueue(h, msg);
      if receiver.None? && !ok { return Failed(Full); }
      assert ok;  // the source's debug_assert
      Wake(receiver);
      return Sent;
    }

    // Pop the oldest message and take the sender blocked on the full queue.
    method Dequeue(h: nat) returns (msg: Option<Message>, sendw: Option<nat>)
      requires Valid() && h < nused
      modifies memory
      ensures Valid()
      ensures var c := old(Abs()).chans[h];
              if c.queue == [] then msg.None? && sendw.None? && Abs() == old(Abs())
              else && msg == Some(c.queue[0]) && sendw == c.sendWaiter
                   && Abs() == PutChan(old(Abs()), h, c.(queue := c.queue[1..], delivered := c.delivered + [c.queue[0]],
                                                         sendWaiter := None))
    {
      assert CellOk(h);
      var ch := channels[h];
      msg := ch.queue.Pop();
      sendw := None;
      if msg.Some? {
        sendw := ch.sendWaiter;
        ch.sendWaiter := None;
        ch.delivered := ch.delivered + [msg.value];
      }
      OnlyChannel(h);
    }

    method TryReceive(h: nat) returns (reply: Reply)
      requires Valid() && h < nused
      modifies procs.table, memory
      ensures Valid() && Abs() == Ipc.TryReceive(old(Abs()), h).0 && reply == Ipc.TryReceive(old(Abs()), h).1
    {
      var closed := IsClosed(h);
      if closed { return Failed(Closed); }
      var msg, sendw := Dequeue(h);
      if msg.None? { return Failed(Empty); }
      Wake(sendw);
      return Received(msg.value);
    }

    method RecordWaiter(h: nat, sending: bool)
      requires Valid() && h < nused
      modifies memory
      ensures Valid()
      ensures var c := old(Abs()).chans[h];
              Abs() == PutChan(old(Abs()), h,
                               if sending then c.(sendWaiter := procs.current) else c.(recvWaiter := procs.current))
    {
      assert CellOk(h);
      if sending { channels[h].sendWaiter := procs.current; } else { channels[h].recvWaiter := procs.current; }
      OnlyChannel(h);
    }

    // Priority inheritance: raise a receiver the sender outranks.
    method BoostReceiver(r: nat)
      requires Valid() && OnCpu(Abs())
      modifies procs.table
      ensures Valid() && Abs() == Ipc.BoostReceiver(old(Abs()), r)
    {
      ghost var cs := Chans();
      var mine := procs.EffectivePriority(procs.current.value, cs);
      var theirs := procs.EffectivePriority(r, cs);
      if mine < theirs { procs.Boost(r, mine, cs); }
    }

    method EndCall()
      requires Valid() && OnCpu(Abs())
      modifies procs.table
      ensures Valid() && Abs() == Ipc.EndCall(old(Abs()))
    {
      procs.EndCall(Chans());
    }

    method SuspendIn(call: Call, deadline: Option<nat>)
      requires Valid() && OnCpu(Abs())
      modifies procs, procs.table
      ensures Valid() && Abs() == Ipc.SuspendIn(old(Abs()), call, deadline)
    {
      procs.SuspendIn(call, deadline, Chans());
    }

    method SendWaiterRecorded(h: nat) returns (b: bool)
      requires Valid() && h < nused
      ensures b == Abs().chans[h].sendWaiter.Some?
    {
      assert CellOk(h);
      b := channels[h].sendWaiter.Some?;
    }

    method WakeReceiver(r: nat)
      requires Valid() && OnCpu(Abs())
      modifies procs.table
      ensures Valid() && Abs() == Ipc.EndCall(Ipc.Wake(Ipc.BoostReceiver(old(Abs()), r), r))
    {
      BoostReceiver(r);
      Wake(Some(r));
      EndCall();
    }

    // No receiver was recorded: a sender that could not push records itself,
    // and the re-read of `send_waiter` decides between Ok and blocking.
    method SettleSend(h: nat, msg: Message, pushed: bool) returns (reply: Reply)
      requires Valid() && h < nused && OnCpu(Abs())
      modifies procs, procs.table, memory
      ensures Valid()
      ensures var s := old(Abs()); var c := s.chans[h];
              if pushed && c.sendWaiter.None? then Abs() == Ipc.EndCall(s) && reply == Sent
              else && reply == Suspended
                   && Abs() == Ipc.SuspendIn(if pushed then s else PutChan(s, h, c.(sendWaiter := s.current)),
                                             InSend(h, msg), None)
    {
      if !pushed { RecordWaiter(h, true); }
      var blocked := SendWaiterRecorded(h);
      if !blocked {
        EndCall();
        return Sent;
      }
      SuspendIn(InSend(h, msg), None);
      return Suspended;
    }

    /** One round of `send`: the push, the hand-over to a recorded receiver, or
        the block, told apart by re-reading `send_waiter`. */
    method SendRound(h: nat, msg: Message) returns (reply: Reply)
      requires Valid() && h < nused && OnCpu(Abs()) && IpcInvariant.Inv(Abs())
      modifies procs, procs.table, memory
      ensures Valid() && Abs() == Ipc.SendRound(old(Abs()), h, msg).0 && reply == Ipc.SendRound(old(Abs()), h, msg).1
    {
      assert IpcInvariant.ChanOkBut(Abs(), h, None);
      var closed := IsClosed(h);
      if closed {
        EndCall();
        return Failed(Closed);
      }
      ghost var s := Abs();
      var receiver, ok := Enqueue(h, msg);
      if receiver.Some? {
        assert ok;  // the source's debug_assert
        WakeReceiver(receiver.value);
        return Sent;
      }
      SlowSend(s, h, msg);
      reply := SettleSend(h, msg, ok);
    }

    method BlockReceiver(h: nat, until: Option<nat>)
      requires Valid() && h < nused && OnCpu(Abs())
      modifies procs, procs.table, memory
      ensures Valid()
      ensures var s := old(Abs());
              var s1 := PutChan(Ipc.Unboost(s, s.current.value), h, s.chans[h].(recvWaiter := s.current));
              Abs() == Ipc.SuspendIn(s1, if until.Some? then InReceiveAt(h, until.value) else InReceive(h), until)
    {
      Unboost();
      RecordWaiter(h, false);
      SuspendIn(if until.Some? then InReceiveAt(h, until.value) else InReceive(h), until);
    }

    method Unboost()
      requires Valid() && OnCpu(Abs())
      modifies procs.table
      ensures Valid() && Abs() == Ipc.Unboost(old(Abs()), procs.current.value)
    {
      procs.Unboost(procs.current.value, Chans());
    }

    method FinishReceive(sendw: Option<nat>)
      requires Valid() && OnCpu(Abs())
      modifies procs.table
      ensures Valid() && Abs() == Ipc.EndCall(WakeOpt(old(Abs()), sendw))
    {
      Wake(sendw);
      EndCall();
    }

    /** One round of `receive` (until == None) or `receive_at`. */
    method ReceiveRound(h: nat, until: Option<nat>, now: nat) returns (reply: Reply)
      requires Valid() && h < nused && OnCpu(Abs())
      modifies procs, procs.table, memory
      ensures Valid() && Abs() == Ipc.ReceiveRound(old(Abs()), h, until, now).0
      ensures reply == Ipc.ReceiveRound(old(Abs()), h, until, now).1
    {
      var closed := IsClosed(h);
      if closed {
        EndCall();
        return Failed(Closed);
      }
      var msg, sendw := Dequeue(h);
      if msg.Some? {
        FinishReceive(sendw);
        return Received(msg.value);
      }
      if until.Some? && now >= until.value {
        EndCall();
        return TimedOut;
      }
      BlockReceiver(h, until);
      return Suspended;
    }

    method CreateChan() returns (h: Option<nat>)
      requires Valid()
      modifies this
      ensures Valid() && h == if old(nused) < NCHANNELS then Some(old(nused)) else None
      ensures Abs() == if h.Some? then old(Abs()).(chans := old(Abs()).chans + [NewChannel]) else old(Abs())
    {
      if nused == NCHANNELS { return None; }
      h := Some(nused);
      nused := nused + 1;
      forall i: nat | i < |channels|
        ensures CellOk(i) && old(CellOk(i)) && channels[i].Abs() == old(channels[i].Abs())
      {
        assert old(CellOk(i));
      }
      assert Chans() == old(Chans()) + [NewChannel];
    }
  }
}
