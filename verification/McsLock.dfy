/** The MCS queue lock (port/src/mcslock.rs), as a transition system.

    Any number of threads run `lock` and `unlock`; every atomic load, store,
    swap and compare-exchange of the source is one step, and steps of different
    threads interleave freely.  A node that no thread owns may be passed to
    `lock` at once, by any thread, whatever it still holds in memory. */
module McsLock {
  import opened Prelude

  type Thread = nat
  type Node = nat

  /** The next atomic operation a thread will perform, with its locals. */
  datatype Pc =
    | Idle
    | ClearNext(node: Node)
    | ClearLocked(node: Node)
    | Swap(node: Node)
    | SetLocked(node: Node, pred: Node)
    | Link(node: Node, pred: Node)
    | Spin(node: Node)
    | Critical(node: Node)
    | TryCas(node: Node)
    | AwaitNext(node: Node)
    | ReadNext(node: Node)
    | HandOff(node: Node, succ: Node)
    | NullDeref(node: Node)   // dereferenced a null successor

  /** Shared memory and program counters; the last four fields only record
      history: who is between swap and release, and every swap, acquisition
      and release so far. */
  datatype State = State(
    queue: Option<Node>,
    next: map<Node, Option<Node>>,
    locked: map<Node, bool>,
    pc: map<Thread, Pc>,
    order: seq<Thread>,
    swaps: seq<Thread>,
    grants: seq<Thread>,
    released: seq<Thread>)

  datatype Step =
    | Enter(t: Thread, n: Node)  // call lock(n)
    | Run(t: Thread)             // the next atomic operation of t
    | WeakFail(t: Thread)        // compare_exchange_weak fails spuriously

  const Init := State(None, map[], map[], map[], [], [], [], [])

  // A node never written is as LockNode::new left it.
  function NextOf(s: State, n: Node): Option<Node> {
    if n in s.next then s.next[n] else None
  }

  function LockedOf(s: State, n: Node): bool {
    n in s.locked && s.locked[n]
  }

  function PcOf(s: State, t: Thread): Pc {
    if t in s.pc then s.pc[t] else Idle
  }

  predicate Owns(s: State, t: Thread, n: Node) {
    !PcOf(s, t).Idle? && PcOf(s, t).node == n
  }

  ghost predicate Unowned(s: State, n: Node) {
    forall t: Thread :: !Owns(s, t, n)
  }

  ghost predicate Enabled(s: State, step: Step) {
    match step
    case Enter(t, n) => PcOf(s, t).Idle? && Unowned(s, n)
    case Run(t) => !PcOf(s, t).Idle?
    case WeakFail(t) => PcOf(s, t).TryCas?
  }

  function Goto(s: State, t: Thread, pc: Pc): State {
    s.(pc := s.pc[t := pc])
  }

  function Acquire(s: State, t: Thread, n: Node): State {
    Goto(s, t, Critical(n)).(grants := s.grants + [t])
  }

  function Release(s: State, t: Thread): State {
    Goto(s, t, Idle).(order := if s.order == [] then [] else s.order[1..], released := s.released + [t])
  }

  function Exec(s: State, step: Step): State {
    match step
    case Enter(t, n) => Goto(s, t, ClearNext(n))
    case Run(t) => ExecPc(s, t, PcOf(s, t))
    case WeakFail(t) => if PcOf(s, t).TryCas? then Goto(s, t, AwaitNext(PcOf(s, t).node)) else s
  }

  function ExecPc(s: State, t: Thread, pc: Pc): State {
    match pc
    case Idle => s
    // lock
    case ClearNext(n) => Goto(s, t, ClearLocked(n)).(next := s.next[n := None])
    case ClearLocked(n) => Goto(s, t, Swap(n)).(locked := s.locked[n := false])
    case Swap(n) =>
      var s1 := s.(queue := Some(n), order := s.order + [t], swaps := s.swaps + [t]);
      if s.queue.None? then Acquire(s1, t, n) else Goto(s1, t, SetLocked(n, s.queue.value))
    case SetLocked(n, p) => Goto(s, t, Link(n, p)).(locked := s.locked[n := true])
    case Link(n, p) => Goto(s, t, Spin(n)).(next := s.next[p := Some(n)])
    case Spin(n) => if LockedOf(s, n) then s else Acquire(s, t, n)
    // unlock
    case Critical(n) => Goto(s, t, if NextOf(s, n).None? then TryCas(n) else ReadNext(n))
    case TryCas(n) =>
      if s.queue == Some(n) then Release(s, t).(queue := None) else Goto(s, t, AwaitNext(n))
    case AwaitNext(n) => if NextOf(s, n).None? then s else Goto(s, t, ReadNext(n))
    case ReadNext(n) =>
      Goto(s, t, if NextOf(s, n).Some? then HandOff(n, NextOf(s, n).value) else NullDeref(n))
    case HandOff(n, m) => Release(s, t).(locked := s.locked[m := false])
    case NullDeref(n) => s
  }

  // `steps` takes `s` to `s'`, each step enabled when it is taken.
  ghost predicate Runs(s: State, steps: seq<Step>, s': State)
    decreases |steps|
  {
    if steps == [] then s == s'
    else Enabled(s, steps[0]) && Runs(Exec(s, steps[0]), steps[1..], s')
  }

  ghost predicate Reachable(s: State) {
    exists steps :: Runs(Init, steps, s)
  }

  // ----- The invariant -----

  predicate Holding(pc: Pc) {
    pc.Critical? || pc.TryCas? || pc.AwaitNext? || pc.ReadNext? || pc.HandOff?
  }

  predicate Waiting(pc: Pc) {
    pc.SetLocked? || pc.Link? || pc.Spin?
  }

  // Threads between their `lock` call and the end of `unlock` own different nodes.
  ghost predicate Apart(s: State, t: Thread, u: Thread) {
    t != u && !PcOf(s, t).Idle? && !PcOf(s, u).Idle? ==> PcOf(s, t).node != PcOf(s, u).node
  }

  // The queue holds exactly the threads that swapped and have not released; a
  // node about to be swapped in has no successor.
  ghost predicate ThreadOk(s: State, t: Thread) {
    && (t in s.order <==> Holding(PcOf(s, t)) || Waiting(PcOf(s, t)))
    && !PcOf(s, t).NullDeref?
    && (PcOf(s, t).ClearLocked? || PcOf(s, t).Swap? ==> NextOf(s, PcOf(s, t).node).None?)
  }

  ghost predicate ThreadsOk(s: State) {
    && (forall t: Thread :: ThreadOk(s, t))
    && (forall t: Thread, u: Thread :: Apart(s, t, u))
    && (forall i, j :: 0 <= i < j < |s.order| ==> s.order[i] != s.order[j])
  }

  function At(s: State, i: nat): Pc
    requires i < |s.order|
  {
    PcOf(s, s.order[i])
  }

  // The link field of the i-th node names the successor once it has linked itself.
  ghost predicate LinkExact(s: State, i: nat)
    requires i < |s.order|
  {
    !At(s, i).Idle? &&
    NextOf(s, At(s, i).node) ==
      if i + 1 < |s.order| && At(s, i + 1).Spin? then Some(At(s, i + 1).node) else None
  }

  // A waiter still has to be handed the lock by the thread in front of it.
  ghost predicate WaiterOk(s: State, i: nat)
    requires 0 < i < |s.order|
  {
    match At(s, i)
    case SetLocked(n, p) => !At(s, i - 1).Idle? && p == At(s, i - 1).node
    case Link(n, p) => !At(s, i - 1).Idle? && p == At(s, i - 1).node && LockedOf(s, n)
    case Spin(n) => LockedOf(s, n)
    case _ => false
  }

  ghost predicate HeadOk(s: State)
    requires s.order != []
  {
    match At(s, 0)
    case Spin(n) => !LockedOf(s, n)
    case Critical(_) => true
    case TryCas(_) => true
    case AwaitNext(_) => true
    case ReadNext(n) => NextOf(s, n).Some?
    case HandOff(n, m) => |s.order| > 1 && At(s, 1) == Spin(m)
    case _ => false
  }

  ghost predicate QueueOk(s: State) {
    && (forall i :: 0 <= i < |s.order| ==> LinkExact(s, i))
    && (forall i :: 0 < i < |s.order| ==> WaiterOk(s, i))
    && (s.order != [] ==> HeadOk(s))
    && (if s.order == [] then s.queue == None
        else LinkExact(s, |s.order| - 1) && s.queue == Some(At(s, |s.order| - 1).node))
  }

  // Acquisitions so far: everyone who released, and the holder if there is one.
  ghost predicate HistoryOk(s: State) {
    && s.swaps == s.released + s.order
    && s.grants == s.released + s.order[..if s.order != [] && Holding(At(s, 0)) then 1 else 0]
  }

  ghost predicate Inv(s: State) {
    ThreadsOk(s) && QueueOk(s) && HistoryOk(s)
  }

  // ----- Every step keeps it -----

  // One thread moves, keeping its node or giving it up; the others stay put.
  ghost predicate Moved(s: State, s': State, t: Thread) {
    && s'.pc == s.pc[t := PcOf(s', t)]
    && !PcOf(s, t).Idle?
    && (!PcOf(s', t).Idle? ==> PcOf(s', t).node == PcOf(s, t).node)
  }

  lemma MovedApart(s: State, s': State, t: Thread)
    requires Moved(s, s', t)
    requires forall u: Thread, v: Thread :: Apart(s, u, v)
    ensures forall u: Thread, v: Thread :: Apart(s', u, v)
  {
    forall u: Thread, v: Thread ensures Apart(s', u, v) { assert Apart(s, u, v); }
  }

  lemma QueueNodes(s: State, i: nat, j: nat)
    requires ThreadsOk(s) && i < |s.order| && j < |s.order| && i != j
    ensures !At(s, i).Idle? && !At(s, j).Idle? && At(s, i).node != At(s, j).node
  {
    assert ThreadOk(s, s.order[i]) && ThreadOk(s, s.order[j]) && Apart(s, s.order[i], s.order[j]);
  }

  // A waiter that has not linked itself is never at index 0; a holder always is.
  lemma IndexOf(s: State, t: Thread) returns (i: nat)
    requires Inv(s)
    requires Holding(PcOf(s, t)) || Waiting(PcOf(s, t))
    ensures i < |s.order| && s.order[i] == t
    ensures Holding(PcOf(s, t)) ==> i == 0
    ensures (PcOf(s, t).SetLocked? || PcOf(s, t).Link?) ==> i > 0
  {
    assert ThreadOk(s, t);
    i :| 0 <= i < |s.order| && s.order[i] == t;
    if i > 0 { assert WaiterOk(s, i); } else { assert HeadOk(s); }
  }

  // Queued threads whose memory is untouched stay as they should be.
  lemma SameQueue(s: State, s': State)
    requires Inv(s)
    requires s' == s.(pc := s'.pc, next := s'.next, locked := s'.locked)
    requires forall i :: 0 <= i < |s.order| ==> SameAt(s, s', i, i)
    ensures QueueOk(s') && HistoryOk(s')
  {
    forall i | 0 <= i < |s'.order| ensures LinkExact(s', i) {
      assert LinkExact(s, i) && SameAt(s, s', i, i);
      if i + 1 < |s.order| { assert SameAt(s, s', i + 1, i + 1); }
    }
    forall i | 0 < i < |s'.order| ensures WaiterOk(s', i) {
      assert WaiterOk(s, i) && SameAt(s, s', i, i) && SameAt(s, s', i - 1, i - 1);
    }
    if s'.order != [] {
      assert HeadOk(s) && LinkExact(s, 0) && SameAt(s, s', 0, 0);
      assert SameAt(s, s', |s.order| - 1, |s.order| - 1);
      if |s.order| > 1 { assert SameAt(s, s', 1, 1); }
    }
  }

  // Index i of s is index j of s', with the same program counter and node memory.
  ghost predicate SameAt(s: State, s': State, i: nat, j: nat)
    requires i < |s.order| && j < |s'.order|
  {
    && At(s', j) == At(s, i) && !At(s, i).Idle?
    && NextOf(s', At(s, i).node) == NextOf(s, At(s, i).node)
    && LockedOf(s', At(s, i).node) == LockedOf(s, At(s, i).node)
  }

  ghost predicate Shifted(s: State, s': State, j: nat)
    requires j + 1 < |s.order| && j < |s'.order|
  {
    SameAt(s, s', j + 1, j)
  }

  lemma EnterKeepsInv(s: State, t: Thread, n: Node)
    requires Inv(s) && Enabled(s, Enter(t, n))
    ensures Inv(Exec(s, Enter(t, n)))
  {
    var s' := Exec(s, Enter(t, n));
    forall u: Thread ensures ThreadOk(s', u) { assert ThreadOk(s, u); }
    forall u: Thread, v: Thread ensures Apart(s', u, v) {
      assert Apart(s, u, v) && !Owns(s, u, n) && !Owns(s, v, n);
    }
    forall i | 0 <= i < |s.order| ensures SameAt(s, s', i, i) {
      assert ThreadOk(s, s.order[i]) && ThreadOk(s, t);
    }
    SameQueue(s, s');
  }

  lemma PreSwapKeepsInv(s: State, t: Thread)
    requires Inv(s)
    requires PcOf(s, t).ClearNext? || PcOf(s, t).ClearLocked?
    ensures Inv(Exec(s, Run(t)))
  {
    var s' := Exec(s, Run(t));
    MovedApart(s, s', t);
    forall u: Thread ensures ThreadOk(s', u) { assert ThreadOk(s, u) && Apart(s, t, u); }
    forall i | 0 <= i < |s.order| ensures SameAt(s, s', i, i) {
      assert ThreadOk(s, s.order[i]) && ThreadOk(s, t) && Apart(s, t, s.order[i]);
    }
    SameQueue(s, s');
  }

  lemma SwapKeepsQueue(s: State, t: Thread)
    requires Inv(s) && PcOf(s, t).Swap?
    ensures QueueOk(Exec(s, Run(t)))
  {
    var s' := Exec(s, Run(t));
    var k := |s.order|;
    assert ThreadOk(s, t) && s'.order[k] == t;
    forall i | 0 <= i < k ensures SameAt(s, s', i, i) { assert ThreadOk(s, s.order[i]); }
    forall i | 0 <= i < |s'.order| ensures LinkExact(s', i) {
      if i < k {
        assert LinkExact(s, i) && SameAt(s, s', i, i);
        if i + 1 < k { assert SameAt(s, s', i + 1, i + 1); }
      }
    }
    forall i | 0 < i < |s'.order| ensures WaiterOk(s', i) {
      if i < k { assert WaiterOk(s, i) && SameAt(s, s', i, i); }
      assert SameAt(s, s', i - 1, i - 1);
    }
    if k > 0 {
      assert HeadOk(s) && SameAt(s, s', 0, 0);
      if k > 1 { assert SameAt(s, s', 1, 1); }
    }
  }

  lemma SwapKeepsThreads(s: State, t: Thread)
    requires Inv(s) && PcOf(s, t).Swap?
    ensures ThreadsOk(Exec(s, Run(t)))
  {
    var s' := Exec(s, Run(t));
    MovedApart(s, s', t);
    assert ThreadOk(s, t);
    forall u: Thread ensures ThreadOk(s', u) { assert ThreadOk(s, u); }
  }

  lemma SwapKeepsInv(s: State, t: Thread)
    requires Inv(s) && PcOf(s, t).Swap?
    ensures Inv(Exec(s, Run(t)))
  {
    var s' := Exec(s, Run(t));
    SwapKeepsThreads(s, t);
    SwapKeepsQueue(s, t);
    assert s'.swaps == s.released + (s.order + [t]);
    if s.order == [] { assert s'.order[..1] == [t]; }
    else { assert s'.order[0] == s.order[0] && At(s', 0) == At(s, 0); }
  }

  lemma SetLockedKeepsInv(s: State, t: Thread)
    requires Inv(s) && PcOf(s, t).SetLocked?
    ensures Inv(Exec(s, Run(t)))
  {
    var s' := Exec(s, Run(t));
    var k := IndexOf(s, t);
    MovedApart(s, s', t);
    forall u: Thread ensures ThreadOk(s', u) { assert ThreadOk(s, u); }
    forall i | 0 <= i < |s.order| && i != k ensures SameAt(s, s', i, i) { QueueNodes(s, i, k); }
    forall i | 0 <= i < |s'.order| ensures LinkExact(s', i) {
      assert LinkExact(s, i);
      if i != k { assert SameAt(s, s', i, i); }
      if i + 1 < |s.order| && i + 1 != k { assert SameAt(s, s', i + 1, i + 1); }
    }
    forall i | 0 < i < |s'.order| ensures WaiterOk(s', i) {
      assert WaiterOk(s, i);
      if i != k { assert SameAt(s, s', i, i); }
      if i - 1 != k { assert SameAt(s, s', i - 1, i - 1); }
    }
    assert HeadOk(s) && SameAt(s, s', 0, 0);
    if |s.order| > 1 && k != 1 { assert SameAt(s, s', 1, 1); }
  }

  lemma LinkKeepsThreads(s: State, t: Thread, k: nat)
    requires Inv(s) && PcOf(s, t).Link? && 0 < k < |s.order| && s.order[k] == t
    ensures ThreadsOk(Exec(s, Run(t)))
  {
    var s' := Exec(s, Run(t));
    assert WaiterOk(s, k);
    MovedApart(s, s', t);
    forall u: Thread ensures ThreadOk(s', u) {
      assert ThreadOk(s, u) && ThreadOk(s, s.order[k - 1]) && Apart(s, u, s.order[k - 1]);
    }
  }

  lemma LinkKeepsInv(s: State, t: Thread)
    requires Inv(s) && PcOf(s, t).Link?
    ensures Inv(Exec(s, Run(t)))
  {
    var s' := Exec(s, Run(t));
    var k := IndexOf(s, t);
    var p := PcOf(s, t).pred;
    assert WaiterOk(s, k) && p == At(s, k - 1).node;
    LinkKeepsThreads(s, t, k);
    QueueNodes(s, k - 1, k);
    forall i | 0 <= i < |s.order| && i != k && i != k - 1 ensures SameAt(s, s', i, i) {
      QueueNodes(s, i, k);
      QueueNodes(s, i, k - 1);
    }
    forall i | 0 <= i < |s'.order| ensures LinkExact(s', i) {
      assert LinkExact(s, i);
      if i != k && i != k - 1 { assert SameAt(s, s', i, i); }
      if i + 1 < |s.order| && i + 1 != k && i + 1 != k - 1 { assert SameAt(s, s', i + 1, i + 1); }
    }
    forall i | 0 < i < |s'.order| ensures WaiterOk(s', i) {
      assert WaiterOk(s, i);
      if i != k && i != k - 1 { assert SameAt(s, s', i, i); }
      if i - 1 != k && i - 1 != k - 1 { assert SameAt(s, s', i - 1, i - 1); }
    }
    assert HeadOk(s) && At(s', 0) == At(s, 0);
    if |s.order| > 1 && k != 1 && k != 2 { assert SameAt(s, s', 1, 1); }
  }

  // The thread at the head moves on inside the queue.
  lemma HeadMoves(s: State, t: Thread, pc: Pc)
    requires Inv(s) && s.order != [] && s.order[0] == t
    requires Holding(pc) && pc.node == PcOf(s, t).node
    requires HeadOk(Goto(s, t, pc))
    ensures ThreadsOk(Goto(s, t, pc)) && QueueOk(Goto(s, t, pc))
  {
    var s' := Goto(s, t, pc);
    assert ThreadOk(s, t);
    MovedApart(s, s', t);
    forall u: Thread ensures ThreadOk(s', u) { assert ThreadOk(s, u); }
    forall i | 0 < i < |s.order| ensures SameAt(s, s', i, i) { QueueNodes(s, i, 0); }
    forall i | 0 <= i < |s'.order| ensures LinkExact(s', i) {
      assert LinkExact(s, i);
      if i > 0 { assert SameAt(s, s', i, i); }
      if i + 1 < |s.order| { assert SameAt(s, s', i + 1, i + 1); }
    }
    forall i | 0 < i < |s'.order| ensures WaiterOk(s', i) {
      assert WaiterOk(s, i) && SameAt(s, s', i, i);
      if i > 1 { assert SameAt(s, s', i - 1, i - 1); }
    }
  }

  lemma SpinKeepsInv(s: State, t: Thread)
    requires Inv(s) && PcOf(s, t).Spin?
    ensures Inv(Exec(s, Run(t)))
  {
    var k := IndexOf(s, t);
    var n := PcOf(s, t).node;
    if !LockedOf(s, n) {
      assert k > 0 ==> WaiterOk(s, k);
      HeadMoves(s, t, Critical(n));
      var g := Goto(s, t, Critical(n));
      assert Exec(s, Run(t)) == g.(grants := s.grants + [t]);
      SameQueueButGrants(g, s.grants + [t]);
    }
  }

  lemma SameQueueButGrants(g: State, grants: seq<Thread>)
    requires ThreadsOk(g) && QueueOk(g) && g.swaps == g.released + g.order && g.order != [] && Holding(At(g, 0))
    requires grants == g.released + [g.order[0]]
    ensures Inv(g.(grants := grants))
  {
    var s' := g.(grants := grants);
    forall u: Thread ensures ThreadOk(s', u) { assert ThreadOk(g, u); }
    forall u: Thread, v: Thread ensures Apart(s', u, v) { assert Apart(g, u, v); }
    forall i | 0 <= i < |s'.order| ensures LinkExact(s', i) { assert LinkExact(g, i); }
    forall i | 0 < i < |s'.order| ensures WaiterOk(s', i) { assert WaiterOk(g, i); }
    assert HeadOk(g);
    assert s'.order[..1] == [g.order[0]];
  }

  // A step of the holder that does not release the lock.
  lemma HolderKeepsInv(s: State, t: Thread, step: Step)
    requires Inv(s) && step.t == t && Enabled(s, step) && !step.Enter?
    requires Holding(PcOf(s, t)) && !PcOf(s, t).HandOff?
    requires PcOf(s, t).TryCas? ==> step.WeakFail? || s.queue != Some(PcOf(s, t).node)
    ensures Inv(Exec(s, step))
  {
    var k := IndexOf(s, t);
    assert HeadOk(s) && LinkExact(s, 0);
    if Exec(s, step) != s {
      HeadMoves(s, t, PcOf(Exec(s, step), t));
    }
  }

  lemma CasReleaseKeepsInv(s: State, t: Thread)
    requires Inv(s) && PcOf(s, t).TryCas? && s.queue == Some(PcOf(s, t).node)
    ensures s.order == [t]
    ensures Inv(Exec(s, Run(t)))
  {
    var s' := Exec(s, Run(t));
    var k := IndexOf(s, t);
    if |s.order| > 1 { QueueNodes(s, 0, |s.order| - 1); }
    assert s.order == [t];
    MovedApart(s, s', t);
    forall u: Thread ensures ThreadOk(s', u) { assert ThreadOk(s, u); }
  }

  // The clear finds its target spinning with the flag set, and makes it the head.
  lemma HandOffTarget(s: State, t: Thread)
    requires Inv(s) && PcOf(s, t).HandOff?
    ensures |s.order| > 1 && s.order[0] == t
    ensures var u := s.order[1]; var m := PcOf(s, t).succ;
            && PcOf(s, u) == Spin(m) && LockedOf(s, m)
            && Exec(s, Run(t)).order == s.order[1..]
            && PcOf(Exec(s, Run(t)), u) == Spin(m) && !LockedOf(Exec(s, Run(t)), m)
  {
    var k := IndexOf(s, t);
    assert HeadOk(s) && WaiterOk(s, 1);
  }

  lemma HandOffKeepsQueue(s: State, t: Thread)
    requires Inv(s) && PcOf(s, t).HandOff?
    ensures QueueOk(Exec(s, Run(t)))
  {
    var s' := Exec(s, Run(t));
    HandOffTarget(s, t);
    forall i | 0 < i < |s'.order| ensures Shifted(s, s', i) {
      QueueNodes(s, 0, i + 1);
      QueueNodes(s, 1, i + 1);
    }
    forall i | 0 <= i < |s'.order| ensures LinkExact(s', i) {
      assert LinkExact(s, i + 1);
      if i > 0 { assert Shifted(s, s', i); }
      if i + 1 < |s'.order| { assert Shifted(s, s', i + 1); }
    }
    forall i | 0 < i < |s'.order| ensures WaiterOk(s', i) {
      assert WaiterOk(s, i + 1) && Shifted(s, s', i);
      if i > 1 { assert Shifted(s, s', i - 1); }
    }
  }

  lemma HandOffKeepsThreads(s: State, t: Thread)
    requires Inv(s) && PcOf(s, t).HandOff?
    ensures ThreadsOk(Exec(s, Run(t)))
  {
    var s' := Exec(s, Run(t));
    HandOffTarget(s, t);
    MovedApart(s, s', t);
    assert s.order == [t] + s'.order;
    forall u: Thread ensures ThreadOk(s', u) {
      assert ThreadOk(s, u);
      assert u in s.order <==> u == t || u in s'.order;
    }
  }

  lemma HandOffKeepsInv(s: State, t: Thread)
    requires Inv(s) && PcOf(s, t).HandOff?
    ensures Inv(Exec(s, Run(t)))
  {
    var s' := Exec(s, Run(t));
    HandOffTarget(s, t);
    HandOffKeepsQueue(s, t);
    HandOffKeepsThreads(s, t);
    assert s.order == [t] + s'.order;
    assert s.released + s.order == s.released + [t] + s'.order;
  }

  lemma StepKeepsInv(s: State, step: Step)
    requires Inv(s) && Enabled(s, step)
    ensures Inv(Exec(s, step))
  {
    match step
    case Enter(t, n) => EnterKeepsInv(s, t, n);
    case WeakFail(t) => HolderKeepsInv(s, t, step);
    case Run(t) =>
      var pc := PcOf(s, t);
      assert ThreadOk(s, t);
      if pc.ClearNext? || pc.ClearLocked? { PreSwapKeepsInv(s, t); }
      else if pc.Swap? { SwapKeepsInv(s, t); }
      else if pc.SetLocked? { SetLockedKeepsInv(s, t); }
      else if pc.Link? { LinkKeepsInv(s, t); }
      else if pc.TryCas? && s.queue == Some(pc.node) { CasReleaseKeepsInv(s, t); }
      else if pc.HandOff? { HandOffKeepsInv(s, t); }
      else if pc.Spin? { SpinKeepsInv(s, t); }
      else { HolderKeepsInv(s, t, step); }
  }

  lemma {:induction false} RunKeepsInv(s: State, steps: seq<Step>, s': State)
    requires Inv(s) && Runs(s, steps, s')
    ensures Inv(s')
    decreases |steps|
  {
    if steps != [] {
      StepKeepsInv(s, steps[0]);
      RunKeepsInv(Exec(s, steps[0]), steps[1..], s');
    }
  }

  lemma ReachableInv(s: State)
    requires Reachable(s)
    ensures Inv(s)
  {
    var steps :| Runs(Init, steps, s);
    RunKeepsInv(Init, steps, s);
  }

  // ----- What every reachable state promises -----

  /** At most one thread is between acquiring the lock and releasing it. */
  lemma MutualExclusion(s: State, t: Thread, u: Thread)
    requires Reachable(s)
    requires Holding(PcOf(s, t)) && Holding(PcOf(s, u))
    ensures t == u
  {
    ReachableInv(s);
    var i := IndexOf(s, t);
    var j := IndexOf(s, u);
  }

  /** Threads acquire the lock in the order of their swaps, none skipped; and
      `unlock` never follows a null successor. */
  lemma AcquisitionIsFifo(s: State)
    requires Reachable(s)
    ensures s.grants <= s.swaps
    ensures |s.swaps| - |s.grants| <= |s.order|
    ensures forall t: Thread :: !PcOf(s, t).NullDeref?
  {
    ReachableInv(s);
    forall t: Thread ensures !PcOf(s, t).NullDeref? { assert ThreadOk(s, t); }
  }

  /** A hand-off is never lost.  The clear of a waiter's flag comes after the
      waiter's own set (the flag is still set when it is cleared, and its owner
      is already spinning on it), and it passes the lock to that waiter alone. */
  lemma HandOffDelivers(s: State, t: Thread)
    requires Reachable(s) && PcOf(s, t).HandOff?
    ensures |s.order| > 1 && s.order[0] == t
    ensures var u := s.order[1]; var m := PcOf(s, t).succ; var s' := Exec(s, Run(t));
            && PcOf(s, u) == Spin(m) && LockedOf(s, m)
            && s'.order == s.order[1..] && PcOf(s', u) == Spin(m) && !LockedOf(s', m)
    ensures forall n: Node :: n != PcOf(s, t).succ ==> LockedOf(Exec(s, Run(t)), n) == LockedOf(s, n)
  {
    ReachableInv(s);
    HandOffTarget(s, t);
  }

  /** A spinning thread has been handed the lock exactly when it is the oldest
      in the queue; otherwise the thread in front of it already points at it. */
  lemma SpinnerIsServed(s: State, t: Thread)
    requires Reachable(s) && PcOf(s, t).Spin?
    ensures t in s.order
    ensures !LockedOf(s, PcOf(s, t).node) <==> s.order[0] == t
    ensures s.order[0] != t ==>
              exists i :: 0 < i < |s.order| && s.order[i] == t && !At(s, i - 1).Idle?
                && NextOf(s, At(s, i - 1).node) == Some(PcOf(s, t).node)
  {
    ReachableInv(s);
    var i := IndexOf(s, t);
    if i > 0 { assert WaiterOk(s, i) && LinkExact(s, i - 1); } else { assert HeadOk(s); }
  }

  /** Once `unlock` returns its node can be reused at once: the queue word, the
      locals of every thread and every node still in use have forgotten it. */
  lemma UnownedNodeIsUnreachable(s: State, n: Node)
    requires Reachable(s) && Unowned(s, n)
    ensures s.queue != Some(n)
    ensures forall t: Thread :: var pc := PcOf(s, t);
              && (pc.SetLocked? || pc.Link? ==> pc.pred != n)
              && (pc.HandOff? ==> pc.succ != n)
              && (!pc.Idle? && !pc.ClearNext? ==> NextOf(s, pc.node) != Some(n))
  {
    ReachableInv(s);
    forall i | 0 <= i < |s.order| ensures !At(s, i).Idle? && At(s, i).node != n {
      assert ThreadOk(s, s.order[i]) && !Owns(s, s.order[i], n);
    }
    forall t: Thread
      ensures var pc := PcOf(s, t);
              && (pc.SetLocked? || pc.Link? ==> pc.pred != n)
              && (pc.HandOff? ==> pc.succ != n)
              && (!pc.Idle? && !pc.ClearNext? ==> NextOf(s, pc.node) != Some(n))
    {
      assert ThreadOk(s, t);
      if Holding(PcOf(s, t)) || Waiting(PcOf(s, t)) {
        var i := IndexOf(s, t);
        assert LinkExact(s, i);
        if i > 0 { assert WaiterOk(s, i); }
        if i == 0 { assert HeadOk(s); }
      }
    }
  }

  /** A thread left at the second load loop of `unlock` gets past it exactly
      when a successor has linked itself: a spurious compare-exchange failure
      with nobody queued behind strands the holder until somebody comes. */
  lemma AwaitNextAdvancesIff(s: State, t: Thread)
    requires Reachable(s) && PcOf(s, t).AwaitNext?
    ensures Exec(s, Run(t)) != s <==> |s.order| > 1 && PcOf(s, s.order[1]).Spin?
  {
    ReachableInv(s);
    var k := IndexOf(s, t);
    assert LinkExact(s, 0);
    if NextOf(s, PcOf(s, t).node).Some? {
      assert PcOf(Exec(s, Run(t)), t).ReadNext?;
    }
  }

  lemma {:induction false} RunsThen(s: State, steps: seq<Step>, s': State, step: Step)
    requires Runs(s, steps, s') && Enabled(s', step)
    ensures Runs(s, steps + [step], Exec(s', step))
    decreases |steps|
  {
    if steps == [] {
      assert Runs(Exec(s, step), [], Exec(s, step));
    } else {
      RunsThen(Exec(s, steps[0]), steps[1..], s', step);
      assert (steps + [step])[1..] == steps[1..] + [step];
    }
  }

  lemma Reaches(s: State, step: Step) returns (s': State)
    requires Reachable(s) && Enabled(s, step)
    ensures s' == Exec(s, step) && Reachable(s')
  {
    var steps :| Runs(Init, steps, s);
    RunsThen(Init, steps, s, step);
    s' := Exec(s, step);
  }

  // Thread 0 alone, from the start into its critical section.
  lemma TakesLock() returns (s: State)
    ensures Reachable(s) && s.queue == Some(0) && NextOf(s, 0).None? && s.pc == map[0 := Critical(0)] && s.order == [0]
  {
    assert Runs(Init, [], Init);
    s := Reaches(Init, Enter(0, 0));
    assert s == Init.(pc := map[0 := ClearNext(0)]);
    s := Reaches(s, Run(0));
    assert s == Init.(pc := map[0 := ClearLocked(0)], next := map[0 := None]);
    s := Reaches(s, Run(0));
    assert s == Init.(pc := map[0 := Swap(0)], next := map[0 := None], locked := map[0 := false]);
    s := Reaches(s, Run(0));
  }

  /** One thread takes the lock, nobody else comes, and the compare-exchange of its
      `unlock` fails spuriously: every further step of it changes nothing. */
  lemma WeakFailureStrandsHolder() returns (s: State, t: Thread)
    ensures Reachable(s) && s.order == [t] && PcOf(s, t).AwaitNext? && Exec(s, Run(t)) == s
    ensures forall u: Thread :: u != t ==> PcOf(s, u).Idle?
  {
    t := 0;
    s := TakesLock();
    s := Reaches(s, Run(0));
    assert s.pc == map[0 := TryCas(0)];
    s := Reaches(s, WeakFail(0));
    assert s.pc == map[0 := AwaitNext(0)];
  }

  // ----- Taking and giving up the lock -----

  /** A swap that finds the lock free takes it at once; any other queues behind the last
      thread in the queue. */
  lemma SwapTakesFreeLock(s: State, t: Thread)
    requires Reachable(s) && PcOf(s, t).Swap?
    ensures var s' := Exec(s, Run(t)); var n := PcOf(s, t).node; var k := |s.order|;
            && s'.order == s.order + [t] && s'.queue == Some(n)
            && (s.order == [] ==> PcOf(s', t) == Critical(n) && s'.grants == s.grants + [t])
            && (s.order != [] ==>
                  !At(s, k - 1).Idle? && PcOf(s', t) == SetLocked(n, At(s, k - 1).node) && s'.grants == s.grants)
  {
    ReachableInv(s);
    if s.order != [] { assert LinkExact(s, |s.order| - 1); }
  }

  /** A spinning thread takes the lock with its next step exactly when it is the oldest in
      the queue; until then its steps change nothing. */
  lemma SpinnerTakesLock(s: State, t: Thread)
    requires Reachable(s) && PcOf(s, t).Spin?
    ensures s.order != []
    ensures var s' := Exec(s, Run(t));
            if s.order[0] == t
            then PcOf(s', t) == Critical(PcOf(s, t).node) && s'.grants == s.grants + [t] && s'.order == s.order
            else s' == s
  {
    SpinnerIsServed(s, t);
  }

  /** The compare-exchange of a holder with nobody behind it frees the lock: the queue
      word is null, the queue empty and the thread done.  With somebody behind it nothing
      changes but that the thread goes on to await its successor. */
  lemma CasFreesIff(s: State, t: Thread)
    requires Reachable(s) && PcOf(s, t).TryCas?
    ensures s.order != [] && s.order[0] == t
    ensures var s' := Exec(s, Run(t)); var n := PcOf(s, t).node;
            if s.order == [t]
            then s' == s.(queue := None, order := [], pc := s.pc[t := Idle], released := s.released + [t])
            else s' == s.(pc := s.pc[t := AwaitNext(n)])
  {
    ReachableInv(s);
    var k := IndexOf(s, t);
    var last := |s.order| - 1;
    assert LinkExact(s, last);
    if last > 0 { QueueNodes(s, 0, last); }
  }

  /** An `unlock` with nobody queued behind frees the lock in two steps of its thread. */
  lemma UnlockAlone(s: State, t: Thread)
    requires Reachable(s) && PcOf(s, t).Critical? && s.order == [t]
    ensures var s' := Exec(Exec(s, Run(t)), Run(t));
            s'.queue == None && s'.order == [] && PcOf(s', t).Idle? && s'.released == s.released + [t]
  {
    ReachableInv(s);
    assert LinkExact(s, 0);
    var s1 := Reaches(s, Run(t));
    CasFreesIff(s1, t);
  }

  /** With the next thread spinning behind it, an `unlock` takes three steps, and that
      thread's next step takes the lock. */
  lemma UnlockHandsOver(s: State, t: Thread, u: Thread)
    requires Reachable(s) && PcOf(s, t).Critical? && |s.order| > 1 && s.order[1] == u && PcOf(s, u).Spin?
    ensures var s' := Exec(Exec(Exec(s, Run(t)), Run(t)), Run(t));
            && PcOf(s', t).Idle? && s'.order == s.order[1..]
            && PcOf(Exec(s', Run(u)), u) == Critical(PcOf(s, u).node) && Exec(s', Run(u)).grants == s.grants + [u]
  {
    ReachableInv(s);
    var k := IndexOf(s, t);
    assert LinkExact(s, 0);
    assert s.order[0] != s.order[1];
    var s1 := Reaches(s, Run(t));
    assert s1 == Goto(s, t, ReadNext(PcOf(s, t).node));
    var s2 := Reaches(s1, Run(t));
    assert s2 == Goto(s1, t, HandOff(PcOf(s, t).node, PcOf(s, u).node));
    HandOffDelivers(s2, t);
    var s3 := Reaches(s2, Run(t));
    SpinnerTakesLock(s3, u);
  }

  // ----- Deadlock -----

  // The one thread in the queue awaits a successor, after a spurious failure.
  predicate Stranded(s: State, t: Thread) {
    s.order == [t] && PcOf(s, t).AwaitNext?
  }

  ghost predicate AllIdle(s: State) {
    forall t: Thread :: PcOf(s, t).Idle?
  }

  // No step of a thread inside `lock` or `unlock` changes anything.
  ghost predicate Stuck(s: State) {
    forall t: Thread :: Exec(s, Run(t)) == s
  }

  // A thread whose step changes nothing is idle, or waits for another's.
  lemma IdleOrWaits(s: State, t: Thread)
    requires Inv(s) && Exec(s, Run(t)) == s
    ensures PcOf(s, t).Idle? || (PcOf(s, t).Spin? && LockedOf(s, PcOf(s, t).node))
            || (PcOf(s, t).AwaitNext? && NextOf(s, PcOf(s, t).node).None?)
  {
    assert ThreadOk(s, t);
    assert PcOf(Exec(s, Run(t)), t) == PcOf(s, t);
  }

  lemma StuckStrands(s: State, u: Thread) returns (t: Thread)
    requires Inv(s) && Stuck(s) && !PcOf(s, u).Idle?
    ensures Stranded(s, t) && forall v: Thread :: v != t ==> PcOf(s, v).Idle?
  {
    assert Exec(s, Run(u)) == s;
    IdleOrWaits(s, u);
    var i := IndexOf(s, u);
    t := s.order[0];
    assert Exec(s, Run(t)) == s && ThreadOk(s, t);
    IdleOrWaits(s, t);
    assert HeadOk(s) && LinkExact(s, 0);
    if |s.order| > 1 {
      assert Exec(s, Run(s.order[1])) == s && ThreadOk(s, s.order[1]) && WaiterOk(s, 1);
      IdleOrWaits(s, s.order[1]);
    }
    forall v: Thread | v != t ensures PcOf(s, v).Idle? {
      assert Exec(s, Run(v)) == s && ThreadOk(s, v);
      IdleOrWaits(s, v);
    }
  }

  /** The threads inside `lock` and `unlock` are stuck, none able to take a step that
      changes anything, if and only if there is just one and a spurious failure left it
      awaiting a successor. */
  lemma StuckIff(s: State)
    requires Reachable(s) && !AllIdle(s)
    ensures Stuck(s) <==> exists t: Thread :: Stranded(s, t) && forall v: Thread :: v != t ==> PcOf(s, v).Idle?
  {
    ReachableInv(s);
    if Stuck(s) {
      var u: Thread :| !PcOf(s, u).Idle?;
      var t := StuckStrands(s, u);
    }
    forall t: Thread, w: Thread | Stranded(s, t) && forall v: Thread :: v != t ==> PcOf(s, v).Idle?
      ensures Exec(s, Run(w)) == s
    {
      assert LinkExact(s, 0);
    }
  }

  /** Only a spurious failure of the last compare-exchange strands a thread. */
  lemma OnlyWeakFailStrands(s: State, step: Step, t: Thread)
    requires Reachable(s) && Enabled(s, step) && !Stranded(s, t) && Stranded(Exec(s, step), t)
    ensures step == WeakFail(t) && s.order == [t]
  {
    ReachableInv(s);
    var s' := Exec(s, step);
    assert ThreadOk(s, t);
    if step.Run? && PcOf(s, step.t).HandOff? { HandOffTarget(s, step.t); }
    if step.Run? && PcOf(s, step.t).TryCas? { CasFreesIff(s, step.t); }
  }

  lemma {:induction false} NeverStranded(s: State, steps: seq<Step>, s': State, t: Thread)
    requires Reachable(s) && Runs(s, steps, s') && !Stranded(s, t)
    requires forall k :: 0 <= k < |steps| ==> !steps[k].WeakFail?
    ensures !Stranded(s', t)
    decreases |steps|
  {
    if steps != [] {
      var s1 := Reaches(s, steps[0]);
      if Stranded(s1, t) { OnlyWeakFailStrands(s, steps[0], t); }
      NeverStranded(s1, steps[1..], s', t);
    }
  }

  /** In a run without spurious failures the lock never deadlocks: while a thread is
      inside `lock` or `unlock`, some thread's next step changes the state. */
  lemma NoDeadlock(steps: seq<Step>, s: State)
    requires Runs(Init, steps, s) && !AllIdle(s) && forall k :: 0 <= k < |steps| ==> !steps[k].WeakFail?
    ensures !Stuck(s)
  {
    assert Runs(Init, [], Init);
    forall t: Thread ensures !Stranded(s, t) { NeverStranded(Init, steps, s, t); }
    StuckIff(s);
  }
}
