/** The claim protocol of one timer shared by any number of cores
    (aarch64/src/timer.rs).  A step is one atomic load, store, swap or
    compare-exchange; the counter only grows. */
module Timer {
  import opened Prelude
  import opened Arith

  type Core = nat

  /** What never changes: whether the timer repeats, and its duration in ticks. */
  datatype Config = Config(repeat: bool, ticks: nat) {
    predicate Valid() { repeat ==> ticks > 0 }
  }

  // Where a core is in `interrupt_handler`, as far as this timer goes.  `gen`
  // counts the deadline stores of `start` seen when the deadline was loaded.
  datatype Pc =
    | Idle
    | Entered(now: nat)
    | Live(now: nat)
    | Due(now: nat, deadline: nat, gen: nat)
    | Ready(now: nat, deadline: nat, gen: nat, period: nat)
    | Firing

  // Where a call of `start` is.
  datatype Starter = Resting | PeriodStored | ClockRead(clock: nat) | DeadlineStored

  datatype Event = Started | Fired(gen: nat, deadline: nat, now: nat)

  /** `starters` are the calls of `start` under way, from a callback or anywhere
      else; `clocks` holds the counter value behind each deadline store; `log` the
      starts and fires so far. */
  datatype State = State(counter: nat, active: bool, deadline: nat, period: nat, clocks: seq<nat>,
                         cores: map<Core, Pc>, starters: map<nat, Starter>, log: seq<Event>)

  datatype Step =
    | Tick(n: nat)
    | Start(caller: nat)           // the next operation of a `start`
    | Cancel                       // `cancel`, or `start` giving up the table slot
    | Enter(core: Core)            // the handler reads the counter
    | Run(core: Core)              // its next operation on this timer
    | Return(core: Core, again: bool)  // the callback returns

  const Init := State(0, false, 0, 0, [], map[], map[], [])

  function PcOf(s: State, c: Core): Pc {
    if c in s.cores then s.cores[c] else Idle
  }

  function StarterOf(s: State, w: nat): Starter {
    if w in s.starters then s.starters[w] else Resting
  }

  function Goto(s: State, c: Core, pc: Pc): State {
    s.(cores := s.cores[c := pc])
  }

  /** The re-armed deadline. */
  function NextDeadline(deadline: nat, now: nat, period: nat): nat
    requires deadline <= now && period > 0
  {
    deadline + ((now - deadline) / period + 1) * period
  }

  function ExecStart(cfg: Config, s: State, w: nat): State {
    match StarterOf(s, w)
    case Resting => s.(starters := s.starters[w := PeriodStored], period := cfg.ticks)
    case PeriodStored => s.(starters := s.starters[w := ClockRead(s.counter)])
    case ClockRead(clock) =>
      s.(starters := s.starters[w := DeadlineStored], deadline := clock + cfg.ticks, clocks := s.clocks + [clock])
    case DeadlineStored => s.(starters := s.starters[w := Resting], active := true, log := s.log + [Started])
  }

  function Fire(s: State, c: Core, deadline: nat, now: nat): State {
    Goto(s, c, Firing).(log := s.log + [Fired(|s.clocks|, deadline, now)])
  }

  function ExecPc(cfg: Config, s: State, c: Core, pc: Pc): State {
    match pc
    case Entered(now) => Goto(s, c, if s.active then Live(now) else Idle)
    case Live(now) => Goto(s, c, if s.deadline > now then Idle else Due(now, s.deadline, |s.clocks|))
    case Due(now, d, gen) =>
      if cfg.repeat then Goto(s, c, Ready(now, d, gen, s.period))
      else if s.active then Fire(s, c, d, now).(active := false)
      else Goto(s, c, Idle)
    case Ready(now, d, gen, period) =>
      if s.deadline == d && d <= now && period > 0 then Fire(s, c, d, now).(deadline := NextDeadline(d, now, period))
      else Goto(s, c, Idle)
    case _ => s
  }

  function Exec(cfg: Config, s: State, step: Step): State {
    match step
    case Tick(n) => s.(counter := s.counter + n)
    case Start(w) => ExecStart(cfg, s, w)
    case Cancel => s.(active := false)
    case Enter(c) => if PcOf(s, c).Idle? then Goto(s, c, Entered(s.counter)) else s
    case Run(c) => ExecPc(cfg, s, c, PcOf(s, c))
    case Return(c, again) =>
      if !PcOf(s, c).Firing? then s
      else Goto(s, c, Idle).(active := s.active && (again || !cfg.repeat))
  }

  ghost predicate Runs(cfg: Config, s: State, steps: seq<Step>, s': State)
    decreases |steps|
  {
    if steps == [] then s == s' else Runs(cfg, Exec(cfg, s, steps[0]), steps[1..], s')
  }

  ghost predicate Reachable(cfg: Config, s: State) {
    cfg.Valid() && exists steps :: Runs(cfg, Init, steps, s)
  }

  // ----- The re-arm -----

  /** A deadline of the same phase: the period apart from `from`, any number of times. */
  predicate InPhase(from: nat, d: nat, period: nat) {
    period > 0 && from <= d && (d - from) % period == 0
  }

  /** The re-armed deadline is the least in phase past the claimer's clock. */
  lemma NextIsLeast(d: nat, now: nat, period: nat)
    requires d <= now && period > 0
    ensures var n := NextDeadline(d, now, period);
            n > now && InPhase(d, n, period) && forall m: nat :: InPhase(d, m, period) && m > now ==> n <= m
  {
    var n := NextDeadline(d, now, period);
    var k := (now - d) / period;
    MulStep(k, period);
    DivBelow(now - d, period);
    DivModUnique(n - d, k + 1, 0, period);
    forall m: nat | InPhase(d, m, period) && m > now ensures n <= m {
      var j := (m - d) / period;
      assert m - d == j * period + (m - d) % period;
      if j <= k { MulMono(j, k, period); } else { MulMono(k + 1, j, period); }
    }
  }

  lemma PhaseAdds(from: nat, d: nat, n: nat, period: nat)
    requires InPhase(from, d, period) && InPhase(d, n, period)
    ensures InPhase(from, n, period)
  {
    var i, j := (d - from) / period, (n - d) / period;
    assert d - from == i * period + (d - from) % period;
    assert n - d == j * period + (n - d) % period;
    assert (i + j) * period == i * period + j * period;
    DivModUnique(n - from, i + j, 0, period);
  }

  // ----- The invariant -----

  // The deadline stored by the start of generation `gen`.
  ghost function Base(cfg: Config, s: State, gen: nat): nat
    requires 0 < gen <= |s.clocks|
  {
    s.clocks[gen - 1] + cfg.ticks
  }

  ghost predicate CoreOk(cfg: Config, s: State, c: Core) {
    match PcOf(s, c)
    case Entered(now) => now <= s.counter
    case Live(now) => now <= s.counter && s.clocks != []
    case Due(now, d, gen) =>
      d <= now <= s.counter && 0 < gen <= |s.clocks| && (!cfg.repeat && gen == |s.clocks| ==> s.deadline == d)
    case Ready(now, d, gen, period) => d <= now <= s.counter && cfg.repeat && period == cfg.ticks && s.clocks != []
    case _ => true
  }

  ghost predicate StarterOk(cfg: Config, s: State, w: nat) {
    match StarterOf(s, w)
    case Resting => true
    case PeriodStored => s.period == cfg.ticks
    case ClockRead(clock) => s.period == cfg.ticks && clock <= s.counter
    case DeadlineStored => s.period == cfg.ticks && s.clocks != []
  }

  ghost predicate EventOk(cfg: Config, s: State, i: nat) {
    i < |s.log| && s.log[i].Fired? ==>
      && 0 < s.log[i].gen <= |s.clocks| && s.log[i].deadline <= s.log[i].now
      && (cfg.repeat ==> InPhase(Base(cfg, s, s.log[i].gen), s.log[i].deadline, cfg.ticks))
      && (cfg.repeat && s.log[i].gen == |s.clocks| ==> s.log[i].deadline < s.deadline)
  }

  // Claims of one start come in order.
  ghost predicate Ordered(log: seq<Event>, i: nat, j: nat) {
    i < j < |log| && log[i].Fired? && log[j].Fired? && log[i].gen == log[j].gen ==> log[i].deadline < log[j].deadline
  }

  // Some start lies after position `i` (or anywhere, for -1) and before `j`.
  ghost predicate StartBetween(log: seq<Event>, i: int, j: int) {
    exists k :: 0 <= k < |log| && i < k < j && log[k].Started?
  }

  ghost predicate OncePerStart(log: seq<Event>, i: int, j: int) {
    -1 <= i < j < |log| && (i == -1 || log[i].Fired?) && log[j].Fired? ==> StartBetween(log, i, j)
  }

  ghost predicate Pending(log: seq<Event>, i: int) {
    -1 <= i < |log| && (i == -1 || log[i].Fired?) ==> StartBetween(log, i, |log|)
  }

  ghost predicate Inv(cfg: Config, s: State) {
    && (s.active ==> s.clocks != [])
    && (s.clocks != [] ==> s.period == cfg.ticks)
    && (forall w: nat :: StarterOk(cfg, s, w))
    && (s.clocks != [] ==>
          if cfg.repeat then InPhase(Base(cfg, s, |s.clocks|), s.deadline, cfg.ticks)
          else s.deadline == Base(cfg, s, |s.clocks|))
    && (forall c: Core :: CoreOk(cfg, s, c))
    && (forall i: nat :: EventOk(cfg, s, i))
    && (cfg.repeat ==> forall i: nat, j: nat :: Ordered(s.log, i, j))
    && (!cfg.repeat ==> forall i: int, j: int :: OncePerStart(s.log, i, j))
    && (!cfg.repeat && s.active ==> forall i: int :: Pending(s.log, i))
  }

  // A step that leaves the timer and the log alone, or only deactivates.
  ghost predicate SameTimer(s: State, s': State) {
    && s'.deadline == s.deadline && s'.period == s.period && s'.clocks == s.clocks && s'.log == s.log
    && (s'.active ==> s.active) && s.counter <= s'.counter
  }

  lemma SameTimerKeeps(cfg: Config, s: State, s': State)
    requires cfg.Valid() && Inv(cfg, s) && SameTimer(s, s') && s'.starters == s.starters
    requires forall c: Core :: CoreOk(cfg, s', c)
    ensures Inv(cfg, s')
  {
    forall i: nat ensures EventOk(cfg, s', i) { assert EventOk(cfg, s, i); }
    forall w: nat ensures StarterOk(cfg, s', w) { assert StarterOk(cfg, s, w); }
  }

  lemma GotoKeeps(cfg: Config, s: State, c: Core, pc: Pc, s': State)
    requires cfg.Valid() && Inv(cfg, s) && SameTimer(s, s') && s'.starters == s.starters
    requires s'.cores == s.cores[c := pc] && CoreOk(cfg, s', c)
    ensures Inv(cfg, s')
  {
    forall d: Core ensures CoreOk(cfg, s', d) { assert CoreOk(cfg, s, d); }
    SameTimerKeeps(cfg, s, s');
  }

  lemma StartKeepsPlaces(cfg: Config, s: State, w: nat)
    requires cfg.Valid() && Inv(cfg, s)
    ensures var s' := ExecStart(cfg, s, w);
            (forall c: Core :: CoreOk(cfg, s', c)) && forall v: nat :: StarterOk(cfg, s', v)
  {
    var s' := ExecStart(cfg, s, w);
    assert StarterOk(cfg, s, w);
    forall c: Core ensures CoreOk(cfg, s', c) { assert CoreOk(cfg, s, c); }
    forall v: nat ensures StarterOk(cfg, s', v) { assert StarterOk(cfg, s, v); }
  }

  lemma StartKeeps(cfg: Config, s: State, w: nat)
    requires cfg.Valid() && Inv(cfg, s)
    ensures Inv(cfg, ExecStart(cfg, s, w))
  {
    var s' := ExecStart(cfg, s, w);
    assert StarterOk(cfg, s, w);
    StartKeepsPlaces(cfg, s, w);
    match StarterOf(s, w) {
      case Resting => EventsStay(cfg, s, s');
      case PeriodStored => EventsStay(cfg, s, s');
      case ClockRead(clock) => EventsStay(cfg, s, s');
      case DeadlineStored =>
        forall i: nat ensures EventOk(cfg, s', i) { assert EventOk(cfg, s, i); }
        StartedLogs(s.log);
    }
  }

  // Events keep their generation's base; a new generation has no event yet.
  lemma EventsStay(cfg: Config, s: State, s': State)
    requires Inv(cfg, s) && s'.log == s.log
    requires (s'.clocks == s.clocks && s'.deadline == s.deadline) || exists clock :: s'.clocks == s.clocks + [clock]
    ensures forall i: nat :: EventOk(cfg, s', i)
  {
    forall i: nat ensures EventOk(cfg, s', i) { assert EventOk(cfg, s, i); }
  }

  lemma StartedLogs(log: seq<Event>)
    ensures var log' := log + [Started];
            && ((forall i: nat, j: nat :: Ordered(log, i, j)) ==> forall i: nat, j: nat :: Ordered(log', i, j))
            && ((forall i: int, j: int :: OncePerStart(log, i, j)) ==>
                forall i: int, j: int :: OncePerStart(log', i, j))
            && forall i: int :: Pending(log', i)
  {
    var log' := log + [Started];
    if forall i: nat, j: nat :: Ordered(log, i, j) {
      forall i: nat, j: nat ensures Ordered(log', i, j) { assert Ordered(log, i, j); }
    }
    if forall i: int, j: int :: OncePerStart(log, i, j) {
      forall i: int, j: int ensures OncePerStart(log', i, j) {
        assert OncePerStart(log, i, j);
        BetweenStays(log, Started, i, j);
      }
    }
    assert log'[|log|].Started?;
  }

  lemma BetweenStays(log: seq<Event>, e: Event, i: int, j: int)
    ensures StartBetween(log, i, j) ==> StartBetween(log + [e], i, j)
  {
    if StartBetween(log, i, j) {
      var k :| 0 <= k < |log| && i < k < j && log[k].Started?;
      assert (log + [e])[k] == log[k];
    }
  }

  // A one-shot claim: the swap found `active` set.
  lemma OneShotKeeps(cfg: Config, s: State, c: Core, d: nat, now: nat)
    requires cfg.Valid() && Inv(cfg, s) && !cfg.repeat && s.active && d <= now
    ensures Inv(cfg, Fire(s, c, d, now).(active := false))
  {
    var s' := Fire(s, c, d, now).(active := false);
    var e := Fired(|s.clocks|, d, now);
    forall b: Core ensures CoreOk(cfg, s', b) { assert CoreOk(cfg, s, b); }
    forall w: nat ensures StarterOk(cfg, s', w) { assert StarterOk(cfg, s, w); }
    forall i: nat ensures EventOk(cfg, s', i) { assert EventOk(cfg, s, i); }
    forall i: int, j: int ensures OncePerStart(s'.log, i, j) {
      assert OncePerStart(s.log, i, j) && Pending(s.log, i);
      BetweenStays(s.log, e, i, j);
    }
  }

  // A periodic claim: the compare-exchange found the loaded deadline.
  lemma PeriodicKeeps(cfg: Config, s: State, c: Core, now: nat)
    requires cfg.Valid() && Inv(cfg, s) && cfg.repeat && s.clocks != [] && s.deadline <= now <= s.counter
    ensures Inv(cfg, Fire(s, c, s.deadline, now).(deadline := NextDeadline(s.deadline, now, cfg.ticks)))
  {
    var s' := Fire(s, c, s.deadline, now).(deadline := NextDeadline(s.deadline, now, cfg.ticks));
    NextIsLeast(s.deadline, now, cfg.ticks);
    PhaseAdds(Base(cfg, s, |s.clocks|), s.deadline, s'.deadline, cfg.ticks);
    forall b: Core ensures CoreOk(cfg, s', b) { assert CoreOk(cfg, s, b); }
    forall w: nat ensures StarterOk(cfg, s', w) { assert StarterOk(cfg, s, w); }
    forall i: nat ensures EventOk(cfg, s', i) { assert EventOk(cfg, s, i); }
    forall i: nat, j: nat ensures Ordered(s'.log, i, j) {
      assert Ordered(s.log, i, j) && EventOk(cfg, s, i);
    }
  }

  lemma RunKeeps(cfg: Config, s: State, c: Core)
    requires cfg.Valid() && Inv(cfg, s)
    ensures Inv(cfg, ExecPc(cfg, s, c, PcOf(s, c)))
  {
    assert CoreOk(cfg, s, c);
    var s' := ExecPc(cfg, s, c, PcOf(s, c));
    match PcOf(s, c) {
      case Entered(now) => GotoKeeps(cfg, s, c, if s.active then Live(now) else Idle, s');
      case Live(now) => GotoKeeps(cfg, s, c, if s.deadline > now then Idle else Due(now, s.deadline, |s.clocks|), s');
      case Due(now, d, gen) =>
        if cfg.repeat { GotoKeeps(cfg, s, c, Ready(now, d, gen, s.period), s'); }
        else if s.active { OneShotKeeps(cfg, s, c, d, now); }
        else { GotoKeeps(cfg, s, c, Idle, s'); }
      case Ready(now, d, gen, period) =>
        if s.deadline == d { PeriodicKeeps(cfg, s, c, now); } else { GotoKeeps(cfg, s, c, Idle, s'); }
      case _ =>
    }
  }

  lemma StepKeepsInv(cfg: Config, s: State, step: Step)
    requires cfg.Valid() && Inv(cfg, s)
    ensures Inv(cfg, Exec(cfg, s, step))
  {
    var s' := Exec(cfg, s, step);
    match step {
      case Tick(n) =>
        forall c: Core ensures CoreOk(cfg, s', c) { assert CoreOk(cfg, s, c); }
        SameTimerKeeps(cfg, s, s');
      case Start(w) => StartKeeps(cfg, s, w);
      case Cancel =>
        forall c: Core ensures CoreOk(cfg, s', c) { assert CoreOk(cfg, s, c); }
        SameTimerKeeps(cfg, s, s');
      case Enter(c) => if PcOf(s, c).Idle? { GotoKeeps(cfg, s, c, Entered(s.counter), s'); }
      case Run(c) => RunKeeps(cfg, s, c);
      case Return(c, again) => if PcOf(s, c).Firing? { GotoKeeps(cfg, s, c, Idle, s'); }
    }
  }

  lemma {:induction false} RunKeepsInv(cfg: Config, s: State, steps: seq<Step>, s': State)
    requires cfg.Valid() && Inv(cfg, s) && Runs(cfg, s, steps, s')
    ensures Inv(cfg, s')
    decreases |steps|
  {
    if steps != [] {
      StepKeepsInv(cfg, s, steps[0]);
      RunKeepsInv(cfg, Exec(cfg, s, steps[0]), steps[1..], s');
    }
  }

  lemma ReachableInv(cfg: Config, s: State)
    requires Reachable(cfg, s)
    ensures Inv(cfg, s)
  {
    var steps :| Runs(cfg, Init, steps, s);
    RunKeepsInv(cfg, Init, steps, s);
  }

  // ----- What the protocol promises -----

  /** Periodic: the claims of one start have strictly increasing deadlines, so no
      deadline is fired twice, and all are in phase with what that start stored;
      the next deadline is later still and in phase too. */
  lemma PeriodicFiresOnce(cfg: Config, s: State, i: nat, j: nat)
    requires Reachable(cfg, s) && cfg.repeat && i < j < |s.log| && s.log[i].Fired? && s.log[j].Fired?
    requires s.log[i].gen == s.log[j].gen
    ensures s.log[i].deadline < s.log[j].deadline
    ensures var gen := s.log[i].gen;
            && 0 < gen <= |s.clocks| && InPhase(Base(cfg, s, gen), s.log[i].deadline, cfg.ticks)
            && InPhase(Base(cfg, s, gen), s.log[j].deadline, cfg.ticks)
            && (gen == |s.clocks| ==>
                s.log[j].deadline < s.deadline && InPhase(Base(cfg, s, gen), s.deadline, cfg.ticks))
  {
    ReachableInv(cfg, s);
    assert Ordered(s.log, i, j) && EventOk(cfg, s, i) && EventOk(cfg, s, j);
  }

  /** Of the cores that loaded one deadline, the compare-exchange of at most one
      lands: afterwards the deadline is past that core's clock and no core's
      loaded value from before it is current again until `start` stores. */
  lemma ClaimReArms(cfg: Config, s: State, c: Core)
    requires Reachable(cfg, s) && PcOf(s, c).Ready?
    ensures var pc := PcOf(s, c);
            var s' := Exec(cfg, s, Run(c));
            if s.deadline == pc.deadline
            then s'.log == s.log + [Fired(|s.clocks|, pc.deadline, pc.now)] && s'.deadline > pc.now
                 && InPhase(pc.deadline, s'.deadline, cfg.ticks)
                 && forall m: nat :: InPhase(pc.deadline, m, cfg.ticks) && m > pc.now ==> s'.deadline <= m
            else s'.log == s.log && s'.deadline == s.deadline
  {
    ReachableInv(cfg, s);
    assert CoreOk(cfg, s, c);
    var pc := PcOf(s, c);
    if s.deadline == pc.deadline && pc.period > 0 { NextIsLeast(pc.deadline, pc.now, pc.period); }
  }

  /** One-shot: between two fires, and before the first, there is a start. */
  lemma OneShotFiresOncePerStart(cfg: Config, s: State, i: int, j: int)
    requires Reachable(cfg, s) && !cfg.repeat && -1 <= i < j < |s.log| && (i == -1 || s.log[i].Fired?)
    requires s.log[j].Fired?
    ensures StartBetween(s.log, i, j)
  {
    ReachableInv(cfg, s);
    assert OncePerStart(s.log, i, j);
  }

  // ----- One-shots that fire on time -----

  predicate StoresDeadline(s: State, step: Step) {
    step.Start? && StarterOf(s, step.caller).ClockRead?
  }

  /** No deadline store of the run falls between a core's load of the deadline and
      its swap of `active`. */
  ghost predicate Undisturbed(cfg: Config, s: State, steps: seq<Step>)
    decreases |steps|
  {
    steps == [] ||
    (&& (StoresDeadline(s, steps[0]) ==> forall c: Core :: !PcOf(s, c).Due?)
     && Undisturbed(cfg, Exec(cfg, s, steps[0]), steps[1..]))
  }

  // The fire at position `i` of the log comes at or after the deadline its start stored.
  ghost predicate OnTime(cfg: Config, s: State, i: nat) {
    i < |s.log| && s.log[i].Fired? ==>
      0 < s.log[i].gen <= |s.clocks| && s.log[i].deadline == Base(cfg, s, s.log[i].gen) <= s.log[i].now
  }

  ghost predicate Fresh(s: State, c: Core) {
    PcOf(s, c).Due? ==> PcOf(s, c).gen == |s.clocks|
  }

  lemma StaysFresh(cfg: Config, s: State, step: Step)
    requires cfg.Valid() && !cfg.repeat && Inv(cfg, s) && forall c: Core :: Fresh(s, c)
    requires StoresDeadline(s, step) ==> forall c: Core :: !PcOf(s, c).Due?
    ensures forall c: Core :: Fresh(Exec(cfg, s, step), c)
  {
    forall c: Core ensures Fresh(Exec(cfg, s, step), c) { assert Fresh(s, c) && CoreOk(cfg, s, c); }
  }

  lemma UndisturbedStep(cfg: Config, s: State, step: Step)
    requires cfg.Valid() && !cfg.repeat && Inv(cfg, s)
    requires (forall c: Core :: Fresh(s, c)) && forall i: nat :: OnTime(cfg, s, i)
    requires StoresDeadline(s, step) ==> forall c: Core :: !PcOf(s, c).Due?
    ensures var s' := Exec(cfg, s, step); (forall c: Core :: Fresh(s', c)) && forall i: nat :: OnTime(cfg, s', i)
  {
    var s' := Exec(cfg, s, step);
    StaysFresh(cfg, s, step);
    if step.Run? { assert Fresh(s, step.core) && CoreOk(cfg, s, step.core); }
    forall i: nat ensures OnTime(cfg, s', i) { assert OnTime(cfg, s, i); }
  }

  lemma {:induction false} UndisturbedRun(cfg: Config, s: State, steps: seq<Step>, s': State)
    requires cfg.Valid() && !cfg.repeat && Inv(cfg, s)
    requires (forall c: Core :: Fresh(s, c)) && forall i: nat :: OnTime(cfg, s, i)
    requires Runs(cfg, s, steps, s') && Undisturbed(cfg, s, steps)
    ensures forall i: nat :: OnTime(cfg, s', i)
    decreases |steps|
  {
    if steps != [] {
      StepKeepsInv(cfg, s, steps[0]);
      UndisturbedStep(cfg, s, steps[0]);
      UndisturbedRun(cfg, Exec(cfg, s, steps[0]), steps[1..], s');
    }
  }

  /** In every run that stores no deadline inside a core's window between load and
      swap, every fire of a one-shot has the deadline its start stored, at or
      before the core's clock. */
  lemma OneShotFiresOnTime(cfg: Config, steps: seq<Step>, s: State, i: nat)
    requires cfg.Valid() && !cfg.repeat && Runs(cfg, Init, steps, s) && Undisturbed(cfg, Init, steps)
    requires i < |s.log| && s.log[i].Fired?
    ensures 0 < s.log[i].gen <= |s.clocks| && s.log[i].deadline == Base(cfg, s, s.log[i].gen) <= s.log[i].now
  {
    UndisturbedRun(cfg, Init, steps, s);
    assert OnTime(cfg, s, i);
  }

  // A run in which core `c` does nothing and no deadline is stored.
  ghost predicate WithoutStore(cfg: Config, s: State, steps: seq<Step>, c: Core)
    decreases |steps|
  {
    steps == [] ||
    (!StoresDeadline(s, steps[0]) && steps[0] != Run(c) && WithoutStore(cfg, Exec(cfg, s, steps[0]), steps[1..], c))
  }

  lemma {:induction false} WindowStays(cfg: Config, s: State, steps: seq<Step>, s': State, c: Core)
    requires Runs(cfg, s, steps, s') && PcOf(s, c).Due? && WithoutStore(cfg, s, steps, c)
    ensures PcOf(s', c) == PcOf(s, c) && s'.clocks == s.clocks
    decreases |steps|
  {
    if steps != [] { WindowStays(cfg, Exec(cfg, s, steps[0]), steps[1..], s', c); }
  }

  /** The last store in a core's window decides.  Whatever else happens between it
      and the swap, a core that claims the one-shot fires it before its deadline if
      and only if the store's clock plus the duration is past the core's clock;
      always so when the restart read its clock no earlier than the core did. */
  lemma RestartFiresEarlyIff(cfg: Config, s: State, w: nat, c: Core, steps: seq<Step>, s': State)
    requires Reachable(cfg, s) && !cfg.repeat && PcOf(s, c).Due? && StarterOf(s, w).ClockRead?
    requires Runs(cfg, Exec(cfg, s, Start(w)), steps, s') && WithoutStore(cfg, Exec(cfg, s, Start(w)), steps, c)
    requires s'.active
    ensures var pc, clock, t := PcOf(s, c), StarterOf(s, w).clock, Exec(cfg, s', Run(c));
            && t.log == s'.log + [Fired(|t.clocks|, pc.deadline, pc.now)] && t.clocks != []
            && (pc.now < Base(cfg, t, |t.clocks|) <==> pc.now < clock + cfg.ticks)
            && (pc.now <= clock && cfg.ticks > 0 ==> pc.now < Base(cfg, t, |t.clocks|))
  {
    WindowStays(cfg, Exec(cfg, s, Start(w)), steps, s', c);
  }

  lemma {:induction false} RunsThen(cfg: Config, s: State, steps: seq<Step>, s': State, step: Step)
    requires Runs(cfg, s, steps, s')
    ensures Runs(cfg, s, steps + [step], Exec(cfg, s', step))
    decreases |steps|
  {
    if steps == [] {
      assert Runs(cfg, Exec(cfg, s, step), [], Exec(cfg, s, step));
    } else {
      RunsThen(cfg, Exec(cfg, s, steps[0]), steps[1..], s', step);
      assert (steps + [step])[1..] == steps[1..] + [step];
    }
  }

  lemma Reaches(cfg: Config, s: State, step: Step) returns (s': State)
    requires Reachable(cfg, s)
    ensures s' == Exec(cfg, s, step) && Reachable(cfg, s')
  {
    var steps :| Runs(cfg, Init, steps, s);
    RunsThen(cfg, Init, steps, s, step);
    s' := Exec(cfg, s, step);
  }

  // A whole `start` with nothing in between.
  lemma StartsWhole(cfg: Config, s: State, w: nat) returns (s': State)
    requires Reachable(cfg, s) && StarterOf(s, w).Resting?
    ensures Reachable(cfg, s')
    ensures s' == s.(period := cfg.ticks, deadline := s.counter + cfg.ticks, clocks := s.clocks + [s.counter],
                     active := true, log := s.log + [Started], starters := s.starters[w := Resting])
  {
    s' := Reaches(cfg, s, Start(w));
    s' := Reaches(cfg, s', Start(w));
    s' := Reaches(cfg, s', Start(w));
    s' := Reaches(cfg, s', Start(w));
    assert s'.starters == s.starters[w := Resting];
  }

  // A core takes the interrupt and finds the timer due.
  lemma FindsDue(cfg: Config, s: State, c: Core) returns (s': State)
    requires Reachable(cfg, s) && s.active && s.deadline <= s.counter && PcOf(s, c).Idle?
    ensures Reachable(cfg, s') && s' == s.(cores := s.cores[c := Due(s.counter, s.deadline, |s.clocks|)])
  {
    s' := Reaches(cfg, s, Enter(c));
    s' := Reaches(cfg, s', Run(c));
    s' := Reaches(cfg, s', Run(c));
    assert s'.cores == s.cores[c := Due(s.counter, s.deadline, |s.clocks|)];
  }

  /** Restarting a one-shot while a core is between its due check and its swap
      lets that core fire it five ticks before the new deadline. */
  lemma RestartCanFireEarly() returns (s: State)
    ensures var cfg := Config(false, 5);
            && Reachable(cfg, s) && PcOf(s, 0).Due? && s.active && s.counter == 10
            && Exec(cfg, s, Run(0)).log == s.log + [Fired(2, 5, 10)] && s.deadline == 15
  {
    var cfg := Config(false, 5);
    assert Runs(cfg, Init, [], Init);
    s := StartsWhole(cfg, Init, 0);
    s := Reaches(cfg, s, Tick(10));
    s := FindsDue(cfg, s, 0);
    s := StartsWhole(cfg, s, 0);
  }

  /** The restart may come from the timer's own callback: two cores find it due, one
      claims it and its callback starts it again, and the other core, still on its
      way to the swap, fires the new start at once. */
  lemma CallbackRestartFiresEarly() returns (s: State)
    ensures var cfg := Config(false, 5);
            && Reachable(cfg, s) && PcOf(s, 1).Firing? && PcOf(s, 0).Due? && s.active && s.counter == 10
            && s.deadline == 15
            && s.log == [Started, Fired(1, 5, 10), Started] && Exec(cfg, s, Run(0)).log == s.log + [Fired(2, 5, 10)]
  {
    var cfg := Config(false, 5);
    assert Runs(cfg, Init, [], Init);
    s := StartsWhole(cfg, Init, 0);
    s := Reaches(cfg, s, Tick(10));
    s := FindsDue(cfg, s, 0);
    s := FindsDue(cfg, s, 1);
    s := Reaches(cfg, s, Run(1));
    s := StartsWhole(cfg, s, 1);
  }

  // ----- One core at a time, and cancelling -----

  // A core takes the interrupt and comes to the end of its work on this timer, alone.
  function Handles(cfg: Config, s: State, c: Core): State {
    var s1 := Exec(cfg, s, Enter(c));
    var s2 := Exec(cfg, s1, Run(c));
    var s3 := Exec(cfg, s2, Run(c));
    var s4 := Exec(cfg, s3, Run(c));
    Exec(cfg, s4, Run(c))
  }

  /** A core alone with the timer fires it if and only if it is active and due.  A
      one-shot is then inactive; a periodic timer stays active and is due again at the
      least deadline in phase past the clock. */
  lemma HandlerFiresIff(cfg: Config, s: State, c: Core)
    requires Reachable(cfg, s) && PcOf(s, c).Idle?
    ensures var s' := Handles(cfg, s, c);
            if s.active && s.deadline <= s.counter
            then && s'.log == s.log + [Fired(|s.clocks|, s.deadline, s.counter)] && PcOf(s', c).Firing?
                 && s'.active == cfg.repeat && s'.clocks == s.clocks
                 && (if !cfg.repeat then s'.deadline == s.deadline
                     else && s'.deadline > s.counter && InPhase(s.deadline, s'.deadline, cfg.ticks)
                          && forall m: nat :: InPhase(s.deadline, m, cfg.ticks) && m > s.counter ==> s'.deadline <= m)
            else s' == s.(cores := s'.cores) && PcOf(s', c).Idle?
  {
    ReachableInv(cfg, s);
    if s.active && s.deadline <= s.counter {
      var s1 := Exec(cfg, s, Enter(c));
      var s2 := Exec(cfg, s1, Run(c));
      var s3 := Exec(cfg, s2, Run(c));
      assert PcOf(s3, c) == Due(s.counter, s.deadline, |s.clocks|);
      if cfg.repeat { NextIsLeast(s.deadline, s.counter, cfg.ticks); }
    }
  }

  // The last store of a `start`, which makes the timer active.
  predicate Activates(s: State, step: Step) {
    step.Start? && StarterOf(s, step.caller).DeadlineStored?
  }

  ghost predicate NoActivation(cfg: Config, s: State, steps: seq<Step>)
    decreases |steps|
  {
    steps == [] || (!Activates(s, steps[0]) && NoActivation(cfg, Exec(cfg, s, steps[0]), steps[1..]))
  }

  // The core has yet to load `active`.
  predicate NotLoaded(s: State, c: Core) {
    PcOf(s, c).Idle? || PcOf(s, c).Entered?
  }

  lemma InactiveStep(cfg: Config, s: State, step: Step, c: Core)
    requires cfg.Valid() && Inv(cfg, s) && !Activates(s, step) && !s.active
    ensures var s' := Exec(cfg, s, step);
            !s'.active && (NotLoaded(s, c) ==> NotLoaded(s', c)) && (!cfg.repeat ==> s'.log == s.log)
  {
    if step.Run? { assert CoreOk(cfg, s, step.core); }
  }

  lemma {:induction false} StaysInactive(cfg: Config, s: State, steps: seq<Step>, s': State, c: Core)
    requires cfg.Valid() && Inv(cfg, s) && Runs(cfg, s, steps, s') && NoActivation(cfg, s, steps) && !s.active
    ensures !s'.active && (NotLoaded(s, c) ==> NotLoaded(s', c)) && (!cfg.repeat ==> s'.log == s.log)
    decreases |steps|
  {
    if steps != [] {
      InactiveStep(cfg, s, steps[0], c);
      StepKeepsInv(cfg, s, steps[0]);
      StaysInactive(cfg, Exec(cfg, s, steps[0]), steps[1..], s', c);
    }
  }

  // A step that stops the timer: a cancel, or a periodic callback that says so.
  predicate Stops(cfg: Config, s: State, step: Step) {
    step.Cancel? || (step.Return? && PcOf(s, step.core).Firing? && cfg.repeat && !step.again)
  }

  /** Once stopped, and until a start makes it active again, the timer stays inactive, a
      one-shot never fires, and a periodic one is fired by no core that had yet to load
      `active`. */
  lemma StoppedStaysStopped(cfg: Config, s: State, step: Step, steps: seq<Step>, s': State, c: Core)
    requires Reachable(cfg, s) && Stops(cfg, s, step)
    requires Runs(cfg, Exec(cfg, s, step), steps, s') && NoActivation(cfg, Exec(cfg, s, step), steps)
    ensures !s'.active && (!cfg.repeat ==> s'.log == s.log)
    ensures NotLoaded(s, c) ==> NotLoaded(s', c)
  {
    ReachableInv(cfg, s);
    StepKeepsInv(cfg, s, step);
    StaysInactive(cfg, Exec(cfg, s, step), steps, s', c);
  }

  /** An active timer is stopped by nothing else but the claim of a one-shot. */
  lemma StoppedByIff(cfg: Config, s: State, step: Step)
    requires Reachable(cfg, s) && s.active
    ensures !Exec(cfg, s, step).active
            <==> Stops(cfg, s, step) || (step.Run? && PcOf(s, step.core).Due? && !cfg.repeat)
  {
    ReachableInv(cfg, s);
    if step.Run? { assert CoreOk(cfg, s, step.core); }
  }

  /** A core past that load fires a cancelled periodic timer once more. */
  lemma CancelledFiresOnce() returns (s: State)
    ensures var cfg := Config(true, 5);
            && Reachable(cfg, s) && !s.active && s.log == [Started] && PcOf(s, 0).Ready?
            && Exec(cfg, s, Run(0)).log == [Started, Fired(1, 5, 10)]
  {
    var cfg := Config(true, 5);
    assert Runs(cfg, Init, [], Init);
    s := StartsWhole(cfg, Init, 0);
    s := Reaches(cfg, s, Tick(10));
    s := FindsDue(cfg, s, 0);
    s := Reaches(cfg, s, Run(0));
    s := Reaches(cfg, s, Cancel);
  }

  // ----- The table of timers -----

  type TimerId = nat
  const MAX_TIMERS := 8

  ghost predicate NoTimerTwice(table: seq<Option<TimerId>>) {
    forall i, j :: 0 <= i < j < |table| && table[i].Some? ==> table[i] != table[j]
  }

  ghost predicate Usable(slot: Option<TimerId>, active: set<TimerId>) {
    slot.None? || slot.value !in active
  }

  /** Registering keeps one slot per timer and drops no active timer; it fails
      exactly when all slots hold active timers and none of them is this one. */
  method Register(table: array<Option<TimerId>>, active: set<TimerId>, timer: TimerId) returns (ok: bool)
    requires table.Length == MAX_TIMERS && NoTimerTwice(table[..])
    modifies table
    ensures NoTimerTwice(table[..])
    ensures ok <==> Some(timer) in old(table[..]) || exists i :: 0 <= i < MAX_TIMERS && Usable(old(table[i]), active)
    ensures if ok then Some(timer) in table[..] else table[..] == old(table[..])
    ensures forall t :: t in active && Some(t) in old(table[..]) ==> Some(t) in table[..]
  {
    ghost var before := table[..];
    var i := 0;
    while i < table.Length
      invariant 0 <= i <= table.Length && forall j :: 0 <= j < i ==> table[j] != Some(timer)
      invariant table[..] == before
    {
      if table[i] == Some(timer) { return true; }
      i := i + 1;
    }
    i := 0;
    while i < table.Length
      invariant 0 <= i <= table.Length && forall j :: 0 <= j < i ==> !Usable(before[j], active)
      invariant table[..] == before
    {
      if table[i].None? || table[i].value !in active {
        assert Usable(before[i], active);
        table[i] := Some(timer);
        assert table[..] == before[i := Some(timer)];
        forall t | t in active && Some(t) in before ensures Some(t) in table[..] {
          var k :| 0 <= k < |before| && before[k] == Some(t);
          assert table[..][k] == before[k];
        }
        assert table[..][i] == Some(timer);
        return true;
      }
      i := i + 1;
    }
    return false;
  }

  ghost predicate Armable(table: seq<Option<TimerId>>, active: set<TimerId>, t: TimerId) {
    Some(t) in table && t in active
  }

  /** The hardware is armed for the least deadline of a registered active timer,
      and disarmed exactly when there is none. */
  method ArmHardware(table: seq<Option<TimerId>>, active: set<TimerId>, deadline: map<TimerId, nat>)
    returns (next: Option<nat>)
    requires active <= deadline.Keys
    ensures next.None? <==> forall t: TimerId :: !Armable(table, active, t)
    ensures next.Some? ==>
      && (exists t: TimerId :: Armable(table, active, t) && deadline[t] == next.value)
      && (forall t: TimerId :: Armable(table, active, t) ==> next.value <= deadline[t])
  {
    next := None;
    ghost var best: TimerId := 0;
    var i := 0;
    while i < |table|
      invariant 0 <= i <= |table|
      invariant next.Some? ==> Armable(table, active, best) && deadline[best] == next.value
      invariant forall j :: 0 <= j < i && table[j].Some? && table[j].value in active ==>
        next.Some? && next.value <= deadline[table[j].value]
    {
      if table[i].Some? && table[i].value in active {
        var d := deadline[table[i].value];
        if next.None? || d < next.value {
          next, best := Some(d), table[i].value;
        }
      }
      i := i + 1;
    }
  }
}
