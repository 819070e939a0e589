/**
 * Progress of the notification protocol: once every notifier has finished, a deliverable interrupt is
 * served, and a queued pause is obeyed, within seven of the hart's own steps, whatever else happens.
 */
module NotifyProgress {
  import opened BitSets
  import opened Words
  import opened Privilege
  import opened RegisterLaws
  import opened Notify

  // The hart's own steps
  predicate Own(e: Event) { e.Loop? || HartEvent(e) }

  // How many of events n .. m are the hart's own
  function OwnSteps(events: seq<Event>, n: nat, m: nat): nat
    requires n <= m <= |events|
    decreases m - n
  {
    if n == m then 0 else (if Own(events[n]) then 1 else 0) + OwnSteps(events, n + 1, m)
  }

  // ------------------------------------------------------------ interrupts

  // The hart is bound to look for interrupts: it is on its way there, or has been told to leave the dispatch loop
  predicate Serving(s: System) { s.loc in {LoopTop, Events, Irqs, CheckRead, Clear, Stopped} || !s.hart.running }

  // Own steps to the interrupt check, at most
  function Distance(loc: Loc): nat {
    match loc
    case Stopped => 0
    case Irqs => 1
    case Events => 2
    case LoopTop => 3
    case EndInsn => 4
    case Clear => 5
    case WfiSpin => 5
    case CheckRead => 6
    case WfiRead => 6
    case Scanning => 6
    case Fetch => 7
  }

  /** With every notifier finished, a deliverable interrupt has the hart bound to look for it. */
  lemma DeliverableServes(s: System)
    requires Notify.Inv(s) && Deliverable(s.hart, s.raised) && !SomeClearing(s)
    ensures Serving(s)
  {
  }

  lemma LoopServes(s: System, rv64: bool)
    requires Notify.Inv(s) && s.loc != Fetch && s.loc != Scanning && s.loc != Stopped
    requires Serving(s) && Deliverable(s.hart, s.raised)
    ensures var s' := LoopStep(s, rv64);
            Deliverable(s'.hart, s'.raised) ==> Serving(s') && Distance(s'.loc) < Distance(s.loc)
  {
    hide Pushed, CsrsOk, Takes;
    if s.loc == Irqs {
      InterruptTakenIff(s.hart, s.raised, rv64);
    } else if s.loc == CheckRead && Pending(s.hart, s.raised) == {} {
      NothingPending(s.hart, s.raised);
    }
  }

  lemma OwnServes(cfg: Config, s: System, e: Event, s': System)
    requires Notify.Inv(s) && Step(cfg, s, e, s') && HartEvent(e) && Serving(s)
    ensures Serving(s') && Distance(s'.loc) < Distance(s.loc)
  {
    hide CsrsOk, Deliverable, Pending, Exec, Trap;
    if e.Insn? { InsnServes(cfg, s.hart, e.a, s.raised); }
  }

  // Every step brings the hart nearer to its check, or leaves it where it is and is not its own
  lemma StepServes(cfg: Config, s: System, e: Event, s': System)
    requires Notify.Inv(s) && Step(cfg, s, e, s') && Serving(s) && s.loc != Stopped && Deliverable(s.hart, s.raised)
    ensures Deliverable(s'.hart, s'.raised) ==>
              Serving(s') && if Own(e) then Distance(s'.loc) < Distance(s.loc) else Distance(s'.loc) == Distance(s.loc)
  {
    hide Deliverable, LoopStep, Notify.Inv;
    if e.Loop? { LoopServes(s, e.rv64); } else if HartEvent(e) { OwnServes(cfg, s, e, s'); }
  }

  // The interrupt is served, withdrawn, or the hart has stopped
  ghost predicate Settled(s: System) { s.loc == Stopped || !Deliverable(s.hart, s.raised) }

  lemma {:induction false} ServedFrom(cfg: Config, states: seq<System>, events: seq<Event>, n: nat, m: nat)
    returns (k: nat)
    requires Run(cfg, states, events) && n <= m <= |events| && Serving(states[n])
    requires OwnSteps(events, n, m) >= Distance(states[n].loc)
    ensures n <= k <= m && Settled(states[k])
    decreases m - n
  {
    hide Deliverable, Notify.Inv, Step;
    k := n;
    if !Settled(states[n]) {
      Notify.RunKeepsInv(cfg, states, events, n);
      assert Step(cfg, states[n], events[n], states[n + 1]);
      StepServes(cfg, states[n], events[n], states[n + 1]);
      k := n + 1;
      if !Settled(states[n + 1]) { k := ServedFrom(cfg, states, events, n + 1, m); }
    }
  }

  /** In every interleaving: once every notifier has finished, within seven of the hart's own steps no line is waiting
      any more, whether taken or withdrawn, or the hart is paused. */
  lemma InterruptIsServed(cfg: Config, states: seq<System>, events: seq<Event>, n: nat, m: nat) returns (k: nat)
    requires Run(cfg, states, events) && n <= m <= |events|
    requires !SomeClearing(states[n]) && OwnSteps(events, n, m) >= 7
    ensures n <= k <= m
    ensures states[k].loc == Stopped || forall irq :: !Waiting(states[k].hart, states[k].raised, irq)
  {
    hide Deliverable, Notify.Inv, Step, Waiting;
    Notify.RunKeepsInv(cfg, states, events, n);
    if Settled(states[n]) {
      k := n;
    } else {
      DeliverableServes(states[n]);
      k := ServedFrom(cfg, states, events, n, m);
    }
    Notify.RunKeepsInv(cfg, states, events, k);
    ReachesLegal(states[k]);
    DeliverableIffWaiting(states[k].hart, states[k].raised);
  }

  lemma ReachesLegal(s: System)
    requires Notify.Inv(s)
    ensures s.hart.priv != H
  {
  }

  /** And at the check a waiting line is taken, with the number of the highest line of its mode and nothing left
      waiting. */
  lemma CheckTakes(s: System, irq: nat, rv64: bool) returns (t: nat, j: nat)
    requires Notify.Inv(s) && s.loc == Irqs && Waiting(s.hart, s.raised, irq)
    ensures var s' := LoopStep(s, rv64);
            && HighestUp(s.hart, s.raised, t, j) && TakesLine(s.hart, s'.hart, t, j, rv64)
            && (t == 3 || (t == 1 && s.hart.priv <= 1)) && forall i :: !Waiting(s'.hart, s'.raised, i)
  {
    hide Pushed, CsrsOk, Takes, Deliverable, Waiting, HighestUp, TakesLine, LineUp;
    InterruptTaken(s.hart, s.raised, rv64);
    InterruptTakenIff(s.hart, s.raised, rv64);
    DeliverableIffWaiting(s.hart, s.raised);
    var s' := LoopStep(s, rv64);
    DeliverableIffWaiting(s'.hart, s'.raised);
    t := if exists i :: LineUp(s.hart, s.raised, i) && i !in s.hart.csr.ideleg.m then 3 else 1;
    j :| HighestUp(s.hart, s.raised, t, j) && TakesLine(s.hart, s'.hart, t, j, rv64);
    EntersMode(s.hart, s'.hart, t, j, rv64);
  }

  lemma EntersMode(s: State, s': State, t: nat, j: nat, rv64: bool)
    requires TakesLine(s, s', t, j, rv64)
    ensures s'.priv == t
  {
  }

  // ------------------------------------------------------------ pauses

  predicate Pausing(s: System) { s.pause && (s.loc in {LoopTop, Events, Clear, Stopped} || !s.hart.running) }

  // Own steps to the event check, at most
  function PauseDistance(loc: Loc): nat {
    match loc
    case Stopped => 0
    case Events => 1
    case LoopTop => 2
    case EndInsn => 3
    case Clear => 4
    case WfiSpin => 4
    case CheckRead => 5
    case WfiRead => 5
    case Scanning => 5
    case Fetch => 6
    case Irqs => 7
  }

  lemma StepPauses(cfg: Config, s: System, e: Event, s': System)
    requires Notify.Inv(s) && Step(cfg, s, e, s') && Pausing(s) && s.loc != Stopped
    ensures s'.loc == Stopped
            || (Pausing(s') && if Own(e) then PauseDistance(s'.loc) < PauseDistance(s.loc)
                               else PauseDistance(s'.loc) == PauseDistance(s.loc))
  {
    hide CsrsOk, Deliverable, Pending, Exec, Trap, Pushed, Takes;
    if e.Insn? { InsnServes(cfg, s.hart, e.a, s.raised); }
  }

  lemma {:induction false} PausedFrom(cfg: Config, states: seq<System>, events: seq<Event>, n: nat, m: nat)
    returns (k: nat)
    requires Run(cfg, states, events) && n <= m <= |events| && (states[n].loc == Stopped || Pausing(states[n]))
    requires OwnSteps(events, n, m) >= PauseDistance(states[n].loc)
    ensures n <= k <= m && states[k].loc == Stopped
    decreases m - n
  {
    hide Notify.Inv, Step;
    k := n;
    if states[n].loc != Stopped {
      Notify.RunKeepsInv(cfg, states, events, n);
      assert Step(cfg, states[n], events[n], states[n + 1]);
      StepPauses(cfg, states[n], events[n], states[n + 1]);
      k := n + 1;
      if states[n + 1].loc != Stopped { k := PausedFrom(cfg, states, events, n + 1, m); }
    }
  }

  /** In every interleaving: a queued pause whose notifiers have finished stops the hart within seven of its own
      steps. */
  lemma PauseIsObeyed(cfg: Config, states: seq<System>, events: seq<Event>, n: nat, m: nat) returns (k: nat)
    requires Run(cfg, states, events) && n <= m <= |events|
    requires states[n].pause && !SomeClearing(states[n]) && OwnSteps(events, n, m) >= 7
    ensures n <= k <= m && states[k].loc == Stopped
  {
    hide Step;
    Notify.RunKeepsInv(cfg, states, events, n);
    k := PausedFrom(cfg, states, events, n, m);
  }

  // ------------------------------------------------------------ from the notifier's call on

  // The event takes the line down
  predicate Drops(e: Event, irq: nat) {
    (e.ClearIrq? || e.SelfClear? || e.AiaClear?) && e.irq == irq
  }

  // A line once raised stays up until something takes it down
  lemma {:induction false} RaisedStaysUp(cfg: Config, states: seq<System>, events: seq<Event>, n: nat, m: nat, irq: nat)
    requires Run(cfg, states, events) && n <= m <= |events| && irq in states[n].raised
    requires forall i :: n <= i < m ==> !Drops(events[i], irq)
    ensures irq in states[m].raised
    decreases m - n
  {
    if n < m {
      assert Step(cfg, states[n], events[n], states[n + 1]);
      StepKeepsLine(cfg, states[n], events[n], states[n + 1], irq);
      RaisedStaysUp(cfg, states, events, n + 1, m, irq);
    }
  }

  lemma StepKeepsLine(cfg: Config, s: System, e: Event, s': System, irq: nat)
    requires Step(cfg, s, e, s') && irq in s.raised && !Drops(e, irq)
    ensures irq in s'.raised
  {
    hide Exec, HandleIrqs, Trap;
  }

  /**
   * From the call on: a thread or the hart itself raises a line, and nothing takes it down. Once every
   * notifier has finished, within seven of the hart's own steps there is a state in which the line is up
   * and the hart is paused, or the line is not enabled, or the mode it goes to is not open to it.
   */
  lemma RaiseIsServed(cfg: Config, states: seq<System>, events: seq<Event>, n: nat, p: nat, m: nat, irq: nat)
    returns (k: nat)
    requires Run(cfg, states, events) && n < p <= m <= |events| && irq < 32
    requires (events[n].Raise? || events[n].SelfRaise? || events[n].AiaRaise?) && events[n].irq == irq
    requires forall i :: n < i < m ==> !Drops(events[i], irq)
    requires !SomeClearing(states[p]) && OwnSteps(events, p, m) >= 7
    ensures p <= k <= m && irq in states[k].raised
    ensures var h := states[k].hart;
            || states[k].loc == Stopped || irq !in h.csr.ie
            || (if irq in h.csr.ideleg.m then h.priv > 1 || (h.priv == 1 && 1 !in h.csr.status)
                else h.priv == 3 && 3 !in h.csr.status)
  {
    hide Step, Notify.Inv;
    k := InterruptIsServed(cfg, states, events, p, m);
    assert Step(cfg, states[n], events[n], states[n + 1]);
    RaiseRaises(cfg, states[n], events[n], states[n + 1]);
    RaisedStaysUp(cfg, states, events, n + 1, k, irq);
    assert states[k].loc == Stopped || !Waiting(states[k].hart, states[k].raised, irq);
  }

  lemma RaiseRaises(cfg: Config, s: System, e: Event, s': System)
    requires Step(cfg, s, e, s') && (e.Raise? || e.SelfRaise? || e.AiaRaise?)
    ensures e.irq in s'.raised
  {
  }

  // A queued pause stays queued until the hart stops
  lemma {:induction false} PauseStays(cfg: Config, states: seq<System>, events: seq<Event>, n: nat, m: nat)
    returns (k: nat)
    requires Run(cfg, states, events) && n <= m <= |events| && states[n].pause
    ensures n <= k <= m && (states[k].loc == Stopped || (k == m && states[m].pause))
    decreases m - n
  {
    hide Step;
    k := n;
    if n < m {
      assert Step(cfg, states[n], events[n], states[n + 1]);
      StepKeepsPause(cfg, states[n], events[n], states[n + 1]);
      k := n + 1;
      if states[n + 1].pause { k := PauseStays(cfg, states, events, n + 1, m); }
    }
  }

  lemma StepKeepsPause(cfg: Config, s: System, e: Event, s': System)
    requires Step(cfg, s, e, s') && s.pause
    ensures s'.pause || s'.loc == Stopped
  {
    hide Exec, HandleIrqs, Trap;
  }

  /** From the call on: a thread queues a pause. Once every notifier has finished, the hart has stopped within seven of
      its own steps. */
  lemma PauseCallIsObeyed(cfg: Config, states: seq<System>, events: seq<Event>, n: nat, p: nat, m: nat)
    returns (k: nat)
    requires Run(cfg, states, events) && n < p <= m <= |events| && events[n].QueuePause?
    requires !SomeClearing(states[p]) && OwnSteps(events, p, m) >= 7
    ensures n < k <= m && states[k].loc == Stopped
  {
    hide Step;
    assert Step(cfg, states[n], events[n], states[n + 1]);
    PauseQueues(cfg, states[n], events[n], states[n + 1]);
    k := PauseStays(cfg, states, events, n + 1, p);
    if states[k].loc != Stopped { k := PauseIsObeyed(cfg, states, events, p, m); }
  }

  lemma PauseQueues(cfg: Config, s: System, e: Event, s': System)
    requires Step(cfg, s, e, s') && e.QueuePause?
    ensures s'.pause
  {
  }

  // ------------------------------------------------------------ single steps

  /** The hart leaves its dispatch loop after a check, and passes through wfi at once, if and only if an enabled line is
      up; it leaves a stalled wfi if and only if it has been told to stop. */
  lemma CheckOutcome(s: System, rv64: bool)
    ensures s.loc == CheckRead ==>
              LoopStep(s, rv64) == s.(loc := if exists irq :: LineUp(s.hart, s.raised, irq) then Clear else EndInsn)
    ensures s.loc == WfiRead ==>
              LoopStep(s, rv64) == s.(loc := if exists irq :: LineUp(s.hart, s.raised, irq) then EndInsn else WfiSpin)
    ensures s.loc == WfiSpin ==> LoopStep(s, rv64) == s.(loc := if s.hart.running then WfiSpin else EndInsn)
  {
    hide LineUp;
    PendingIsUp(s.hart, s.raised);
  }

  /** No notifier ever waits: whatever the hart and the others do, it can take its next step. */
  lemma NotifiersNeverWait(cfg: Config, s: System, t: nat, irq: nat)
    requires t < |s.notifiers|
    ensures s.notifiers[t] == Ready ==>
              && (exists s' :: Step(cfg, s, Raise(t, irq), s')) && (exists s' :: Step(cfg, s, QueuePause(t), s'))
              && exists s' :: Step(cfg, s, Preempt(t), s')
    ensures s.notifiers[t] == Clearing ==> exists s' :: Step(cfg, s, Finish(t), s')
  {
    if s.notifiers[t] == Ready {
      var ns := s.notifiers[t := Clearing];
      var n := if irq in s.raised then Ready else Clearing;
      assert Step(cfg, s, Raise(t, irq), Raised(s, irq).(notifiers := s.notifiers[t := n]));
      assert Step(cfg, s, QueuePause(t), s.(pause := true, notifiers := ns));
      assert Step(cfg, s, Preempt(t), s.(preempt := true, notifiers := ns));
    } else {
      var h := s.hart.(running := false);
      assert Step(cfg, s, Finish(t), s.(hart := h, notifiers := s.notifiers[t := Ready]));
    }
  }

  /** A hart spawned after reset, with any lines up and any number of threads about, starts a run. */
  lemma SpawnStartsRun(cfg: Config, machine64: bool, pc: Word, raised: Bits, n: nat)
    ensures Run(cfg, [System(InitState(machine64, pc), LoopTop, raised, false, false, seq(n, _ => Ready))], [])
  {
    InitInv(machine64, pc);
  }
}
