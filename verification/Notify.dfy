/**
 * The lock-free notification protocol between a hart's run loop and the threads that raise
 * interrupts or queue a pause: every interleaving of their atomic actions, under sequential
 * consistency. The shared variables are the raised interrupts, the pending events and `running`.
 */
module Notify {
  import opened BitSets
  import opened Powers
  import opened Words
  import opened Privilege
  import opened RegisterLaws

  // Where the hart is: the run loop, the dispatch loop, or inside an instruction
  datatype Loc =
    | LoopTop    // about to store running = true
    | Events     // about to swap the pending events
    | Irqs       // about to read the raised interrupts and deliver
    | Fetch      // about to execute an instruction
    | CheckRead  // in riscv_hart_check_interrupts, about to read the raised interrupts
    | Clear      // about to store running = false
    | Scanning   // in an AIA register access, the line cleared and the registers being scanned
    | WfiRead    // in wfi, about to read the raised interrupts
    | WfiSpin    // in wfi, waiting for running to become false
    | EndInsn    // about to read running
    | Stopped    // paused

  // A notifier has set its bit and still has to store running = false, or has nothing to do
  datatype Notifier = Ready | Clearing

  datatype System = System(
    hart: State, loc: Loc, raised: Bits, pause: bool, preempt: bool, notifiers: seq<Notifier>)

  datatype Event =
    // The hart's own next action
    | Loop(rv64: bool)
    | Insn(a: Action)
    | FetchFault(cause: Word, tval: Word)
    | Wfi
    | SelfRaise(irq: nat)
    | SelfClear(irq: nat)
    | AiaClear(irq: nat)
    | AiaRaise(irq: nat)
    | AiaDone
    // A notifier thread
    | Raise(t: nat, irq: nat)
    | QueuePause(t: nat)
    | Preempt(t: nat)
    | Finish(t: nat)
    // Anyone
    | ClearIrq(irq: nat)

  // mideleg is the one register whose writes are not followed by an interrupt check
  predicate WritesMideleg(a: Action) { a.CsrInsn? && Select(a.id) == Csr(Ideleg, M) }

  function AfterCheck(s: System): System { s.(loc := if Pending(s.hart, s.raised) != {} then Clear else EndInsn) }

  // The next action of the run loop or dispatch loop when it does not start an instruction
  ghost function LoopStep(s: System, rv64: bool): System {
    match s.loc
    case LoopTop => s.(hart := s.hart.(running := true), loc := Events)
    case Events => s.(pause := false, preempt := false, loc := if s.pause then Stopped else Irqs)
    case Irqs => s.(hart := HandleIrqs(s.hart, s.raised, rv64), loc := Fetch)
    case CheckRead => AfterCheck(s)
    case Clear => s.(hart := s.hart.(running := false), loc := EndInsn)
    case WfiRead => s.(loc := if Pending(s.hart, s.raised) != {} then EndInsn else WfiSpin)
    case WfiSpin => if s.hart.running then s else s.(loc := EndInsn)
    case EndInsn => s.(hart := Settle(s.hart), loc := if s.hart.running then Fetch else LoopTop)
    case Fetch => s
    case Scanning => s
    case Stopped => s
  }

  // A raise notifies only if the bit was not already set
  function Raised(s: System, irq: nat): System { s.(raised := s.raised + {irq}) }

  ghost predicate Step(cfg: Config, s: System, e: Event, s': System) {
    match e
    case Loop(rv64) => s.loc != Fetch && s.loc != Scanning && s' == LoopStep(s, rv64)
    case Insn(a) =>
      && s.loc == Fetch && !a.Interrupt? && !WritesMideleg(a)
      && var h := Exec(cfg, s.hart, a);
         s' == s.(hart := h, loc := if h.check then CheckRead else EndInsn)
    case FetchFault(cause, tval) =>
      s.loc == Fetch && s' == s.(hart := Settle(Trap(s.hart, cause, tval)), loc := LoopTop)
    case Wfi => s.loc == Fetch && s' == s.(loc := WfiRead)
    case SelfRaise(irq) =>
      s.loc == Fetch && s' == Raised(s, irq).(loc := if irq in s.raised then EndInsn else Clear)
    case SelfClear(irq) => s.loc == Fetch && s' == s.(raised := s.raised - {irq}, loc := EndInsn)
    case AiaClear(irq) => s.loc == Fetch && s' == s.(raised := s.raised - {irq}, loc := Scanning)
    case AiaRaise(irq) =>
      s.loc == Scanning && s' == Raised(s, irq).(loc := if irq in s.raised then EndInsn else Clear)
    case AiaDone => s.loc == Scanning && s' == s.(loc := EndInsn)
    case Raise(t, irq) =>
      && t < |s.notifiers| && s.notifiers[t] == Ready
      && s' == Raised(s, irq).(notifiers := s.notifiers[t := if irq in s.raised then Ready else Clearing])
    case QueuePause(t) =>
      && t < |s.notifiers| && s.notifiers[t] == Ready
      && s' == s.(pause := true, notifiers := s.notifiers[t := Clearing])
    case Preempt(t) =>
      && t < |s.notifiers| && s.notifiers[t] == Ready
      && s' == s.(preempt := true, notifiers := s.notifiers[t := Clearing])
    case Finish(t) =>
      && t < |s.notifiers| && s.notifiers[t] == Clearing
      && s' == s.(hart := s.hart.(running := false), notifiers := s.notifiers[t := Ready])
    case ClearIrq(irq) => s' == s.(raised := s.raised - {irq})
  }

  // Somebody is on the way to clear running
  predicate SomeClearing(s: System) { Clearing in s.notifiers }

  // The hart is past its interrupt check and will run on
  predicate Unchecked(s: System) { s.loc in {Fetch, Scanning, EndInsn, WfiRead, WfiSpin} }

  // The hart is executing or waiting although nobody asked it to stop
  predicate RunsOn(s: System) { s.hart.running && !SomeClearing(s) }

  ghost predicate Inv(s: System) {
    && s.hart.priv != H && CsrsOk(s.hart.csr)
    && (s.loc.LoopTop? || s.loc.Events? || s.loc.Irqs? || s.loc.Fetch? ==> !s.hart.trap && !s.hart.check)
    // No lost interrupt
    && (Unchecked(s) && RunsOn(s) ==> !Deliverable(s.hart, s.raised))
    // No lost pause
    && (s.pause && RunsOn(s) ==> s.loc.Events? || s.loc.LoopTop? || s.loc.Clear? || s.loc.Stopped?)
    // No missed wake-up from wfi, also for interrupts that are not deliverable
    && (s.loc.WfiSpin? && RunsOn(s) ==> Pending(s.hart, s.raised) == {})
  }

  // ------------------------------------------------------------ instructions

  lemma FewerPending(h: State, raised: Bits, raised': Bits)
    requires raised' <= raised
    ensures Deliverable(h, raised') ==> Deliverable(h, raised)
    ensures Pending(h, raised) == {} ==> Pending(h, raised') == {}
  {
    if irq :| irq in Pending(h, raised') && Takes(h, IrqTarget(h, irq)) {
      assert irq in Pending(h, raised);
    }
    if irq :| irq in Pending(h, raised') { assert irq in Pending(h, raised); }
  }

  lemma NothingPending(h: State, raised: Bits)
    requires Pending(h, raised) == {}
    ensures !Deliverable(h, raised)
  {
  }

  /** An instruction that goes on without an interrupt check makes nothing newly deliverable. */
  lemma InsnServes(cfg: Config, h: State, a: Action, raised: Bits)
    requires h.priv != H && CsrsOk(h.csr) && !h.trap && !h.check && !a.Interrupt? && !WritesMideleg(a)
    ensures var h' := Exec(cfg, h, a);
            && h'.priv != H && CsrsOk(h'.csr)
            && (h'.running ==> h.running)
            && (h'.running && !h'.check && Deliverable(h', raised) ==> Deliverable(h, raised))
  {
    hide StatusWrite, MaskedBits, MaskedWord, LegalTvec, Ones, XlenMask, Pushed;
    Privilege.NextKeepsInv(cfg, h, a);
    var h' := Exec(cfg, h, a);
    if h'.running && !h'.check && Deliverable(h', raised) {
      var irq :| irq in Pending(h', raised) && Takes(h', IrqTarget(h', irq));
      assert irq in Pending(h, raised) && Takes(h, IrqTarget(h, irq));
    }
  }

  // ------------------------------------------------------------ every step, every run

  lemma OthersClearing(ns: seq<Notifier>, t: nat, n: Notifier)
    requires t < |ns| && ns[t] == Ready
    ensures Clearing in ns ==> Clearing in ns[t := n]
    ensures n == Clearing ==> Clearing in ns[t := n]
    ensures n == Ready && Clearing in ns[t := n] ==> Clearing in ns
  {
    if Clearing in ns {
      var j :| 0 <= j < |ns| && ns[j] == Clearing;
      assert ns[t := n][j] == Clearing;
    }
    assert ns[t := n][t] == n;
  }

  lemma LoopKeepsInv(s: System, rv64: bool)
    requires Inv(s) && s.loc != Fetch
    ensures Inv(LoopStep(s, rv64))
  {
    hide Pushed, CsrsOk, Takes;
    match s.loc
    case LoopTop =>
    case Events =>
    case Irqs =>
      assert Privilege.Inv(s.hart);
      InterruptKeepsInv(s.hart, s.raised, rv64);
      InterruptTakenIff(s.hart, s.raised, rv64);
    case CheckRead => if Pending(s.hart, s.raised) == {} { NothingPending(s.hart, s.raised); }
    case Clear =>
    case WfiRead =>
    case WfiSpin =>
    case EndInsn => SettleKeeps(s.hart, s.raised);
    case Fetch =>
    case Scanning =>
    case Stopped =>
  }

  lemma SettleKeeps(h: State, raised: Bits)
    ensures Deliverable(Settle(h), raised) == Deliverable(h, raised)
    ensures Settle(h).priv == h.priv && Settle(h).csr == h.csr && Settle(h).running == h.running
  {
    assert Pending(Settle(h), raised) == Pending(h, raised);
    if irq :| irq in Pending(h, raised) && Takes(h, IrqTarget(h, irq)) {
      assert irq in Pending(Settle(h), raised) && Takes(Settle(h), IrqTarget(Settle(h), irq));
    }
    if irq :| irq in Pending(h, raised) && Takes(Settle(h), IrqTarget(Settle(h), irq)) {
      assert Takes(h, IrqTarget(h, irq));
    }
  }

  predicate HartEvent(e: Event) {
    e.Insn? || e.FetchFault? || e.Wfi? || e.SelfRaise? || e.SelfClear? || e.AiaClear? || e.AiaRaise? || e.AiaDone?
  }

  lemma HartKeepsInv(cfg: Config, s: System, e: Event, s': System)
    requires Inv(s) && Step(cfg, s, e, s') && HartEvent(e)
    ensures Inv(s')
  {
    hide CsrsOk, Deliverable, Pending, Exec;
    match e
    case Insn(a) => InsnServes(cfg, s.hart, a, s.raised);
    case FetchFault(cause, tval) =>
      assert Privilege.Inv(s.hart);
      TrapKeepsInv(s.hart, cause, tval);
    case Wfi =>
    case SelfRaise(irq) => if irq in s.raised { assert s.raised + {irq} == s.raised; }
    case SelfClear(irq) => FewerPending(s.hart, s.raised, s'.raised);
    case AiaClear(irq) => FewerPending(s.hart, s.raised, s'.raised);
    case AiaRaise(irq) => if irq in s.raised { assert s.raised + {irq} == s.raised; }
    case AiaDone =>
  }

  lemma OtherKeepsInv(cfg: Config, s: System, e: Event, s': System)
    requires Inv(s) && Step(cfg, s, e, s')
    requires e.Raise? || e.QueuePause? || e.Preempt? || e.Finish? || e.ClearIrq?
    ensures Inv(s')
  {
    hide CsrsOk, Deliverable, Pending;
    match e
    case Raise(t, irq) =>
      OthersClearing(s.notifiers, t, if irq in s.raised then Ready else Clearing);
      if irq in s.raised { assert s.raised + {irq} == s.raised; }
    case QueuePause(t) => OthersClearing(s.notifiers, t, Clearing);
    case Preempt(t) => OthersClearing(s.notifiers, t, Clearing);
    case Finish(t) =>
    case ClearIrq(irq) => FewerPending(s.hart, s.raised, s'.raised);
  }

  /** Every atomic action of the hart, of a notifier or of a device keeps the invariant. */
  lemma StepKeepsInv(cfg: Config, s: System, e: Event, s': System)
    requires Inv(s) && Step(cfg, s, e, s')
    ensures Inv(s')
  {
    hide Inv, LoopStep;
    if e.Loop? { LoopKeepsInv(s, e.rv64); }
    else if HartEvent(e) { HartKeepsInv(cfg, s, e, s'); }
    else { OtherKeepsInv(cfg, s, e, s'); }
  }

  // The hart thread has just been spawned: events were cleared, nothing is in flight
  ghost predicate Init(s: System) {
    && Privilege.Inv(s.hart) && !s.hart.check && s.loc == LoopTop && !s.pause && !s.preempt
    && forall t :: 0 <= t < |s.notifiers| ==> s.notifiers[t] == Ready
  }

  ghost predicate Run(cfg: Config, states: seq<System>, events: seq<Event>) {
    && |states| == |events| + 1 && Init(states[0])
    && forall n :: 0 <= n < |events| ==> Step(cfg, states[n], events[n], states[n + 1])
  }

  lemma {:induction false} RunKeepsInv(cfg: Config, states: seq<System>, events: seq<Event>, n: nat)
    requires Run(cfg, states, events) && n < |states|
    ensures Inv(states[n])
  {
    if n > 0 {
      RunKeepsInv(cfg, states, events, n - 1);
      assert Step(cfg, states[n - 1], events[n - 1], states[n - 1 + 1]);
      StepKeepsInv(cfg, states[n - 1], events[n - 1], states[n]);
    }
  }

  /**
   * No lost interrupt and no lost pause. In every state of every interleaving: if a line is raised or
   * its ip bit set, enabled in mie, and open at its privilege, then `running` is false, or the hart has
   * yet to check, or a notifier that set its bit has yet to clear `running`; and likewise if a pause is
   * queued and the hart has not stopped.
   */
  lemma NothingIsLost(cfg: Config, states: seq<System>, events: seq<Event>, n: nat)
    requires Run(cfg, states, events) && n < |states|
    ensures var s := states[n];
            && (forall irq :: Waiting(s.hart, s.raised, irq) ==>
                !s.hart.running || SomeClearing(s) || s.loc in {LoopTop, Events, Irqs, CheckRead, Clear, Stopped})
            && (s.pause ==> !s.hart.running || SomeClearing(s) || s.loc in {LoopTop, Events, Clear, Stopped})
  {
    hide Waiting;
    RunKeepsInv(cfg, states, events, n);
    DeliverableIffWaiting(states[n].hart, states[n].raised);
  }

  /** A hart stalled in wfi with any enabled line up is about to be woken. */
  lemma WfiIsWoken(cfg: Config, states: seq<System>, events: seq<Event>, n: nat)
    requires Run(cfg, states, events) && n < |states|
    ensures var s := states[n];
            forall irq :: s.loc == WfiSpin && LineUp(s.hart, s.raised, irq) ==> !s.hart.running || SomeClearing(s)
  {
    PendingIsUp(states[n].hart, states[n].raised);
    RunKeepsInv(cfg, states, events, n);
  }

  // ------------------------------------------------------------ why mideleg is excluded

  /**
   * Writing mideleg keeps the guarantee if and only if it does not, with MIE set, take back the
   * delegation of a pending interrupt.
   */
  lemma MidelegExact(h: State, raised: Bits, deleg: Bits)
    requires h.priv == M && !Deliverable(h, raised)
    ensures var h' := h.(csr := h.csr.(ideleg := h.csr.ideleg.With(M, deleg)));
            Deliverable(h', raised) <==>
            MIE in h.csr.status && exists irq :: irq in Pending(h, raised) && irq in h.csr.ideleg.m && irq !in deleg
  {
    var h' := h.(csr := h.csr.(ideleg := h.csr.ideleg.With(M, deleg)));
    assert Pending(h', raised) == Pending(h, raised);
    if irq :| irq in Pending(h', raised) && Takes(h', IrqTarget(h', irq)) {
      assert irq in Pending(h, raised) && irq !in deleg && MIE in h.csr.status;
      if irq !in h.csr.ideleg.m { assert false; }
    }
    if MIE in h.csr.status {
      if irq :| irq in Pending(h, raised) && irq in h.csr.ideleg.m && irq !in deleg {
        assert irq in Pending(h', raised) && Takes(h', IrqTarget(h', irq));
      }
    }
  }

  // Delegate, enable and raise the supervisor software interrupt, and enable interrupts in machine mode
  function Setup(): seq<Action> {
    [CsrInsn(0x303, 2, SetBits, true), CsrInsn(0x304, 2, SetBits, true),
     CsrInsn(0x344, 2, SetBits, true), CsrInsn(0x300, 8, SetBits, true)]
  }

  // A machine that has just done so
  function Prepared(pc: Word): State {
    var h := InitState(true, pc);
    h.(csr := h.csr.(status := h.csr.status + {MIE}, ie := {1}, ip := {1}, ideleg := h.csr.ideleg.With(M, {1})))
  }

  /** Such a write is reachable: from reset, four CSR instructions lead to a state in which clearing mideleg makes
      a pending software interrupt deliverable, and the hart runs on without looking. */
  lemma MidelegOverlooks(cfg: Config, pc: Word)
    ensures var before := Prepared(Wrap(pc + 16)).(running := true);
            var after := Exec(cfg, before, CsrInsn(0x303, 0, Swap, true));
            && RunAll(cfg, InitState(true, pc), Setup()).(running := true) == before
            && Privilege.Inv(before) && !Deliverable(before, {})
            && Deliverable(after, {}) && after.running && !after.check
  {
    hide Exec, RunAll, Deliverable, Privilege.Inv, Setup;
    SetupRuns(cfg, pc);
    var before := Prepared(Wrap(pc + 16)).(running := true);
    TakesBack(cfg, before);
    PreparedWaits(before);
  }

  // The write leaves nothing delegated, and asks for no check
  lemma TakesBack(cfg: Config, s: State)
    requires s.priv == M && !s.check && s.csr.ideleg.m == {1}
    ensures Exec(cfg, s, CsrInsn(0x303, 0, Swap, true)) == s.(csr := s.csr.(ideleg := s.csr.ideleg.With(M, {})))
  {
    hide StatusWrite, MaskedWord, LegalTvec, Trap, Sret, Mret, PlainInsn, Ones;
    OnesOfZero();
    assert MaskedBits({1}, {}, SEIP_MASK, Swap) == {};
  }

  lemma PreparedWaits(s: State)
    requires s.priv == M && !s.trap && s.csr.ie == {1} && s.csr.ip == {1}
    requires s.csr.ideleg == PerPriv({}, {}, ALL_LINES, {1})
    requires s.csr.status == {3, 33, 35} && s.csr.edeleg == PerPriv({}, {}, ALL_LINES, {})
    requires s.csr.tvec == PerPriv(0, 0, 0, 0)
    ensures Privilege.Inv(s) && !Deliverable(s, {})
    ensures Deliverable(s.(csr := s.csr.(ideleg := s.csr.ideleg.With(M, {}))), {})
  {
    var t := s.(csr := s.csr.(ideleg := s.csr.ideleg.With(M, {})));
    assert 1 in Pending(t, {}) && Takes(t, IrqTarget(t, 1));
  }

  lemma SmallOnes()
    ensures Ones(2) == {1} && Ones(8) == {3}
  {
    hide Ones;
    assert Pow2(1) == 2;
    assert Pow2(2) == 4;
    assert Pow2(3) == 8;
    OnesOfPower(1, 2);
    OnesOfPower(3, 8);
  }

  lemma SetupStatus(cfg: Config)
    ensures StatusWrite(cfg, {33, 35}, {3}, XlenMask(MSTATUS_MASK, true), SetBits) == {3, 33, 35}
  {
    var st: Bits := {33, 35};
    assert WithXs(st) == st;
    assert MaskedBits(st, {3}, MSTATUS_MASK, SetBits) == {3, 33, 35};
    assert LegalStatus(cfg, {3, 33, 35}) == {3, 33, 35};
  }

  // A legal CSR instruction in machine mode
  lemma CsrStep(cfg: Config, s: State, id: nat, val: Word, kind: Kind)
    requires s.priv == M && !s.trap && !s.check && id < 1024 && Select(id) == Csr(kind, M)
    ensures Next(cfg, s, CsrInsn(id, val, SetBits, true))
              == s.(csr := Written(cfg, s.csr, kind, M, val, SetBits, true), pc := Wrap(s.pc + 4))
  {
    hide Written, Select, NeedsCheck;
  }

  lemma SetupWrites(cfg: Config, c: Csrs)
    ensures c.ideleg.m == {} ==> Written(cfg, c, Ideleg, M, 2, SetBits, true) == c.(ideleg := c.ideleg.With(M, {1}))
    ensures c.ie == {} ==> Written(cfg, c, Ie, M, 2, SetBits, true) == c.(ie := {1})
    ensures c.ip == {} ==> Written(cfg, c, Ip, M, 2, SetBits, true) == c.(ip := {1})
    ensures c.status == {33, 35} ==> Written(cfg, c, Status, M, 8, SetBits, true) == c.(status := {3, 33, 35})
  {
    hide StatusWrite, MaskedWord, LegalTvec, Ones, XlenMask;
    SmallOnes();
    SetupStatus(cfg);
    assert MaskedBits({}, {1}, SEIP_MASK, SetBits) == {1};
    assert MaskedBits({}, {1}, MEIP_MASK, SetBits) == {1};
  }

  lemma SetupRuns(cfg: Config, pc: Word)
    ensures RunAll(cfg, InitState(true, pc), Setup()) == Prepared(Wrap(pc + 16))
  {
    hide Next, Written, RunAll, Wrap;
    FourSteps(pc);
    var acts := Setup();
    var s0 := InitState(true, pc);
    var s1 := s0.(csr := s0.csr.(ideleg := s0.csr.ideleg.With(M, {1})), pc := Wrap(pc + 4));
    var s2 := s1.(csr := s1.csr.(ie := {1}), pc := Wrap(s1.pc + 4));
    var s3 := s2.(csr := s2.csr.(ip := {1}), pc := Wrap(s2.pc + 4));
    SetupWrites(cfg, s0.csr);
    CsrStep(cfg, s0, 0x303, 2, Ideleg);
    SetupWrites(cfg, s1.csr);
    CsrStep(cfg, s1, 0x304, 2, Ie);
    SetupWrites(cfg, s2.csr);
    CsrStep(cfg, s2, 0x344, 2, Ip);
    SetupWrites(cfg, s3.csr);
    CsrStep(cfg, s3, 0x300, 8, Status);
    assert s0.csr.status + {MIE} == {3, 33, 35};
    RunFour(cfg, s0, acts);
  }

  lemma FourSteps(pc: Word)
    ensures Wrap(Wrap(Wrap(Wrap(pc + 4) + 4) + 4) + 4) == Wrap(pc + 16)
  {
    hide Wrap;
    WrapAdd(pc + 4, 4);
    WrapAdd(pc + 8, 4);
    WrapAdd(pc + 12, 4);
  }

  lemma RunFour(cfg: Config, s: State, acts: seq<Action>)
    requires |acts| == 4
    ensures RunAll(cfg, s, acts) == Next(cfg, Next(cfg, Next(cfg, Next(cfg, s, acts[0]), acts[1]), acts[2]), acts[3])
  {
    hide Next;
    var r1, r2, r3 := acts[1..], acts[2..], acts[3..];
    assert r1[1..] == r2 && r2[1..] == r3 && r3[1..] == [];
    var n1 := Next(cfg, s, acts[0]);
    var n2 := Next(cfg, n1, r1[0]);
    var n3 := Next(cfg, n2, r2[0]);
    assert RunAll(cfg, s, acts) == RunAll(cfg, n1, r1);
    assert RunAll(cfg, n1, r1) == RunAll(cfg, n2, r2);
    assert RunAll(cfg, n2, r2) == RunAll(cfg, n3, r3);
    assert RunAll(cfg, n3, r3) == RunAll(cfg, Next(cfg, n3, r3[0]), []);
  }
}
