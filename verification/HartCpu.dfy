/**
 * The trap and interrupt paths of a hart as the emulator runs them: delegation by stepping down
 * through the modes, status rewritten field by field. Each method is proved against Privilege.
 * What those specification functions mean on the registers is in RegisterLaws.
 */
module HartCpu {
  import opened BitSets
  import opened Words
  import opened Privilege
  import opened RegisterLaws

  class Hart {
    var csr: Csrs
    var priv: Priv
    var pc: Word
    var trap: bool
    var trapPc: Word
    var running: bool
    var raised: Bits   // pending_irqs, also written by other threads

    ghost function View(): State
      reads this
    {
      State(csr, priv, pc, trap, trapPc, running, false)
    }

    constructor (machine64: bool, start: Word)
      ensures View() == InitState(machine64, start) && raised == {}
    {
      var d: PerPriv<Bits> := PerPriv({}, {}, ALL_LINES, {});
      var z := PerPriv(0, 0, 0, 0);
      csr := Csrs(if machine64 then {33, 35} else {}, {}, {}, d, d, z, z, z, z, z);
      priv := M;
      pc := start;
      trap, trapPc, running, raised := false, 0, false, {};
    }

    // riscv_switch_priv; a change flushes the TLB, which restarts dispatch
    method SwitchPriv(p: Priv)
      modifies `priv, `running
      ensures View() == Switched(old(View()), p)
    {
      if priv != p {
        priv := p;
        running := false;
      }
    }

    // riscv_trap_priv_helper
    method PushStatus(target: Priv)
      modifies `csr
      ensures csr == old(csr).(status := Pushed(old(csr).status, priv, target))
    {
      var st := csr.status;
      if target == M {
        st := Put2(st, MPP, priv);
        st := Put(st, MPIE, MIE in st);
        st := Put(st, MIE, false);
      } else if target == U {
        st := Put(st, 4, 0 in st);
        st := Put(st, 0, false);
      } else {
        st := Put(st, SPP, priv % 2 == 1);
        st := Put(st, SPIE, SIE in st);
        st := Put(st, SIE, false);
      }
      csr := csr.(status := st);
    }

    // riscv_trap
    method RaiseTrap(cause: Word, tval: Word)
      requires cause < 32 && priv != H && DelegationFixed(csr)
      modifies this
      ensures View() == Trap(old(View()), cause, tval) && raised == old(raised)
    {
      if trap { return; }
      var t: Priv := M;
      while t > priv && cause in csr.edeleg.At(t)
        invariant t >= priv && t >= S
        invariant t < M ==> cause in csr.edeleg.m && priv < M
      {
        t := t - 1;
      }
      csr := csr.(epc := csr.epc.With(t, pc), cause := csr.cause.With(t, cause), tval := csr.tval.With(t, tval));
      PushStatus(t);
      SwitchPriv(t);
      trapPc := VectorBase(csr.tvec.At(t));
      trap := true;
      running := false;
    }

    // riscv_handle_irqs
    method HandleInterrupts(rv64: bool)
      requires priv != H && DelegationFixed(csr)
      modifies this
      ensures View() == HandleIrqs(old(View()), raised, rv64) && raised == old(raised)
    {
      var pending := (raised + csr.ip) * csr.ie * ALL_LINES;
      ghost var all := pending;
      if pending == {} { return; }
      var t: Priv := M;
      var irqs := pending - csr.ideleg.At(t);
      pending := pending * csr.ideleg.At(t);
      while irqs == {} && t > 1
        invariant t >= S && irqs * pending == {}
        invariant t == M ==> irqs == all - csr.ideleg.m && pending == all * csr.ideleg.m
        invariant t < M ==> all - csr.ideleg.m == {}
        invariant t == H ==> irqs == {} && pending == all
        invariant t == S ==> irqs == all
      {
        t := t - 1;
        irqs := pending - csr.ideleg.At(t);
        pending := pending * csr.ideleg.At(t);
      }
      if priv > t { return; }
      if priv == t && priv !in csr.status { return; }
      var irq := HighestBit(irqs);
      PushStatus(t);
      SwitchPriv(t);
      csr := csr.(epc := csr.epc.With(t, pc), cause := csr.cause.With(t, IrqCause(irq, rv64)),
                  tval := csr.tval.With(t, 0));
      var vec := csr.tvec.At(t);
      if vec % 2 == 1 { pc := Wrap(VectorBase(vec) + 4 * irq); } else { pc := VectorBase(vec); }
    }

    // riscv_hart_check_interrupts
    method CheckInterrupts()
      modifies `running
      ensures running == (old(running) && Pending(old(View()), raised) == {})
      ensures running == (old(running) && forall irq :: !LineUp(View(), raised, irq))
    {
      if (raised + csr.ip) * csr.ie * ALL_LINES != {} { running := false; }
      PendingIsUp(View(), raised);
    }

    // sret in a mode that may execute it
    method ReturnS()
      modifies this
      ensures View() == CheckIrqs(Sret(old(View())), old(raised)) && raised == old(raised)
    {
      var next := if SPP in csr.status then S else U;
      csr := csr.(status := Put(csr.status, SPP, false));
      csr := csr.(status := Put(csr.status, SIE, SPIE in csr.status));
      csr := csr.(status := Put(csr.status, SPIE, true));
      pc := Wrap(csr.epc.s - 4);
      SwitchPriv(next);
      CheckInterrupts();
    }

    method ReturnM()
      modifies this
      ensures View() == CheckIrqs(Mret(old(View())), old(raised)) && raised == old(raised)
    {
      var next: Priv := Get2(csr.status, MPP);
      if next < M { csr := csr.(status := Put(csr.status, MPRV, false)); }
      csr := csr.(status := Put2(csr.status, MPP, U));
      csr := csr.(status := Put(csr.status, MIE, MPIE in csr.status));
      csr := csr.(status := Put(csr.status, MPIE, true));
      pc := Wrap(csr.epc.m - 4);
      SwitchPriv(next);
      CheckInterrupts();
    }

    // riscv_csr_status: apply the operation, then legalise field by field, then store
    method WriteStatus(cfg: Config, val: Word, mode: Priv, op: Op, rv64: bool)
      modifies this
      ensures var st := StatusWrite(cfg, old(csr).status, Ones(val), XlenMask(StatusMask(mode), rv64), op);
              var s := old(View());
              var s' := s.(csr := s.csr.(status := st), check := NeedsCheck(Status, s.csr.status, st));
              View() == CheckIrqs(s', old(raised))
      ensures raised == old(raised)
    {
      hide Put2, Get2, MaskedBits, Ones, XlenMask, StatusMask, LegalStatus;
      var before := csr.status;
      var fs, vs := Get2(before, 13), Get2(before, 9);
      var st := Put2(before, 15, if fs > vs then fs else vs);
      st := MaskedBits(st, Ones(val), XlenMask(StatusMask(mode), rv64), op);
      if st != before {
        st := Legalise(cfg, st);
        if (SIE in st && SIE !in before) || (MIE in st && MIE !in before) { CheckInterrupts(); }
        csr := csr.(status := st);
      }
    }

    // The fields that are write-any, read-legal
    method Legalise(cfg: Config, status: Bits) returns (st: Bits)
      ensures st == LegalStatus(cfg, status)
    {
      hide Put2, Get2, XlValid;
      st := status;
      if cfg.machine64 {
        if !XlValid(cfg, Get2(st, 32)) { st := Put2(st, 32, 2); }
        if !XlValid(cfg, Get2(st, 34)) { st := Put2(st, 34, 2); }
      }
      if Get2(st, MPP) == H { st := Put2(st, MPP, U); }
      st := Put2(st, 9, 0);
    }

    // riscv_csr_op for the trap CSRs: read-only and privilege checks, then the update
    method CsrAccess(cfg: Config, id: nat, val: Word, op: Op, rv64: bool) returns (ok: bool)
      modifies this
      ensures var r := CsrOp(cfg, old(View()), id, val, op, rv64);
              ok == r.Done? && View() == if ok then CheckIrqs(r.s, old(raised)) else old(View())
      ensures raised == old(raised)
    {
      hide Written, Select, NeedsCheck, CheckIrqs;
      if id / 1024 % 4 == 3 && (op == Swap || val != 0) { return false; }
      if id / 256 % 4 > priv { return false; }
      var sel := Select(id);
      if sel.NoCsr? { return false; }
      UpdateCsr(cfg, sel.kind, sel.mode, val, op, rv64);
      ok := true;
    }

    // riscv_csr_op_internal: the update, and the interrupt check where due
    method UpdateCsr(cfg: Config, kind: Kind, p: Priv, val: Word, op: Op, rv64: bool)
      modifies this
      ensures var s, c := old(View()), Written(cfg, old(csr), kind, p, val, op, rv64);
              View() == CheckIrqs(s.(csr := c, check := NeedsCheck(kind, s.csr.status, c.status)), old(raised))
      ensures raised == old(raised)
    {
      hide StatusWrite, MaskedBits, MaskedWord, LegalTvec, Even, Ones, XlenMask, StatusMask, IrqMask;
      match kind {
        case Status => WriteStatus(cfg, val, p, op, rv64);
        case Ie =>
          csr := csr.(ie := MaskedBits(csr.ie, Ones(val), IrqMask(p), op));
          CheckInterrupts();
        case Ip =>
          csr := csr.(ip := MaskedBits(csr.ip, Ones(val), IrqMask(p), op));
          CheckInterrupts();
        case Edeleg => csr := csr.(edeleg := csr.edeleg.With(M, MaskedBits(csr.edeleg.m, Ones(val), MEDELEG_MASK, op)));
        case Ideleg => csr := csr.(ideleg := csr.ideleg.With(M, MaskedBits(csr.ideleg.m, Ones(val), SEIP_MASK, op)));
        case _ => UpdateWord(cfg, kind, p, val, op, rv64);
      }
    }

    method UpdateWord(cfg: Config, kind: Kind, p: Priv, val: Word, op: Op, rv64: bool)
      requires kind.Tvec? || kind.Scratch? || kind.Epc? || kind.Cause? || kind.Tval?
      modifies `csr
      ensures csr == Written(cfg, old(csr), kind, p, val, op, rv64)
    {
      hide MaskedWord, LegalTvec, Even;
      match kind {
        case Tvec =>
          csr := csr.(tvec := csr.tvec.With(p, MaskedWord(csr.tvec.At(p), val, rv64, op)));
          csr := csr.(tvec := csr.tvec.With(p, LegalTvec(csr.tvec.At(p))));
        case Scratch => csr := csr.(scratch := csr.scratch.With(p, MaskedWord(csr.scratch.At(p), val, rv64, op)));
        case Epc =>
          csr := csr.(epc := csr.epc.With(p, MaskedWord(csr.epc.At(p), val, rv64, op)));
          csr := csr.(epc := csr.epc.With(p, Even(csr.epc.At(p))));
        case Cause => csr := csr.(cause := csr.cause.With(p, MaskedWord(csr.cause.At(p), val, rv64, op)));
        case Tval => csr := csr.(tval := csr.tval.With(p, MaskedWord(csr.tval.At(p), val, rv64, op)));
      }
    }
  }
}
