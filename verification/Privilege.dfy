/**
 * Privilege modes, the status stacks, traps, interrupts, trap returns and the trap CSRs
 * (sections 3.1.6, 3.1.7, 3.1.8 and 3.1.9 of the RISC-V Privileged Architecture 1.12).
 *
 * Registers that are bit fields (status, ie, ip and the delegation registers) are the sets of
 * positions of their one bits; registers that are addresses or values are 64-bit words.
 */
module Privilege {
  import opened BitSets
  import opened Powers
  import opened Words

  type Priv = p: nat | p < 4
  const U: Priv := 0
  const S: Priv := 1
  const H: Priv := 2
  const M: Priv := 3

  // A CSR that exists once per privilege mode
  datatype PerPriv<T> = PerPriv(u: T, s: T, h: T, m: T) {
    function At(p: Priv): T {
      if p == U then u else if p == S then s else if p == H then h else m
    }

    function With(p: Priv, v: T): PerPriv<T> {
      if p == U then this.(u := v)
      else if p == S then this.(s := v)
      else if p == H then this.(h := v)
      else this.(m := v)
    }
  }

  datatype Csrs = Csrs(
    status: Bits, ie: Bits, ip: Bits,
    edeleg: PerPriv<Bits>, ideleg: PerPriv<Bits>,
    tvec: PerPriv<Word>, scratch: PerPriv<Word>, epc: PerPriv<Word>, cause: PerPriv<Word>, tval: PerPriv<Word>)

  datatype State = State(
    csr: Csrs,
    priv: Priv,
    pc: Word,
    trap: bool,     // a trap was raised by the current instruction
    trapPc: Word,
    running: bool,  // false makes the dispatch loop return
    check: bool     // the instruction still has to call riscv_hart_check_interrupts
  )

  // Bit numbers in status; the interrupt enable of mode p is bit p
  const SIE: nat := 1
  const MIE: nat := 3
  const SPIE: nat := 5
  const MPIE: nat := 7
  const SPP: nat := 8
  const MPP: nat := 11
  const MPRV: nat := 17
  const TSR: nat := 22

  // A one-bit field
  function Put(st: Bits, pos: nat, b: bool): Bits { if b then st + {pos} else st - {pos} }

  // A two-bit field
  function Put2(st: Bits, pos: nat, v: nat): Bits { Put(Put(st, pos, v % 2 == 1), pos + 1, v / 2 % 2 == 1) }

  function Get2(st: Bits, pos: nat): (v: nat)
    ensures v < 4
  {
    (if pos in st then 1 else 0) + (if pos + 1 in st then 2 else 0)
  }

  function SppOf(st: Bits): Priv { if SPP in st then S else U }

  // ------------------------------------------------------------ trap entry

  // Previous privilege and interrupt enable pushed onto the stack of the target mode
  function Pushed(st: Bits, priv: Priv, target: Priv): Bits {
    if target == M then Put(Put(Put2(st, MPP, priv), MPIE, MIE in st), MIE, false)
    else if target == U then Put(Put(st, 4, 0 in st), 0, false)
    else Put(Put(Put(st, SPP, priv % 2 == 1), SPIE, SIE in st), SIE, false)
  }

  function Switched(s: State, priv: Priv): State {
    s.(priv := priv, running := s.running && s.priv == priv)
  }

  // Mode an exception goes to
  function TrapTarget(s: State, cause: nat): Priv {
    if s.priv < M && cause in s.csr.edeleg.m then S else M
  }

  // riscv_trap
  function Trap(s: State, cause: Word, tval: Word): State {
    if s.trap then s
    else
      var t := TrapTarget(s, cause);
      var c := s.csr;
      var csr := c.(epc := c.epc.With(t, s.pc), cause := c.cause.With(t, cause), tval := c.tval.With(t, tval),
                    status := Pushed(c.status, s.priv, t));
      State(csr, t, s.pc, true, VectorBase(c.tvec.At(t)), false, s.check)
  }

  // ------------------------------------------------------------ interrupts

  // Interrupts raised from outside or by software, and enabled by ie
  function Pending(s: State, raised: Bits): Bits { (raised + s.csr.ip) * s.csr.ie * ALL_LINES }

  // Mode an interrupt is delegated to
  function IrqTarget(s: State, irq: nat): Priv { if irq in s.csr.ideleg.m then S else M }

  predicate Takes(s: State, target: Priv) {
    s.priv < target || (s.priv == target && target in s.csr.status)
  }

  // Some pending interrupt targets a mode above the current one, or the current one with its enable set
  predicate Deliverable(s: State, raised: Bits) {
    exists irq :: irq in Pending(s, raised) && Takes(s, IrqTarget(s, irq))
  }

  // Interrupt bit and number; the interrupt bit is the sign bit of the register width
  function IrqCause(irq: nat, rv64: bool): Word { Wrap(irq + (if rv64 then TWO64 / 2 else TWO32 / 2)) }

  // tvec without its mode, and the entry of a vectored interrupt
  function VectorBase(vec: Word): Word { vec - vec % 4 }

  function VectorEntry(vec: Word, irq: nat): Word {
    if vec % 2 == 1 then Wrap(VectorBase(vec) + 4 * irq) else VectorBase(vec)
  }

  // riscv_handle_irqs
  ghost function HandleIrqs(s: State, raised: Bits, rv64: bool): State {
    var p := Pending(s, raised);
    if p == {} then s
    else
      var toM := p - s.csr.ideleg.m;
      var t := if toM != {} then M else S;
      if !Takes(s, t) then s
      else
        var irq := Highest(if toM != {} then toM else p);
        var c := s.csr;
        var csr := c.(status := Pushed(c.status, s.priv, t), epc := c.epc.With(t, s.pc),
                      cause := c.cause.With(t, IrqCause(irq, rv64)), tval := c.tval.With(t, 0));
        Switched(s, t).(csr := csr, pc := VectorEntry(c.tvec.At(t), irq))
  }

  // riscv_hart_check_interrupts
  function CheckIrqs(s: State, raised: Bits): State {
    s.(check := false, running := s.running && !(s.check && Pending(s, raised) != {}))
  }

  // ------------------------------------------------------------ trap return

  predicate SretAllowed(s: State) {
    (s.priv >= S && TSR !in s.csr.status) || s.priv == M
  }

  // sret; the program counter is four short because the interpreter adds four afterwards
  function Sret(s: State): State {
    var st := s.csr.status;
    var status := Put(Put(Put(st, SPP, false), SIE, SPIE in st), SPIE, true);
    Switched(s, SppOf(st)).(csr := s.csr.(status := status), pc := Wrap(s.csr.epc.s - 4), check := true)
  }

  function Mret(s: State): State {
    var st := s.csr.status;
    var next := Get2(st, MPP);
    var st1 := if next < M then Put(st, MPRV, false) else st;
    var status := Put(Put(Put2(st1, MPP, U), MIE, MPIE in st1), MPIE, true);
    Switched(s, next).(csr := s.csr.(status := status), pc := Wrap(s.csr.epc.m - 4), check := true)
  }

  // ------------------------------------------------------------ CSR instructions

  datatype Op = Swap | SetBits | ClearBits

  const MSTATUS_MASK: Bits := {1, 3, 5, 7, 8, 9, 10, 11, 12, 13, 14, 15, 16, 17, 18, 19, 20, 21, 22, 32, 33, 34, 35}
  const SSTATUS_MASK: Bits := {1, 5, 8, 9, 10, 13, 14, 15, 16, 18, 19, 32, 33}
  const MEDELEG_MASK: Bits := {0, 3, 8, 12, 13, 15}
  const MEIP_MASK: Bits := {1, 3, 5, 7, 9, 11}
  const SEIP_MASK: Bits := {1, 5, 9}

  // Whether the machine is 64-bit and whether 32-bit modes are compiled in
  datatype Config = Config(machine64: bool, rv32Build: bool)

  function XlenMask(mask: Bits, rv64: bool): Bits { if rv64 then mask else set i | i in mask && i < 32 }

  // riscv_csr_helper_masked on a bit field and on a word
  function MaskedBits(csr: Bits, val: Bits, mask: Bits, op: Op): Bits {
    match op
    case Swap => (csr - mask) + (val * mask)
    case SetBits => csr + (val * mask)
    case ClearBits => csr - (val * mask)
  }

  function MaskedWord(csr: Word, val: Word, rv64: bool, op: Op): Word {
    HighPart(csr);
    if rv64 then WordOf(csr, val, 64, TWO64, op)
    else csr - csr % TWO32 + WordOf(csr % TWO32, val % TWO32, 32, TWO32, op)
  }

  // The operation on `k`-bit numbers
  function WordOf(c: nat, v: nat, k: nat, size: nat, op: Op): (r: nat)
    requires (k == 64 && size == TWO64) || (k == 32 && size == TWO32)
    requires v < size
    ensures r < size
  {
    Width64();
    match op
    case Swap => v
    case SetBits => Or(c, v, k)
    case ClearBits => AndNot(c, v, k)
  }

  lemma HighPart(csr: Word)
    ensures 0 <= csr - csr % TWO32 <= TWO64 - TWO32
  {
  }

  predicate OpBit(c: bool, v: bool, op: Op) {
    match op
    case Swap => v
    case SetBits => c || v
    case ClearBits => c && !v
  }

  /** A CSR instruction works bit by bit on the register width, and leaves what is above it alone. */
  lemma MaskedWordBits(csr: Word, val: Word, rv64: bool, op: Op, i: nat)
    ensures BitOf(MaskedWord(csr, val, rv64, op), i) <==>
            if i < (if rv64 then 64 else 32) then OpBit(BitOf(csr, i), BitOf(val, i), op) else BitOf(csr, i)
  {
    hide Or, AndNot, BitOf, Pow2, WordOf;
    Width64();
    if rv64 {
      WordOfBits(csr, val, 64, TWO64, op, i);
      SplitBits(0, csr, 64, i);
      ZeroBits(if i < 64 then 0 else i - 64);
    } else {
      var low, v, h, g := csr % TWO32, val % TWO32, csr / TWO32, val / TWO32;
      var x := WordOf(low, v, 32, TWO32, op);
      assert csr == h * TWO32 + low && val == g * TWO32 + v;
      WordOfBits(low, v, 32, TWO32, op, i);
      SplitBits(h, low, 32, i);
      SplitBits(g, v, 32, i);
      SplitBits(h, x, 32, i);
    }
  }

  lemma WordOfBits(c: nat, v: nat, k: nat, size: nat, op: Op, i: nat)
    requires (k == 64 && size == TWO64) || (k == 32 && size == TWO32)
    requires v < size
    ensures BitOf(WordOf(c, v, k, size, op), i) <==> i < k && OpBit(BitOf(c, i), BitOf(v, i), op)
  {
    hide Or, AndNot, BitOf, Pow2;
    Width64();
    OpBits(c, v, k, i);
    SplitBits(0, v, k, i);
    ZeroBits(if i < k then 0 else i - k);
  }

  predicate XlValid(cfg: Config, xl: nat) { xl == 2 || (cfg.rv32Build && xl == 1) }

  // XS mirrors the dirtier of FS and VS
  function WithXs(st: Bits): Bits {
    Put2(st, 15, if Get2(st, 13) > Get2(st, 9) then Get2(st, 13) else Get2(st, 9))
  }

  // Illegal field values are replaced: UXL and SXL by 64 bits, MPP by U; VS stays off
  function LegalStatus(cfg: Config, st: Bits): Bits {
    var st1 := if cfg.machine64 && !XlValid(cfg, Get2(st, 32)) then Put2(st, 32, 2) else st;
    var st2 := if cfg.machine64 && !XlValid(cfg, Get2(st1, 34)) then Put2(st1, 34, 2) else st1;
    var st3 := if Get2(st2, MPP) == H then Put2(st2, MPP, U) else st2;
    Put2(st3, 9, 0)
  }

  // riscv_csr_status
  function StatusWrite(cfg: Config, st: Bits, val: Bits, mask: Bits, op: Op): Bits {
    var new_ := MaskedBits(WithXs(st), val, mask, op);
    if new_ == st then st else LegalStatus(cfg, new_)
  }

  // tvec.MODE is 0 or 1
  function LegalTvec(v: Word): (r: Word)
    ensures r / 2 % 2 == 0
  {
    if v / 2 % 2 == 1 then v - 2 else v
  }

  // epc[0] is always zero
  function Even(v: Word): Word { v - v % 2 }

  datatype Kind = Status | Ie | Ip | Tvec | Scratch | Epc | Cause | Tval | Edeleg | Ideleg

  datatype Selected = NoCsr | Csr(kind: Kind, mode: Priv)

  // The trap CSRs by number. Legal instructions on any other CSR are Plain actions.
  function Select(id: nat): (r: Selected)
    ensures r.Csr? ==> r.mode == id / 256 % 4 && (r.mode == S || r.mode == M)
    ensures r.Csr? && r.mode == S ==> !r.kind.Edeleg? && !r.kind.Ideleg?
  {
    match id
    case 0x100 => Csr(Status, S)
    case 0x104 => Csr(Ie, S)
    case 0x105 => Csr(Tvec, S)
    case 0x140 => Csr(Scratch, S)
    case 0x141 => Csr(Epc, S)
    case 0x142 => Csr(Cause, S)
    case 0x143 => Csr(Tval, S)
    case 0x144 => Csr(Ip, S)
    case 0x300 => Csr(Status, M)
    case 0x302 => Csr(Edeleg, M)
    case 0x303 => Csr(Ideleg, M)
    case 0x304 => Csr(Ie, M)
    case 0x305 => Csr(Tvec, M)
    case 0x340 => Csr(Scratch, M)
    case 0x341 => Csr(Epc, M)
    case 0x342 => Csr(Cause, M)
    case 0x343 => Csr(Tval, M)
    case 0x344 => Csr(Ip, M)
    case _ => NoCsr
  }

  function StatusMask(mode: Priv): Bits { if mode == M then MSTATUS_MASK else SSTATUS_MASK }
  function IrqMask(mode: Priv): Bits { if mode == M then MEIP_MASK else SEIP_MASK }

  // The registers after a CSR instruction
  function Written(cfg: Config, c: Csrs, kind: Kind, p: Priv, val: Word, op: Op, rv64: bool): Csrs {
    match kind
    case Status => c.(status := StatusWrite(cfg, c.status, Ones(val), XlenMask(StatusMask(p), rv64), op))
    case Ie => c.(ie := MaskedBits(c.ie, Ones(val), IrqMask(p), op))
    case Ip => c.(ip := MaskedBits(c.ip, Ones(val), IrqMask(p), op))
    case Tvec => c.(tvec := c.tvec.With(p, LegalTvec(MaskedWord(c.tvec.At(p), val, rv64, op))))
    case Scratch => c.(scratch := c.scratch.With(p, MaskedWord(c.scratch.At(p), val, rv64, op)))
    case Epc => c.(epc := c.epc.With(p, Even(MaskedWord(c.epc.At(p), val, rv64, op))))
    case Cause => c.(cause := c.cause.With(p, MaskedWord(c.cause.At(p), val, rv64, op)))
    case Tval => c.(tval := c.tval.With(p, MaskedWord(c.tval.At(p), val, rv64, op)))
    case Edeleg => c.(edeleg := c.edeleg.With(M, MaskedBits(c.edeleg.m, Ones(val), MEDELEG_MASK, op)))
    case Ideleg => c.(ideleg := c.ideleg.With(M, MaskedBits(c.ideleg.m, Ones(val), SEIP_MASK, op)))
  }

  // ie and ip accesses always look for interrupts afterwards, status only if SIE or MIE was switched on
  predicate NeedsCheck(kind: Kind, before: Bits, after: Bits) {
    kind.Ie? || kind.Ip? || (kind.Status? && ((SIE in after && SIE !in before) || (MIE in after && MIE !in before)))
  }

  // riscv_csr_op
  datatype CsrResult = Illegal | Done(s: State)

  function CsrOp(cfg: Config, s: State, id: nat, val: Word, op: Op, rv64: bool): CsrResult {
    if id / 1024 % 4 == 3 && (op == Swap || val != 0) then Illegal
    else if id / 256 % 4 > s.priv then Illegal
    else
      match Select(id)
      case NoCsr => Illegal
      case Csr(kind, mode) =>
        var csr := Written(cfg, s.csr, kind, mode, val, op, rv64);
        Done(s.(csr := csr, check := s.check || NeedsCheck(kind, s.csr.status, csr.status)))
  }

  // ------------------------------------------------------------ the hart as a state machine

  datatype Action =
    | Exception(cause: Word, tval: Word)
    | Interrupt(raised: Bits, rv64: bool)
    | CsrInsn(id: nat, val: Word, op: Op, rv64: bool)
    | SretInsn
    | MretInsn
    | Plain(next: Word, dirtyFpu: bool)   // any other instruction, continuing at `next`

  const ILLEGAL: Word := 2

  // One instruction up to, and not including, the program counter update that follows it
  function Exec(cfg: Config, s: State, a: Action): State
    requires !a.Interrupt?
  {
    match a
    case Exception(cause, tval) => Trap(s, cause, tval)
    case CsrInsn(id, val, op, rv64) =>
      (match CsrOp(cfg, s, id, val, op, rv64)
       case Illegal => Trap(s, ILLEGAL, 0)
       case Done(s') => s')
    case SretInsn => if SretAllowed(s) then Sret(s) else Trap(s, ILLEGAL, 0)
    case MretInsn => if s.priv == M then Mret(s) else Trap(s, ILLEGAL, 0)
    case Plain(next, dirtyFpu) => PlainInsn(s, next, dirtyFpu)
  }

  function PlainInsn(s: State, next: Word, dirtyFpu: bool): State {
    s.(pc := Wrap(next - 4), csr := if dirtyFpu then s.csr.(status := Put2(s.csr.status, 13, 3)) else s.csr)
  }

  // The interpreter adds four; the run loop moves to the trap vector instead if a trap was raised
  function Settle(s: State): State {
    if s.trap then s.(pc := s.trapPc, trap := false, check := false) else s.(pc := Wrap(s.pc + 4), check := false)
  }

  ghost function Next(cfg: Config, s: State, a: Action): State {
    if a.Interrupt? then HandleIrqs(s, a.raised, a.rv64) else Settle(Exec(cfg, s, a))
  }

  predicate Inv(s: State) {
    s.priv != H && !s.trap && CsrsOk(s.csr)
  }

  // MPP is U, S or M; tvec.MODE is 0 or 1; the delegation registers of the other modes are as set up
  predicate CsrsOk(c: Csrs) {
    && Get2(c.status, MPP) != H && c.tvec.s / 2 % 2 == 0 && c.tvec.m / 2 % 2 == 0 && DelegationFixed(c)
  }

  // Set up once by riscv_csr_init: H forwards everything, S and U nothing
  predicate DelegationFixed(c: Csrs) {
    && c.edeleg.u == {} && c.edeleg.s == {} && c.edeleg.h == ALL_LINES
    && c.ideleg.u == {} && c.ideleg.s == {} && c.ideleg.h == ALL_LINES
  }

  // riscv_hart_init and riscv_csr_init
  function InitState(machine64: bool, pc: Word): State {
    var z := PerPriv(0, 0, 0, 0);
    var d: PerPriv<Bits> := PerPriv({}, {}, ALL_LINES, {});
    State(Csrs(if machine64 then {33, 35} else {}, {}, {}, d, d, z, z, z, z, z), M, pc, false, 0, false, false)
  }

  // ------------------------------------------------------------ invariants of every run

  lemma InitInv(machine64: bool, pc: Word)
    ensures Inv(InitState(machine64, pc))
  {
  }

  lemma WrittenKeepsOk(cfg: Config, c: Csrs, kind: Kind, p: Priv, val: Word, op: Op, rv64: bool)
    requires CsrsOk(c) && (p == S || p == M)
    ensures CsrsOk(Written(cfg, c, kind, p, val, op, rv64))
  {
    hide MaskedBits, MaskedWord, LegalTvec, XlenMask, Ones;
  }

  lemma TrapKeepsInv(s: State, cause: Word, tval: Word)
    requires Inv(s)
    ensures Inv(Settle(Trap(s, cause, tval)))
  {
  }

  lemma InterruptKeepsInv(s: State, raised: Bits, rv64: bool)
    requires Inv(s)
    ensures Inv(HandleIrqs(s, raised, rv64))
  {
  }

  lemma XretKeepsInv(s: State)
    requires Inv(s)
    ensures Inv(Settle(Sret(s))) && Inv(Settle(Mret(s)))
  {
  }

  /** Every action keeps privilege, MPP and tvec.MODE legal. */
  lemma NextKeepsInv(cfg: Config, s: State, a: Action)
    requires Inv(s)
    ensures Inv(Next(cfg, s, a))
  {
    hide Written, Select, Trap, Sret, Mret, HandleIrqs;
    XretKeepsInv(s);
    TrapKeepsInv(s, ILLEGAL, 0);
    match a
    case Exception(cause, tval) => TrapKeepsInv(s, cause, tval);
    case Interrupt(raised, rv64) => InterruptKeepsInv(s, raised, rv64);
    case CsrInsn(id, val, op, rv64) =>
      var sel := Select(id);
      if sel.Csr? { WrittenKeepsOk(cfg, s.csr, sel.kind, sel.mode, val, op, rv64); }
    case SretInsn =>
    case MretInsn =>
    case Plain(next, dirtyFpu) =>
  }

  // A run applies actions one after the other
  ghost function RunAll(cfg: Config, s: State, actions: seq<Action>): State
    decreases |actions|
  {
    if actions == [] then s else RunAll(cfg, Next(cfg, s, actions[0]), actions[1..])
  }

  /** In every reachable state: privilege and MPP are U, S or M, and tvec.MODE is 0 or 1. */
  lemma {:induction false} RunKeepsInv(cfg: Config, s: State, actions: seq<Action>)
    requires Inv(s)
    ensures Inv(RunAll(cfg, s, actions))
    decreases |actions|
  {
    hide Inv, Next;
    if actions != [] {
      NextKeepsInv(cfg, s, actions[0]);
      RunKeepsInv(cfg, Next(cfg, s, actions[0]), actions[1..]);
    }
  }

  /** Traps and interrupts land in S or M and never lower the privilege. */
  lemma TrapsGoUp(cfg: Config, s: State, a: Action)
    requires Inv(s) && (a.Exception? || a.Interrupt?)
    ensures Next(cfg, s, a).priv >= s.priv
    ensures a.Exception? || Next(cfg, s, a) != s ==> Next(cfg, s, a).priv == S || Next(cfg, s, a).priv == M
  {
  }

  // ------------------------------------------------------------ separation of the modes

  // Everything that belongs to machine mode
  datatype MachineView = MachineView(
    mie: bool, mpie: bool, mpp: nat, mprv: bool, software: bool, timer: bool, external: bool,
    medeleg: Bits, mideleg: Bits, tvec: Word, scratch: Word, epc: Word, cause: Word, tval: Word)

  function MView(c: Csrs): MachineView {
    MachineView(MIE in c.status, MPIE in c.status, Get2(c.status, MPP), MPRV in c.status,
                3 in c.ie, 7 in c.ie, 11 in c.ie,
                c.edeleg.m, c.ideleg.m, c.tvec.m, c.scratch.m, c.epc.m, c.cause.m, c.tval.m)
  }

  predicate SameMachineBits(a: Bits, b: Bits) {
    (MIE in a <==> MIE in b) && (MPIE in a <==> MPIE in b) && (MPRV in a <==> MPRV in b) && Get2(a, MPP) == Get2(b, MPP)
  }

  lemma MaskedOutside(csr: Bits, val: Bits, mask: Bits, op: Op, i: nat)
    requires i !in mask
    ensures i in MaskedBits(csr, val, mask, op) <==> i in csr
  {
  }

  lemma LegalStatusKeeps(cfg: Config, st: Bits)
    requires Get2(st, MPP) != H
    ensures SameMachineBits(LegalStatus(cfg, st), st)
  {
    hide Get2, XlValid;
    var a := if cfg.machine64 && !XlValid(cfg, Get2(st, 32)) then Put2(st, 32, 2) else st;
    PutElsewhere(st, 32, 2);
    PutElsewhere(a, 34, 2);
    var b := if cfg.machine64 && !XlValid(cfg, Get2(a, 34)) then Put2(a, 34, 2) else a;
    PutElsewhere(b, 9, 0);
  }

  lemma PutElsewhere(st: Bits, pos: nat, v: nat)
    requires pos == 9 || pos == 15 || pos == 32 || pos == 34 || pos == 13
    ensures SameMachineBits(Put2(st, pos, v), st)
  {
  }

  lemma SupervisorStatus(cfg: Config, st: Bits, val: Bits, op: Op, rv64: bool)
    requires Get2(st, MPP) != H
    ensures SameMachineBits(StatusWrite(cfg, st, val, XlenMask(SSTATUS_MASK, rv64), op), st)
  {
    hide LegalStatus, MaskedBits, Put2;
    var mask := XlenMask(SSTATUS_MASK, rv64);
    var x := WithXs(st);
    PutElsewhere(st, 15, if Get2(st, 13) > Get2(st, 9) then Get2(st, 13) else Get2(st, 9));
    var y := MaskedBits(x, val, mask, op);
    MaskedOutside(x, val, mask, op, MIE);
    MaskedOutside(x, val, mask, op, MPIE);
    MaskedOutside(x, val, mask, op, MPP);
    MaskedOutside(x, val, mask, op, MPP + 1);
    MaskedOutside(x, val, mask, op, MPRV);
    LegalStatusKeeps(cfg, y);
  }

  /** A CSR instruction from S or U changes nothing that belongs to machine mode. */
  lemma WrittenKeepsMachine(cfg: Config, c: Csrs, kind: Kind, val: Word, op: Op, rv64: bool)
    requires CsrsOk(c) && !kind.Edeleg? && !kind.Ideleg?
    ensures MView(Written(cfg, c, kind, S, val, op, rv64)) == MView(c)
  {
    hide MaskedWord, LegalTvec, Ones, MaskedBits, StatusWrite, XlenMask, Get2;
    SupervisorStatus(cfg, c.status, Ones(val), op, rv64);
    MaskedOutside(c.ie, Ones(val), SEIP_MASK, op, 3);
    MaskedOutside(c.ie, Ones(val), SEIP_MASK, op, 7);
    MaskedOutside(c.ie, Ones(val), SEIP_MASK, op, 11);
  }

  lemma TrapToSKeepsMachine(s: State, cause: Word, tval: Word)
    requires Inv(s) && Trap(s, cause, tval).priv < M
    ensures MView(Trap(s, cause, tval).csr) == MView(s.csr)
  {
  }

  lemma InterruptToSKeepsMachine(s: State, raised: Bits, rv64: bool)
    requires Inv(s) && HandleIrqs(s, raised, rv64).priv < M
    ensures MView(HandleIrqs(s, raised, rv64).csr) == MView(s.csr)
  {
  }

  lemma SretKeepsMachine(s: State)
    ensures MView(Sret(s).csr) == MView(s.csr)
  {
  }

  lemma CsrKeepsMachine(cfg: Config, s: State, id: nat, val: Word, op: Op, rv64: bool)
    requires Inv(s) && s.priv < M
    ensures var r := CsrOp(cfg, s, id, val, op, rv64); r.Done? ==> MView(r.s.csr) == MView(s.csr) && !r.s.trap
  {
    hide Written, Select, MView, CsrsOk, NeedsCheck;
    var sel := Select(id);
    if sel.Csr? && sel.mode == S { WrittenKeepsMachine(cfg, s.csr, sel.kind, val, op, rv64); }
  }

  /** Nothing that runs below M, and stays below M, changes anything that belongs to machine mode. */
  lemma BelowMachine(cfg: Config, s: State, a: Action)
    requires Inv(s) && s.priv < M && Next(cfg, s, a).priv < M
    ensures MView(Next(cfg, s, a).csr) == MView(s.csr)
  {
    hide CsrOp, Trap, HandleIrqs, Sret, Mret, MView, Inv, PlainInsn, SretAllowed;
    match a
    case Exception(cause, tval) => TrapToSKeepsMachine(s, cause, tval);
    case Interrupt(raised, rv64) => InterruptToSKeepsMachine(s, raised, rv64);
    case CsrInsn(id, val, op, rv64) =>
      CsrKeepsMachine(cfg, s, id, val, op, rv64);
      if CsrOp(cfg, s, id, val, op, rv64).Illegal? { TrapToSKeepsMachine(s, ILLEGAL, 0); }
    case SretInsn =>
      if SretAllowed(s) { SretKeepsMachine(s); } else { TrapToSKeepsMachine(s, ILLEGAL, 0); }
    case MretInsn => TrapToSKeepsMachine(s, ILLEGAL, 0);
    case Plain(next, dirtyFpu) => PlainKeepsMachine(s, next, dirtyFpu);
  }

  lemma PlainKeepsMachine(s: State, next: Word, dirtyFpu: bool)
    ensures MView(PlainInsn(s, next, dirtyFpu).csr) == MView(s.csr)
  {
  }

  // The privilege stays below M throughout the run
  ghost predicate StaysBelow(cfg: Config, s: State, actions: seq<Action>)
    decreases |actions|
  {
    s.priv < M && (actions == [] || StaysBelow(cfg, Next(cfg, s, actions[0]), actions[1..]))
  }

  /** Supervisor and user code cannot alter machine state except by trapping into it. */
  lemma {:induction false} MachineStateProtected(cfg: Config, s: State, actions: seq<Action>)
    requires Inv(s) && StaysBelow(cfg, s, actions)
    ensures MView(RunAll(cfg, s, actions).csr) == MView(s.csr)
    decreases |actions|
  {
    hide Next, Inv, MView;
    if actions != [] {
      NextKeepsInv(cfg, s, actions[0]);
      BelowMachine(cfg, s, actions[0]);
      MachineStateProtected(cfg, Next(cfg, s, actions[0]), actions[1..]);
    }
  }

  // ------------------------------------------------------------ delegation

  // The highest pending interrupt targeted at mode t
  predicate Chosen(s: State, raised: Bits, t: Priv, irq: nat) {
    && irq in Pending(s, raised) && IrqTarget(s, irq) == t
    && forall j :: j in Pending(s, raised) && IrqTarget(s, j) == t ==> j <= irq
  }

  /**
   * An interrupt is taken iff one is deliverable. It is the highest pending, enabled one targeted at
   * the mode entered; machine interrupts win over supervisor ones; and nothing deliverable is left.
   */
  lemma InterruptTakenIff(s: State, raised: Bits, rv64: bool)
    requires Inv(s)
    ensures var s' := HandleIrqs(s, raised, rv64);
            && (!Deliverable(s, raised) ==> s' == s)
            && (Deliverable(s, raised) ==>
                && (s'.priv == M <==> exists irq :: irq in Pending(s, raised) && IrqTarget(s, irq) == M)
                && (s'.priv == S || s'.priv == M) && s'.priv >= s.priv && s'.priv !in s'.csr.status
                && s'.csr.epc.At(s'.priv) == s.pc
                && exists irq :: Chosen(s, raised, s'.priv, irq) && s'.csr.cause.At(s'.priv) == IrqCause(irq, rv64)
                                 && s'.pc == VectorEntry(s.csr.tvec.At(s'.priv), irq))
            && !Deliverable(s', raised)
  {
    var p := Pending(s, raised);
    var toM := p - s.csr.ideleg.m;
    if p != {} {
      if toM != {} {
        var irq := Highest(toM);
        assert irq in p && IrqTarget(s, irq) == M;
        assert forall j :: j in p && IrqTarget(s, j) == M ==> j in toM;
        assert Chosen(s, raised, M, irq);
      }
      else {
        forall irq | irq in p ensures IrqTarget(s, irq) == S { assert irq !in toM; }
        var irq := Highest(p);
        assert irq in p && IrqTarget(s, irq) == S;
        assert Chosen(s, raised, S, irq);
      }
    }
  }
}
