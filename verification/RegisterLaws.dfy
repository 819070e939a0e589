/**
 * Traps, interrupts, returns and CSR instructions said on the numbers and bits of the registers, as
 * section 3.1 of the RISC-V Privileged Architecture 1.12 numbers them. Every law is about whole steps
 * of the state machine in Privilege and names none of its functions.
 */
module RegisterLaws {
  import opened BitSets
  import opened Powers
  import opened Words
  import opened Privilege

  // ------------------------------------------------------------ trap entry

  // status before and after entering M or S: the enable moves to its saved copy and goes off, the mode is saved
  ghost predicate Stacked(st: Bits, st': Bits, priv: nat, t: nat) {
    if t == 3 then
      && 3 !in st' && (7 in st' <==> 3 in st) && (11 in st' <==> priv == 1 || priv == 3) && (12 in st' <==> priv >= 2)
      && forall i :: i !in {3, 7, 11, 12} ==> (i in st' <==> i in st)
    else
      && 1 !in st' && (5 in st' <==> 1 in st) && (8 in st' <==> priv == 1)
      && forall i :: i !in {1, 5, 8} ==> (i in st' <==> i in st)
  }

  // The trap leaves its values in the registers of the mode entered, and touches no other register
  predicate Reported(c: Csrs, c': Csrs, t: nat, pc: Word, cause: Word, tval: Word) {
    if t == 3 then
      c' == c.(status := c'.status, epc := c.epc.(m := pc), cause := c.cause.(m := cause), tval := c.tval.(m := tval))
    else
      c' == c.(status := c'.status, epc := c.epc.(s := pc), cause := c.cause.(s := cause), tval := c.tval.(s := tval))
  }

  ghost predicate Enters(s: State, s': State, t: nat, cause: Word, tval: Word, pc: Word) {
    && s'.priv == t && s'.pc == pc && !s'.trap
    && Reported(s.csr, s'.csr, t, s.pc, cause, tval) && Stacked(s.csr.status, s'.csr.status, s.priv, t)
  }

  lemma PushedStacks(st: Bits, priv: Priv, t: Priv)
    requires priv != 2 && (t == 1 || t == 3) && priv <= t
    ensures Stacked(st, Pushed(st, priv, t), priv, t)
  {
  }

  function Tvec(c: Csrs, t: nat): Word { if t == 3 then c.tvec.m else c.tvec.s }

  /** An exception is taken in S if and only if it is raised below M and delegated in medeleg, and in M otherwise. */
  lemma ExceptionTaken(cfg: Config, s: State, cause: Word, tval: Word)
    requires Inv(s)
    ensures var s' := Next(cfg, s, Exception(cause, tval));
            var t := if s.priv < 3 && cause in s.csr.edeleg.m then 1 else 3;
            Enters(s, s', t, cause, tval, Tvec(s.csr, t) - Tvec(s.csr, t) % 4) && !s'.running
  {
    hide Pushed, Stacked;
    PushedStacks(s.csr.status, s.priv, if s.priv < 3 && cause in s.csr.edeleg.m then 1 else 3);
  }

  // ------------------------------------------------------------ interrupts

  // The line is up, from outside or by software, and enabled in mie
  predicate LineUp(s: State, raised: Bits, irq: nat) {
    irq < 32 && irq in s.csr.ie && (irq in raised || irq in s.csr.ip)
  }

  // The line is up and goes to a mode above the current one, or to the current one with its enable on
  predicate Waiting(s: State, raised: Bits, irq: nat) {
    && LineUp(s, raised, irq)
    && if irq in s.csr.ideleg.m then s.priv == 0 || (s.priv == 1 && 1 in s.csr.status)
       else s.priv < 3 || 3 in s.csr.status
  }

  // The highest line up that mideleg sends to the mode
  ghost predicate HighestUp(s: State, raised: Bits, t: nat, irq: nat) {
    && LineUp(s, raised, irq) && (irq in s.csr.ideleg.m <==> t == 1)
    && forall j: nat :: LineUp(s, raised, j) && (j in s.csr.ideleg.m <==> t == 1) ==> j <= irq
  }

  // The interrupt's cause and where it goes: direct, or by number if tvec is in vectored mode
  ghost predicate TakesLine(s: State, s': State, t: nat, irq: nat, rv64: bool) {
    var vec := Tvec(s.csr, t);
    && irq < 32
    && Enters(s, s', t, irq + (if rv64 then 0x8000_0000_0000_0000 else 0x8000_0000), 0,
              if vec % 4 == 1 then (vec - 1 + 4 * irq) % TWO64 else vec)
  }

  lemma PendingIsUp(s: State, raised: Bits)
    ensures forall irq :: irq in Pending(s, raised) <==> LineUp(s, raised, irq)
    ensures Pending(s, raised) == {} <==> forall irq :: !LineUp(s, raised, irq)
  {
    if Pending(s, raised) != {} {
      var irq :| irq in Pending(s, raised);
      assert LineUp(s, raised, irq);
    }
  }

  /** What can be delivered, on the registers. */
  lemma DeliverableIffWaiting(s: State, raised: Bits)
    requires s.priv != 2
    ensures Deliverable(s, raised) <==> exists irq :: Waiting(s, raised, irq)
  {
    hide Pending;
    PendingIsUp(s, raised);
    if irq :| irq in Pending(s, raised) && Takes(s, IrqTarget(s, irq)) { assert Waiting(s, raised, irq); }
    if irq :| Waiting(s, raised, irq) { assert irq in Pending(s, raised) && Takes(s, IrqTarget(s, irq)); }
  }

  /**
   * A line is taken if and only if one is waiting: in M the highest of those not delegated, if there
   * are any up, and otherwise in S the highest of the others.
   */
  lemma InterruptTaken(s: State, raised: Bits, rv64: bool)
    requires Inv(s)
    ensures var s' := HandleIrqs(s, raised, rv64);
            var t := if exists irq :: LineUp(s, raised, irq) && irq !in s.csr.ideleg.m then 3 else 1;
            if exists irq :: Waiting(s, raised, irq) then
              exists irq :: HighestUp(s, raised, t, irq) && TakesLine(s, s', t, irq, rv64)
            else s' == s
  {
    hide Pushed, Pending, CsrsOk, Stacked, LineUp, VectorEntry, IrqCause;
    PendingIsUp(s, raised);
    DeliverableIffWaiting(s, raised);
    InterruptTakenIff(s, raised, rv64);
    if exists irq :: Waiting(s, raised, irq) {
      var p, toM := Pending(s, raised), Pending(s, raised) - s.csr.ideleg.m;
      var t: Priv := if toM != {} then 3 else 1;
      var irq := Highest(if toM != {} then toM else p);
      ChosenIsHighest(s, raised, t, irq);
      PushedStacks(s.csr.status, s.priv, t);
      VectorIs(s, t, irq, rv64);
      assert TakesLine(s, HandleIrqs(s, raised, rv64), t, irq, rv64);
    }
  }

  lemma ChosenIsHighest(s: State, raised: Bits, t: Priv, irq: nat)
    requires var p := Pending(s, raised);
             var toM := p - s.csr.ideleg.m;
             p != {} && t == (if toM != {} then 3 else 1) && irq == Highest(if toM != {} then toM else p)
    ensures HighestUp(s, raised, t, irq) && irq < 32
    ensures t == 3 <==> exists j :: LineUp(s, raised, j) && j !in s.csr.ideleg.m
  {
    hide Pending;
    PendingIsUp(s, raised);
    var p := Pending(s, raised);
    var toM := p - s.csr.ideleg.m;
    if toM != {} { assert LineUp(s, raised, irq) && irq !in s.csr.ideleg.m; }
    forall j | LineUp(s, raised, j) && j !in s.csr.ideleg.m ensures j in toM {}
  }

  lemma VectorIs(s: State, t: Priv, irq: nat, rv64: bool)
    requires Inv(s) && (t == 1 || t == 3) && irq < 32
    ensures var vec := Tvec(s.csr, t);
            && VectorEntry(s.csr.tvec.At(t), irq) == (if vec % 4 == 1 then (vec - 1 + 4 * irq) % TWO64 else vec)
            && IrqCause(irq, rv64) == irq + (if rv64 then 0x8000_0000_0000_0000 else 0x8000_0000)
  {
    hide VectorEntry, IrqCause;
    VectorOf(Tvec(s.csr, t), irq);
    CauseOf(irq, rv64);
  }

  lemma VectorOf(vec: Word, irq: nat)
    requires vec / 2 % 2 == 0
    ensures VectorEntry(vec, irq) == if vec % 4 == 1 then (vec - 1 + 4 * irq) % TWO64 else vec
  {
    var h := vec / 2;
    DivModUnique(vec, 4, h / 2, vec % 2);
  }

  lemma CauseOf(irq: nat, rv64: bool)
    requires irq < 32
    ensures IrqCause(irq, rv64) == irq + (if rv64 then 0x8000_0000_0000_0000 else 0x8000_0000)
  {
  }

  // ------------------------------------------------------------ trap returns

  // status after a return: the enable comes back from its saved copy, which goes on, and the saved mode becomes U
  ghost predicate Unstacked(st: Bits, st': Bits, t: nat) {
    if t == 3 then
      && (3 in st' <==> 7 in st) && 7 in st' && 11 !in st' && 12 !in st'
      && (17 in st' <==> 17 in st && 11 in st && 12 in st)
      && forall i :: i !in {3, 7, 11, 12, 17} ==> (i in st' <==> i in st)
    else
      && (1 in st' <==> 5 in st) && 5 in st' && 8 !in st'
      && forall i :: i !in {1, 5, 8} ==> (i in st' <==> i in st)
  }

  ghost predicate Returns(s: State, s': State, t: nat, priv: nat, pc: Word) {
    && s'.priv == priv && s'.pc == pc && s'.csr == s.csr.(status := s'.csr.status)
    && Unstacked(s.csr.status, s'.csr.status, t)
  }

  /** sret is an illegal instruction in U, and in S while TSR (bit 22) is set; otherwise it returns to SPP (bit 8). */
  lemma SretOutcome(cfg: Config, s: State)
    requires Inv(s)
    ensures var s' := Next(cfg, s, SretInsn);
            if s.priv == 0 || (s.priv == 1 && 22 in s.csr.status) then s' == Next(cfg, s, Exception(2, 0))
            else Returns(s, s', 1, if 8 in s.csr.status then 1 else 0, s.csr.epc.s)
  {
    hide Trap;
    WrapAdd(s.csr.epc.s - 4, 4);
  }

  /** mret is an illegal instruction below M; otherwise it returns to MPP (bits 11 and 12). */
  lemma MretOutcome(cfg: Config, s: State)
    requires Inv(s)
    ensures var s' := Next(cfg, s, MretInsn);
            if s.priv != 3 then s' == Next(cfg, s, Exception(2, 0))
            else Returns(s, s', 3, if 12 in s.csr.status then 3 else if 11 in s.csr.status then 1 else 0, s.csr.epc.m)
  {
    hide Trap;
    WrapAdd(s.csr.epc.m - 4, 4);
  }

  /** Any other instruction moves on, and one that uses the FPU leaves FS (bits 13 and 14) dirty. */
  lemma PlainOutcome(cfg: Config, s: State, next: Word, dirtyFpu: bool)
    requires Inv(s)
    ensures var s' := Next(cfg, s, Plain(next, dirtyFpu));
            s' == s.(pc := next, check := false,
                     csr := s.csr.(status := s.csr.status + if dirtyFpu then {13, 14} else {}))
  {
    hide CsrOp, Trap, Sret, Mret;
    WrapAdd(next - 4, 4);
    assert Put2(s.csr.status, 13, 3) == s.csr.status + {13, 14};
    assert s.csr.status + {} == s.csr.status;
  }

  /** A hart starts in M with every interrupt off, nothing delegated, and 64-bit lower modes on a 64-bit machine. */
  lemma ResetState(machine64: bool, pc: Word)
    ensures var s := InitState(machine64, pc);
            && s.priv == 3 && s.pc == pc && !s.trap && !s.running && !s.check
            && s.csr.status == (if machine64 then {33, 35} else {}) && s.csr.ie == {} && s.csr.ip == {}
            && s.csr.edeleg.m == {} && s.csr.ideleg.m == {}
            && s.csr.tvec.m == 0 && s.csr.tvec.s == 0
  {
  }

  // ------------------------------------------------------------ CSR instructions

  // Bit by bit, the register takes the operation where the mask allows and stays as it was elsewhere
  ghost predicate BitLaw(old_: Bits, new_: Bits, val: Word, mask: Bits, op: Op) {
    forall i: nat :: i in new_ <==> if i in mask then OpBit(i in old_, BitOf(val, i), op) else i in old_
  }

  lemma MaskedBitLaw(csr: Bits, val: Word, mask: Bits, op: Op)
    requires forall i :: i in mask ==> i < 64
    ensures BitLaw(csr, MaskedBits(csr, Ones(val), mask, op), val, mask, op)
  {
    hide BitOf;
  }

  // The same for a word of the given width, with bit `zero` always off
  ghost predicate WordLaw(old_: Word, new_: Word, val: Word, rv64: bool, op: Op, zero: nat) {
    forall i: nat :: BitOf(new_, i) <==>
      i != zero && if i < (if rv64 then 64 else 32) then OpBit(BitOf(old_, i), BitOf(val, i), op) else BitOf(old_, i)
  }

  // The two modes that have trap CSRs: numbers 0x1.. are for S and up, 0x3.. for M
  predicate TrapCsr(id: nat) {
    id in {0x100, 0x104, 0x105, 0x140, 0x141, 0x142, 0x143, 0x144,
           0x300, 0x302, 0x303, 0x304, 0x305, 0x340, 0x341, 0x342, 0x343, 0x344}
  }

  /** A trap CSR is an illegal instruction exactly below the mode in its number. */
  lemma CsrLegal(cfg: Config, s: State, id: nat, val: Word, op: Op, rv64: bool)
    requires Inv(s) && TrapCsr(id)
    ensures CsrOp(cfg, s, id, val, op, rv64).Done? <==> s.priv >= if id >= 0x300 then 3 else 1
    ensures s.priv < (if id >= 0x300 then 3 else 1) ==>
              Next(cfg, s, CsrInsn(id, val, op, rv64)) == Next(cfg, s, Exception(2, 0))
  {
    hide Written, NeedsCheck, Trap;
  }

  // What the instruction does to the registers of the two modes, by number
  ghost predicate CsrLaw(id: nat, c: Csrs, c': Csrs, val: Word, op: Op, rv64: bool) {
    match id
    case 0x104 => c' == c.(ie := c'.ie) && BitLaw(c.ie, c'.ie, val, {1, 5, 9}, op)
    case 0x144 => c' == c.(ip := c'.ip) && BitLaw(c.ip, c'.ip, val, {1, 5, 9}, op)
    case 0x304 => c' == c.(ie := c'.ie) && BitLaw(c.ie, c'.ie, val, {1, 3, 5, 7, 9, 11}, op)
    case 0x344 => c' == c.(ip := c'.ip) && BitLaw(c.ip, c'.ip, val, {1, 3, 5, 7, 9, 11}, op)
    case 0x302 => c' == c.(edeleg := c.edeleg.(m := c'.edeleg.m))
                  && BitLaw(c.edeleg.m, c'.edeleg.m, val, {0, 3, 8, 12, 13, 15}, op)
    case 0x303 => c' == c.(ideleg := c.ideleg.(m := c'.ideleg.m)) && BitLaw(c.ideleg.m, c'.ideleg.m, val, {1, 5, 9}, op)
    case 0x105 => c' == c.(tvec := c.tvec.(s := c'.tvec.s)) && WordLaw(c.tvec.s, c'.tvec.s, val, rv64, op, 1)
    case 0x305 => c' == c.(tvec := c.tvec.(m := c'.tvec.m)) && WordLaw(c.tvec.m, c'.tvec.m, val, rv64, op, 1)
    case 0x140 => c' == c.(scratch := c.scratch.(s := c'.scratch.s))
                  && WordLaw(c.scratch.s, c'.scratch.s, val, rv64, op, 64)
    case 0x340 => c' == c.(scratch := c.scratch.(m := c'.scratch.m))
                  && WordLaw(c.scratch.m, c'.scratch.m, val, rv64, op, 64)
    case 0x141 => c' == c.(epc := c.epc.(s := c'.epc.s)) && WordLaw(c.epc.s, c'.epc.s, val, rv64, op, 0)
    case 0x341 => c' == c.(epc := c.epc.(m := c'.epc.m)) && WordLaw(c.epc.m, c'.epc.m, val, rv64, op, 0)
    case 0x142 => c' == c.(cause := c.cause.(s := c'.cause.s)) && WordLaw(c.cause.s, c'.cause.s, val, rv64, op, 64)
    case 0x342 => c' == c.(cause := c.cause.(m := c'.cause.m)) && WordLaw(c.cause.m, c'.cause.m, val, rv64, op, 64)
    case 0x143 => c' == c.(tval := c.tval.(s := c'.tval.s)) && WordLaw(c.tval.s, c'.tval.s, val, rv64, op, 64)
    case 0x343 => c' == c.(tval := c.tval.(m := c'.tval.m)) && WordLaw(c.tval.m, c'.tval.m, val, rv64, op, 64)
    case 0x100 => c' == c.(status := c'.status)
    case 0x300 => c' == c.(status := c'.status)
    case _ => false
  }

  lemma HighBitOff(w: Word)
    ensures !BitOf(w, 64)
  {
    hide BitOf, Pow2;
    Width64();
    SplitBits(0, w, 64, 64);
    ZeroBits(0);
  }

  lemma MaskedWordLaw(csr: Word, val: Word, rv64: bool, op: Op)
    ensures WordLaw(csr, MaskedWord(csr, val, rv64, op), val, rv64, op, 64)
  {
    hide BitOf, MaskedWord, OpBit;
    var w := MaskedWord(csr, val, rv64, op);
    HighBitOff(w);
    forall i: nat
      ensures BitOf(w, i) <==>
              i != 64 && if i < (if rv64 then 64 else 32) then OpBit(BitOf(csr, i), BitOf(val, i), op)
                         else BitOf(csr, i)
    {
      MaskedWordBits(csr, val, rv64, op, i);
    }
  }

  // tvec without its second bit, and epc without its first
  lemma ClearedBit(v: Word, i: nat)
    ensures BitOf(LegalTvec(v), i) <==> i != 1 && BitOf(v, i)
    ensures BitOf(Privilege.Even(v), i) <==> i != 0 && BitOf(v, i)
  {
    hide BitOf;
    var h, c := v / 2, v % 2;
    var j := if i == 0 then 0 else i - 1;
    HalfBit(h, c, j);
    HalfBit(h, 0, j);
    var g, d := h / 2, h % 2;
    var k := if j == 0 then 0 else j - 1;
    HalfBit(g, d, k);
    HalfBit(g, 0, k);
    HalfBit(2 * g, c, j);
    assert Privilege.Even(v) == 2 * h + 0;
    assert LegalTvec(v) == 2 * (2 * g) + c;
  }

  lemma ClearedLaw(csr: Word, val: Word, rv64: bool, op: Op)
    ensures var w := MaskedWord(csr, val, rv64, op);
            WordLaw(csr, LegalTvec(w), val, rv64, op, 1) && WordLaw(csr, Privilege.Even(w), val, rv64, op, 0)
  {
    hide BitOf, MaskedWord, OpBit, LegalTvec, Privilege.Even;
    var w := MaskedWord(csr, val, rv64, op);
    forall i: nat
      ensures BitOf(LegalTvec(w), i) <==> i != 1 && BitOf(w, i)
      ensures BitOf(Privilege.Even(w), i) <==> i != 0 && BitOf(w, i)
      ensures BitOf(w, i) <==>
              if i < (if rv64 then 64 else 32) then OpBit(BitOf(csr, i), BitOf(val, i), op) else BitOf(csr, i)
    {
      ClearedBit(w, i);
      MaskedWordBits(csr, val, rv64, op, i);
    }
  }

  lemma WrittenLaw(cfg: Config, id: nat, c: Csrs, val: Word, op: Op, rv64: bool)
    requires TrapCsr(id)
    ensures var sel := Select(id);
            sel.Csr? && CsrLaw(id, c, Written(cfg, c, sel.kind, sel.mode, val, op, rv64), val, op, rv64)
  {
    hide StatusWrite, MaskedBits, MaskedWord, LegalTvec, Privilege.Even, Ones, XlenMask, StatusMask, BitLaw, WordLaw;
    var sel := Select(id);
    if sel.kind.Ie? || sel.kind.Ip? || sel.kind.Edeleg? || sel.kind.Ideleg? {
      BitRegisters(c, sel.mode, val, op);
    } else if !sel.kind.Status? {
      WordRegisters(c, sel.mode, val, op, rv64);
    }
  }

  lemma BitRegisters(c: Csrs, p: Priv, val: Word, op: Op)
    requires p == 1 || p == 3
    ensures var mask: Bits := if p == 3 then {1, 3, 5, 7, 9, 11} else {1, 5, 9};
            && BitLaw(c.ie, MaskedBits(c.ie, Ones(val), IrqMask(p), op), val, mask, op)
            && BitLaw(c.ip, MaskedBits(c.ip, Ones(val), IrqMask(p), op), val, mask, op)
    ensures BitLaw(c.edeleg.m, MaskedBits(c.edeleg.m, Ones(val), MEDELEG_MASK, op), val, {0, 3, 8, 12, 13, 15}, op)
    ensures BitLaw(c.ideleg.m, MaskedBits(c.ideleg.m, Ones(val), SEIP_MASK, op), val, {1, 5, 9}, op)
  {
    hide MaskedBits, BitLaw, Ones;
    MaskedBitLaw(c.ie, val, IrqMask(p), op);
    MaskedBitLaw(c.ip, val, IrqMask(p), op);
    MaskedBitLaw(c.edeleg.m, val, MEDELEG_MASK, op);
    MaskedBitLaw(c.ideleg.m, val, SEIP_MASK, op);
  }

  lemma WordRegisters(c: Csrs, p: Priv, val: Word, op: Op, rv64: bool)
    ensures WordLaw(c.scratch.At(p), MaskedWord(c.scratch.At(p), val, rv64, op), val, rv64, op, 64)
    ensures WordLaw(c.cause.At(p), MaskedWord(c.cause.At(p), val, rv64, op), val, rv64, op, 64)
    ensures WordLaw(c.tval.At(p), MaskedWord(c.tval.At(p), val, rv64, op), val, rv64, op, 64)
    ensures WordLaw(c.tvec.At(p), LegalTvec(MaskedWord(c.tvec.At(p), val, rv64, op)), val, rv64, op, 1)
    ensures WordLaw(c.epc.At(p), Privilege.Even(MaskedWord(c.epc.At(p), val, rv64, op)), val, rv64, op, 0)
  {
    hide MaskedWord, LegalTvec, Privilege.Even, WordLaw;
    MaskedWordLaw(c.scratch.At(p), val, rv64, op);
    MaskedWordLaw(c.cause.At(p), val, rv64, op);
    MaskedWordLaw(c.tval.At(p), val, rv64, op);
    ClearedLaw(c.tvec.At(p), val, rv64, op);
    ClearedLaw(c.epc.At(p), val, rv64, op);
  }

  // ------------------------------------------------------------ status

  // Two bits as a number
  function Field(st: Bits, pos: nat): nat { (if pos in st then 1 else 0) + 2 * (if pos + 1 in st then 1 else 0) }

  // The bits that a mode may write as they are, and the two-bit fields besides: VS, MPP, XS, UXL, SXL
  function PlainBits(m: bool): Bits {
    if m then {1, 3, 5, 7, 8, 13, 14, 17, 18, 19, 20, 21, 22} else {1, 5, 8, 13, 14, 18, 19}
  }

  // A two-bit field after the operation and before it is made legal
  function Asked(field: nat, val: Word, op: Op, pos: nat): nat {
    (if OpBit(field % 2 == 1, BitOf(val, pos), op) then 1 else 0)
    + 2 * (if OpBit(field / 2 == 1, BitOf(val, pos + 1), op) then 1 else 0)
  }

  predicate LegalXl(cfg: Config, xl: nat) { xl == 2 || (cfg.rv32Build && xl == 1) }

  // The width field of a lower mode: writable or not, it is legal on a 64-bit machine once status has changed
  predicate XlLaw(cfg: Config, asked: nat, xl: nat) {
    xl == if cfg.machine64 && !LegalXl(cfg, asked) then 2 else asked
  }

  ghost predicate StatusLaw(cfg: Config, m: bool, st: Bits, st': Bits, val: Word, op: Op, rv64: bool) {
    var fs, vs := Field(st, 13), Field(st, 9);
    var xs := if fs > vs then fs else vs;
    // Plain bits take the operation, and bits outside the fields stay
    && (forall i: nat :: i in PlainBits(m) ==> (i in st' <==> OpBit(i in st, BitOf(val, i), op)))
    && (forall i: nat :: i !in PlainBits(m) && i !in {9, 10, 11, 12, 15, 16, 32, 33, 34, 35} ==>
          (i in st' <==> i in st))
    // XS is read as the dirtier of FS and VS
    && Field(st', 15) == Asked(xs, val, op, 15)
    // MPP is never 2, and S does not reach it
    && (var mpp := if m then Asked(Field(st, 11), val, op, 11) else Field(st, 11);
        Field(st', 11) == if mpp == 2 then 0 else mpp)
    // VS is off, UXL and SXL are legal
    && (st' != st ==>
          && Field(st', 9) == 0
          && XlLaw(cfg, if rv64 then Asked(Field(st, 32), val, op, 32) else Field(st, 32), Field(st', 32))
          && XlLaw(cfg, if rv64 && m then Asked(Field(st, 34), val, op, 34) else Field(st, 34), Field(st', 34)))
  }

  // One two-bit field replaced
  lemma Replaced(st: Bits, pos: nat, v: nat)
    requires v < 4
    ensures var r := Put2(st, pos, v);
            && Field(r, pos) == v
            && forall i :: i != pos && i != pos + 1 ==> (i in r <==> i in st)
  {
  }

  lemma LegalFields(cfg: Config, st: Bits)
    ensures var r := LegalStatus(cfg, st);
            && (forall i :: i !in {9, 10, 11, 12, 32, 33, 34, 35} ==> (i in r <==> i in st))
            && Field(r, 15) == Field(st, 15) && Field(r, 9) == 0
            && Field(r, 11) == (if Field(st, 11) == 2 then 0 else Field(st, 11))
            && XlLaw(cfg, Field(st, 32), Field(r, 32)) && XlLaw(cfg, Field(st, 34), Field(r, 34))
  {
    hide Put2;
    Replaced(st, 32, 2);
    var a := if cfg.machine64 && !XlValid(cfg, Get2(st, 32)) then Put2(st, 32, 2) else st;
    Replaced(a, 34, 2);
    var b := if cfg.machine64 && !XlValid(cfg, Get2(a, 34)) then Put2(a, 34, 2) else a;
    Replaced(b, 11, 0);
    var d := if Get2(b, 11) == 2 then Put2(b, 11, 0) else b;
    Replaced(d, 9, 0);
  }

  // Fields of a register that obeys the bit law
  lemma FieldAsked(a: Bits, b: Bits, val: Word, mask: Bits, op: Op, pos: nat)
    requires BitLaw(a, b, val, mask, op)
    ensures pos in mask && pos + 1 in mask ==> Field(b, pos) == Asked(Field(a, pos), val, op, pos)
    ensures pos !in mask && pos + 1 !in mask ==> Field(b, pos) == Field(a, pos)
  {
    hide BitOf, OpBit;
    assert pos in b <==> if pos in mask then OpBit(pos in a, BitOf(val, pos), op) else pos in a;
    assert pos + 1 in b <==> if pos + 1 in mask then OpBit(pos + 1 in a, BitOf(val, pos + 1), op) else pos + 1 in a;
  }

  /** What a write to mstatus or sstatus leaves, bit by bit and field by field. */
  lemma StatusWritten(cfg: Config, m: bool, st: Bits, val: Word, op: Op, rv64: bool)
    requires Field(st, 11) != 2
    ensures var mask := XlenMask(StatusMask(if m then 3 else 1), rv64);
            StatusLaw(cfg, m, st, StatusWrite(cfg, st, Ones(val), mask, op), val, op, rv64)
  {
    hide LegalStatus, MaskedBits, Ones, OpBit, BitOf, Asked, XlLaw, XlenMask, StatusMask, PlainBits, WithXs;
    hide BitLaw, Field;
    var mask := XlenMask(StatusMask(if m then 3 else 1), rv64);
    var a := WithXs(st);
    var b := MaskedBits(a, Ones(val), mask, op);
    MaskParts(m, rv64);
    ReadsXs(st);
    MaskedBitLaw(a, val, mask, op);
    PlainPart(m, st, a, b, val, mask, op);
    FieldAsked(a, b, val, mask, op, 15);
    FieldAsked(a, b, val, mask, op, 11);
    FieldAsked(a, b, val, mask, op, 32);
    FieldAsked(a, b, val, mask, op, 34);
    LegalFields(cfg, b);
    SparesPlain(m);
  }

  // The masks in parts: plain bits, and fields as a whole
  lemma MaskParts(m: bool, rv64: bool)
    ensures var mask := XlenMask(StatusMask(if m then 3 else 1), rv64);
            && (forall i: nat :: i in PlainBits(m) ==> i in mask) && (forall i: nat :: i in mask ==> i < 64)
            && (forall i: nat :: i !in PlainBits(m) && i !in {9, 10, 11, 12, 15, 16, 32, 33, 34, 35} ==> i !in mask)
            && 15 in mask && 16 in mask
            && (if m then 11 in mask && 12 in mask else 11 !in mask && 12 !in mask)
            && (if rv64 then 32 in mask && 33 in mask else 32 !in mask && 33 !in mask)
            && (if rv64 && m then 34 in mask && 35 in mask else 34 !in mask && 35 !in mask)
  {
  }

  lemma SparesPlain(m: bool)
    ensures forall i: nat :: i in PlainBits(m) ==> i !in {9, 10, 11, 12, 15, 16, 32, 33, 34, 35}
  {
  }

  lemma ReadsXs(st: Bits)
    ensures var fs, vs := Field(st, 13), Field(st, 9);
            && Field(WithXs(st), 15) == (if fs > vs then fs else vs)
            && (forall i :: i != 15 && i != 16 ==> (i in WithXs(st) <==> i in st))
            && Field(WithXs(st), 11) == Field(st, 11)
            && Field(WithXs(st), 32) == Field(st, 32) && Field(WithXs(st), 34) == Field(st, 34)
  {
    hide Put2;
    var fs, vs := Field(st, 13), Field(st, 9);
    Replaced(st, 15, if fs > vs then fs else vs);
  }

  lemma PlainPart(m: bool, st: Bits, a: Bits, b: Bits, val: Word, mask: Bits, op: Op)
    requires forall i :: i != 15 && i != 16 ==> (i in a <==> i in st)
    requires forall i: nat :: i in PlainBits(m) ==> i in mask
    requires forall i: nat :: i !in PlainBits(m) && i !in {9, 10, 11, 12, 15, 16, 32, 33, 34, 35} ==> i !in mask
    requires BitLaw(a, b, val, mask, op)
    ensures forall i: nat :: i in PlainBits(m) ==> (i in b <==> OpBit(i in st, BitOf(val, i), op))
    ensures forall i: nat :: i !in PlainBits(m) && i !in {9, 10, 11, 12, 15, 16, 32, 33, 34, 35} ==>
              (i in b <==> i in st)
  {
    hide OpBit, BitOf;
    SparesPlain(m);
  }

  // The check for interrupts that an instruction asks for
  predicate AsksCheck(id: nat, st: Bits, st': Bits) {
    || id in {0x104, 0x144, 0x304, 0x344}
    || (id in {0x100, 0x300} && ((1 in st' && 1 !in st) || (3 in st' && 3 !in st)))
  }

  /** A legal CSR instruction changes the register that its number names, by the bit law of that register, and
      nothing else, and asks for an interrupt check after ie and ip, and when status switches interrupts on. */
  lemma CsrWritten(cfg: Config, s: State, id: nat, val: Word, op: Op, rv64: bool)
    requires Inv(s) && TrapCsr(id) && CsrOp(cfg, s, id, val, op, rv64).Done?
    ensures var s' := CsrOp(cfg, s, id, val, op, rv64).s;
            && s' == s.(csr := s'.csr, check := s.check || AsksCheck(id, s.csr.status, s'.csr.status))
            && CsrLaw(id, s.csr, s'.csr, val, op, rv64)
            && (id == 0x100 || id == 0x300 ==>
                  StatusLaw(cfg, id == 0x300, s.csr.status, s'.csr.status, val, op, rv64))
  {
    hide Written, CsrLaw, StatusLaw, StatusWrite;
    WrittenLaw(cfg, id, s.csr, val, op, rv64);
    if id == 0x100 || id == 0x300 {
      StatusWritten(cfg, id == 0x300, s.csr.status, val, op, rv64);
      WritesStatus(cfg, id, s.csr, val, op, rv64);
    }
  }

  lemma WritesStatus(cfg: Config, id: nat, c: Csrs, val: Word, op: Op, rv64: bool)
    requires id == 0x100 || id == 0x300
    ensures var sel := Select(id);
            sel.Csr? && Written(cfg, c, sel.kind, sel.mode, val, op, rv64).status
                        == StatusWrite(cfg, c.status, Ones(val),
                                       XlenMask(StatusMask(if id == 0x300 then 3 else 1), rv64), op)
  {
    hide StatusWrite, Ones, XlenMask, StatusMask;
  }
}
