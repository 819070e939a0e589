/**
 * Nested traps: a trap into S or M, any well-bracketed activity of the handler, and the matching
 * return bring the hart back to where it was.
 */
module TrapNesting {
  import opened BitSets
  import opened Words
  import opened Privilege
  import RegisterLaws

  // Either an action of the handler itself, or a trap into a more privileged mode together with
  // everything up to and including the return from it
  datatype Item = Act(a: Action) | Nest(entry: Action, body: seq<Item>)

  // What a trap entry saves for the mode it enters
  datatype Frame = Frame(enabled: bool, priv: nat, pc: Word)

  function Saved(c: Csrs, t: Priv): Frame {
    if t == M then Frame(MPIE in c.status, Get2(c.status, MPP), c.epc.m)
    else Frame(SPIE in c.status, SppOf(c.status), c.epc.s)
  }

  function Ret(t: Priv): Action { if t == M then MretInsn else SretInsn }

  // sret traps in S mode if TSR is set
  predicate RetAllowed(s: State, t: Priv) { t == S ==> TSR !in s.csr.status }

  predicate IsTrap(a: Action) { a.Exception? || a.Interrupt? }

  ghost function RunItem(cfg: Config, s: State, item: Item): State
    decreases item, 0
  {
    match item
    case Act(a) => Next(cfg, s, a)
    case Nest(entry, body) =>
      var s1 := Next(cfg, s, entry);
      Next(cfg, RunItems(cfg, s1, body), Ret(s1.priv))
  }

  ghost function RunItems(cfg: Config, s: State, items: seq<Item>): State
    decreases items
  {
    if items == [] then s else RunItems(cfg, RunItem(cfg, s, items[0]), items[1..])
  }

  // The bits of status in which mode t keeps its frame
  function FrameBits(t: Priv): Bits { if t == M then {MPIE, MPP, MPP + 1} else {SPIE, SPP} }

  // A status operation that does not change the frame of mode t
  predicate SparesFrame(st: Bits, val: Bits, mask: Bits, op: Op, t: Priv) {
    FrameBits(t) * MaskedBits(st, val, mask, op) == FrameBits(t) * st
  }

  // What a handler may do by itself while the frames of the modes in `live` are in use: ordinary instructions,
  // looking for interrupts when none is deliverable, and legal CSR instructions, except on epc of a live mode, and
  // on status only so that the bits of a live frame come out as they were
  ghost predicate Tame(cfg: Config, s: State, live: set<Priv>, a: Action) {
    match a
    case Plain(next, dirtyFpu) => true
    case Interrupt(raised, rv64) => !Deliverable(s, raised)
    case CsrInsn(id, val, op, rv64) =>
      && CsrOp(cfg, s, id, val, op, rv64).Done?
      && var sel := Select(id);
      && (sel.Csr? && sel.kind.Epc? ==> sel.mode !in live)
      && (sel.Csr? && sel.kind.Status? ==>
            forall t :: t in live ==> SparesFrame(s.csr.status, Ones(val), XlenMask(StatusMask(sel.mode), rv64), op, t))
    case _ => false
  }

  // The handler's own actions are tame; nested traps go up and return
  ghost predicate Bracketed(cfg: Config, s: State, live: set<Priv>, items: seq<Item>)
    decreases items
  {
    items == [] ||
    (BracketedItem(cfg, s, live, items[0]) && Bracketed(cfg, RunItem(cfg, s, items[0]), live, items[1..]))
  }

  ghost predicate BracketedItem(cfg: Config, s: State, live: set<Priv>, item: Item)
    decreases item, 0
  {
    match item
    case Act(a) => Tame(cfg, s, live, a)
    case Nest(entry, body) =>
      && IsTrap(entry)
      && var s1 := Next(cfg, s, entry);
      && s1.priv > s.priv && Bracketed(cfg, s1, live + {s1.priv}, body)
      && RetAllowed(RunItems(cfg, s1, body), s1.priv)
  }

  ghost predicate Quiet(s: State, s': State, live: set<Priv>) {
    s'.priv == s.priv && forall t :: t in live ==> Saved(s'.csr, t) == Saved(s.csr, t)
  }

  // The modes with a frame in use are handler modes no more privileged than the current one
  ghost predicate LiveOk(s: State, live: set<Priv>) {
    forall t :: t in live ==> (t == S || t == M) && t <= s.priv
  }

  // ------------------------------------------------------------ one entry, one return

  // `s1` is what `a` makes of `s` by entering mode t
  ghost predicate Entered(cfg: Config, s: State, a: Action, t: Priv) {
    IsTrap(a) && Next(cfg, s, a).priv == t && (a.Exception? || Next(cfg, s, a) != s)
  }

  // All CSRs agree except status and the trap values of mode t
  predicate SameBut(c: Csrs, d: Csrs, t: Priv) {
    && c.ie == d.ie && c.ip == d.ip && c.edeleg == d.edeleg && c.ideleg == d.ideleg
    && c.tvec == d.tvec && c.scratch == d.scratch
    && forall u: Priv :: u != t ==>
         c.epc.At(u) == d.epc.At(u) && c.cause.At(u) == d.cause.At(u) && c.tval.At(u) == d.tval.At(u)
  }

  // The bits of status that belong to the trap stack of mode t
  function StackBits(t: Priv): Bits { if t == M then {MIE, MPIE, MPP, MPP + 1} else {SIE, SPIE, SPP} }

  /** A trap entry reports the cause, disables the interrupts of the mode entered, goes to its vector and changes
      nothing else. */
  lemma EntryReports(cfg: Config, s: State, a: Action, t: Priv)
    requires Inv(s) && Entered(cfg, s, a, t)
    ensures var s' := Next(cfg, s, a);
            && SameBut(s'.csr, s.csr, t) && t !in s'.csr.status
            && s'.csr.status - StackBits(t) == s.csr.status - StackBits(t)
            && (a.Exception? ==> s'.csr.cause.At(t) == a.cause && s'.csr.tval.At(t) == a.tval
                                 && s'.pc % 4 == 0 && s'.pc <= s.csr.tvec.At(t) < s'.pc + 4)
            && (a.Interrupt? ==> s'.csr.tval.At(t) == 0
                                 && (s.csr.tvec.At(t) % 4 == 0 ==> s'.pc == s.csr.tvec.At(t)))
  {
    hide CsrOp, Sret, Mret, Trap, HandleIrqs, SameBut, StackBits, Inv;
    if a.Exception? { TrapReports(s, a.cause, a.tval); } else { IrqReports(s, a.raised, a.rv64); }
  }

  lemma TrapReports(s: State, cause: Word, tval: Word)
    requires Inv(s)
    ensures var s' := Settle(Trap(s, cause, tval));
            var t := s'.priv;
            && SameBut(s'.csr, s.csr, t) && t !in s'.csr.status
            && s'.csr.status - StackBits(t) == s.csr.status - StackBits(t)
            && s'.csr.cause.At(t) == cause && s'.csr.tval.At(t) == tval
            && s'.pc % 4 == 0 && s'.pc <= s.csr.tvec.At(t) < s'.pc + 4
  {
    hide Pushed, StackBits, VectorBase;
    PushedBits(s.csr.status, s.priv, TrapTarget(s, cause));
    AlignedBase(s.csr.tvec.At(TrapTarget(s, cause)));
  }

  lemma IrqReports(s: State, raised: Bits, rv64: bool)
    requires Inv(s) && HandleIrqs(s, raised, rv64) != s
    ensures var s' := HandleIrqs(s, raised, rv64);
            var t := s'.priv;
            && SameBut(s'.csr, s.csr, t) && t !in s'.csr.status
            && s'.csr.status - StackBits(t) == s.csr.status - StackBits(t)
            && s'.csr.tval.At(t) == 0 && (s.csr.tvec.At(t) % 4 == 0 ==> s'.pc == s.csr.tvec.At(t))
  {
    hide Pushed, StackBits;
    PushedBits(s.csr.status, s.priv, M);
    PushedBits(s.csr.status, s.priv, S);
  }

  // Pushing clears the enable of the target mode and writes only its stack
  lemma PushedBits(st: Bits, priv: Priv, t: Priv)
    requires t == S || t == M
    ensures t !in Pushed(st, priv, t) && Pushed(st, priv, t) - StackBits(t) == st - StackBits(t)
  {
  }

  lemma AlignedBase(vec: Word)
    ensures VectorBase(vec) % 4 == 0 && VectorBase(vec) <= vec < VectorBase(vec) + 4
  {
  }

  // The frames after a push of mode `priv` onto the stack of mode t
  lemma PushedFrames(c: Csrs, d: Csrs, priv: Priv, t: Priv)
    requires (t == S || t == M) && priv != H && (t == S ==> priv <= S) && d.status == Pushed(c.status, priv, t)
    ensures Saved(d, t) == Frame(t in c.status, priv, d.epc.At(t))
    ensures forall u :: (u == S || u == M) && u != t && d.epc.At(u) == c.epc.At(u) ==> Saved(d, u) == Saved(c, u)
  {
  }

  /** A trap entry saves mode, interrupt enable and program counter, and touches no other frame. */
  lemma EntrySaves(cfg: Config, s: State, a: Action, t: Priv)
    requires Inv(s) && Entered(cfg, s, a, t)
    ensures (t == S || t == M) && t >= s.priv
    ensures Saved(Next(cfg, s, a).csr, t) == Frame(t in s.csr.status, s.priv, s.pc)
    ensures forall u :: (u == S || u == M) && u != t ==> Saved(Next(cfg, s, a).csr, u) == Saved(s.csr, u)
  {
    hide Pushed, Saved, CsrOp, Sret, Mret, CsrsOk;
    PushedFrames(s.csr, Next(cfg, s, a).csr, s.priv, t);
  }

  lemma SretFrames(s: State)
    ensures var s', f := Sret(s), Saved(s.csr, S);
            && s'.priv == f.priv && s'.pc == Wrap(f.pc - 4) && (SIE in s'.csr.status <==> f.enabled)
            && s'.trap == s.trap
            && Saved(s'.csr, M) == Saved(s.csr, M)
  {
  }

  lemma MretFrames(s: State)
    ensures var s', f := Mret(s), Saved(s.csr, M);
            && s'.priv == f.priv && s'.pc == Wrap(f.pc - 4) && (MIE in s'.csr.status <==> f.enabled)
            && s'.trap == s.trap
            && Saved(s'.csr, S) == Saved(s.csr, S)
  {
  }

  lemma FourBack(pc: Word)
    ensures Wrap(Wrap(pc - 4) + 4) == pc
  {
  }

  /** The matching return restores what was saved, and touches no other frame. */
  lemma ReturnRestores(cfg: Config, s: State, t: Priv)
    requires Inv(s) && s.priv == t && (t == S || t == M) && RetAllowed(s, t)
    ensures var s' := Next(cfg, s, Ret(t));
            && s'.priv == Saved(s.csr, t).priv && s'.pc == Saved(s.csr, t).pc
            && (t in s'.csr.status <==> Saved(s.csr, t).enabled)
            && forall u :: (u == S || u == M) && u != t ==> Saved(s'.csr, u) == Saved(s.csr, u)
  {
    hide CsrOp, Trap, HandleIrqs, Sret, Mret, Saved, Wrap, CsrsOk;
    SretFrames(s);
    MretFrames(s);
    FourBack(Saved(s.csr, t).pc);
  }

  /** The return leaves the frame it used empty: interrupts were enabled, in U; it clears MPRV on the way out of M,
      and changes nothing else. */
  lemma ReturnEmpties(cfg: Config, s: State, t: Priv)
    requires Inv(s) && s.priv == t && (t == S || t == M) && RetAllowed(s, t)
    ensures var s' := Next(cfg, s, Ret(t));
            && Saved(s'.csr, t) == Frame(true, U, Saved(s.csr, t).pc)
            && s'.csr == s.csr.(status := s'.csr.status)
            && s'.csr.status - StackBits(t) - {MPRV} == s.csr.status - StackBits(t) - {MPRV}
            && (MPRV in s'.csr.status <==> MPRV in s.csr.status && (t == S || s'.priv == M))
  {
    hide CsrOp, Trap, HandleIrqs;
  }

  // ------------------------------------------------------------ the handler's own actions

  lemma MaskedBitwise(a: Bits, b: Bits, val: Bits, mask: Bits, op: Op, i: nat)
    requires i in a <==> i in b
    ensures i in MaskedBits(a, val, mask, op) <==> i in MaskedBits(b, val, mask, op)
  {
  }

  // Legalisation touches none of the one-bit frame fields, and MPP only when it is H
  lemma LegalKeepsFrame(cfg: Config, st: Bits)
    ensures var r := LegalStatus(cfg, st);
            && (SPIE in r <==> SPIE in st) && (SPP in r <==> SPP in st) && (MPIE in r <==> MPIE in st)
            && (Get2(st, MPP) != H ==> Get2(r, MPP) == Get2(st, MPP))
  {
    hide XlValid;
    if Get2(st, MPP) != H { LegalStatusKeeps(cfg, st); }
  }

  lemma StatusKeepsFrame(cfg: Config, st: Bits, val: Bits, mask: Bits, op: Op, t: Priv)
    requires (t == S || t == M) && SparesFrame(st, val, mask, op, t) && Get2(st, MPP) != H
    ensures var r := StatusWrite(cfg, st, val, mask, op);
            if t == M then (MPIE in r <==> MPIE in st) && Get2(r, MPP) == Get2(st, MPP)
            else (SPIE in r <==> SPIE in st) && SppOf(r) == SppOf(st)
  {
    hide LegalStatus, MaskedBits, WithXs;
    var x := WithXs(st);
    XsKeepsFrame(st);
    var y := MaskedBits(x, val, mask, op);
    forall i | i in FrameBits(t) ensures i in y <==> i in x {
      MaskedBitwise(x, st, val, mask, op, i);
      assert i in FrameBits(t) * MaskedBits(st, val, mask, op) <==> i in FrameBits(t) * st;
    }
    LegalKeepsFrame(cfg, y);
    if t == M { assert MPIE in FrameBits(t) && MPP in FrameBits(t) && MPP + 1 in FrameBits(t); }
    else { assert SPIE in FrameBits(t) && SPP in FrameBits(t); }
  }

  lemma XsKeepsFrame(st: Bits)
    ensures forall i :: i in {SPIE, SPP, MPIE, MPP, MPP + 1} ==> (i in WithXs(st) <==> i in st)
  {
  }

  lemma WrittenKeepsFrame(cfg: Config, c: Csrs, kind: Kind, p: Priv, val: Word, op: Op, rv64: bool, t: Priv)
    requires CsrsOk(c) && (p == S || p == M) && (t == S || t == M)
    requires kind.Epc? ==> p != t
    requires kind.Status? ==> SparesFrame(c.status, Ones(val), XlenMask(StatusMask(p), rv64), op, t)
    ensures Saved(Written(cfg, c, kind, p, val, op, rv64), t) == Saved(c, t)
  {
    hide StatusWrite, MaskedBits, MaskedWord, LegalTvec, Privilege.Even, Ones;
    hide XlenMask, StatusMask, IrqMask, SparesFrame;
    if kind.Status? { StatusKeepsFrame(cfg, c.status, Ones(val), XlenMask(StatusMask(p), rv64), op, t); }
  }

  /** Tame actions stay in their mode and keep every live frame. */
  lemma TameIsQuiet(cfg: Config, s: State, live: set<Priv>, a: Action)
    requires Inv(s) && LiveOk(s, live) && Tame(cfg, s, live, a)
    ensures Quiet(s, Next(cfg, s, a), live)
  {
    hide Written, Select, Saved, HandleIrqs, Trap, Sret, Mret, SparesFrame, Ones, NeedsCheck, Deliverable;
    match a
    case Plain(next, dirtyFpu) =>
      forall t | t in live ensures Saved(Next(cfg, s, a).csr, t) == Saved(s.csr, t) {
        PlainKeepsFrame(s, next, dirtyFpu, t);
      }
    case Interrupt(raised, rv64) => InterruptTakenIff(s, raised, rv64);
    case CsrInsn(id, val, op, rv64) =>
      var sel := Select(id);
      forall t | t in live ensures Saved(Next(cfg, s, a).csr, t) == Saved(s.csr, t) {
        WrittenKeepsFrame(cfg, s.csr, sel.kind, sel.mode, val, op, rv64, t);
      }
  }

  lemma PlainKeepsFrame(s: State, next: Word, dirtyFpu: bool, t: Priv)
    ensures Saved(PlainInsn(s, next, dirtyFpu).csr, t) == Saved(s.csr, t)
  {
  }

  // ------------------------------------------------------------ nesting

  /** Whatever bracketed activity a handler performs, it ends in its mode with its frames intact. */
  lemma {:induction false} BodyKeepsFrames(cfg: Config, s: State, live: set<Priv>, items: seq<Item>)
    requires Inv(s) && LiveOk(s, live) && Bracketed(cfg, s, live, items)
    ensures Inv(RunItems(cfg, s, items)) && Quiet(s, RunItems(cfg, s, items), live)
    decreases items, 0
  {
    hide Inv, Next, Saved;
    if items != [] {
      var s' := RunItem(cfg, s, items[0]);
      ItemKeepsFrames(cfg, s, live, items[0]);
      BodyKeepsFrames(cfg, s', live, items[1..]);
    }
  }

  lemma {:induction false} ItemKeepsFrames(cfg: Config, s: State, live: set<Priv>, item: Item)
    requires Inv(s) && LiveOk(s, live) && BracketedItem(cfg, s, live, item)
    ensures Inv(RunItem(cfg, s, item)) && Quiet(s, RunItem(cfg, s, item), live)
    decreases item, 0
  {
    hide Inv, Next, Saved;
    match item
    case Act(a) =>
      NextKeepsInv(cfg, s, a);
      TameIsQuiet(cfg, s, live, a);
    case Nest(entry, body) => NestRestores(cfg, s, live, entry, body);
  }

  /**
   * A trap from any mode, a bracketed handler and the matching return restore the privilege mode,
   * the program counter and the interrupt enable of the handler's mode, and keep every other frame.
   */
  lemma {:induction false} NestRestores(cfg: Config, s: State, live: set<Priv>, entry: Action, body: seq<Item>)
    requires Inv(s) && LiveOk(s, live) && Entered(cfg, s, entry, Next(cfg, s, entry).priv)
    requires Next(cfg, s, entry).priv !in live
    requires Bracketed(cfg, Next(cfg, s, entry), live + {Next(cfg, s, entry).priv}, body)
    requires RetAllowed(RunItems(cfg, Next(cfg, s, entry), body), Next(cfg, s, entry).priv)
    ensures var t, r := Next(cfg, s, entry).priv, RunItem(cfg, s, Nest(entry, body));
            && Inv(r) && Quiet(s, r, live)
            && r.pc == s.pc && (t in r.csr.status <==> t in s.csr.status)
    decreases body, 1
  {
    hide Inv, Next, Saved, RetAllowed;
    var s1 := Next(cfg, s, entry);
    var t := s1.priv;
    NextKeepsInv(cfg, s, entry);
    EntrySaves(cfg, s, entry, t);
    BodyKeepsFrames(cfg, s1, live + {t}, body);
    var s2 := RunItems(cfg, s1, body);
    ReturnRestores(cfg, s2, t);
    NextKeepsInv(cfg, s2, Ret(t));
  }

  // ------------------------------------------------------------ nesting as a plain run

  // The actions of nested items one after the other
  ghost function Flatten(cfg: Config, s: State, items: seq<Item>): seq<Action>
    decreases items
  {
    if items == [] then []
    else FlattenItem(cfg, s, items[0]) + Flatten(cfg, RunItem(cfg, s, items[0]), items[1..])
  }

  ghost function FlattenItem(cfg: Config, s: State, item: Item): seq<Action>
    decreases item, 0
  {
    match item
    case Act(a) => [a]
    case Nest(entry, body) =>
      var s1 := Next(cfg, s, entry);
      [entry] + Flatten(cfg, s1, body) + [if s1.priv == 3 then MretInsn else SretInsn]
  }

  /** Running nested items is running their actions in order: the entry, those of the body, and mret or sret. */
  lemma {:induction false} NestedIsFlat(cfg: Config, s: State, items: seq<Item>)
    ensures RunAll(cfg, s, Flatten(cfg, s, items)) == RunItems(cfg, s, items)
    decreases items, 0
  {
    hide Next;
    if items != [] {
      ItemIsFlat(cfg, s, items[0]);
      var s' := RunItem(cfg, s, items[0]);
      NestedIsFlat(cfg, s', items[1..]);
      RunsOn(cfg, s, FlattenItem(cfg, s, items[0]), Flatten(cfg, s', items[1..]));
    }
  }

  lemma {:induction false} ItemIsFlat(cfg: Config, s: State, item: Item)
    ensures RunAll(cfg, s, FlattenItem(cfg, s, item)) == RunItem(cfg, s, item)
    decreases item, 0
  {
    hide Next;
    match item
    case Act(a) => RunsOne(cfg, s, a);
    case Nest(entry, body) =>
      var s1 := Next(cfg, s, entry);
      var ret := if s1.priv == 3 then MretInsn else SretInsn;
      NestedIsFlat(cfg, s1, body);
      RunsOne(cfg, s, entry);
      RunsOn(cfg, s, [entry], Flatten(cfg, s1, body));
      RunsOn(cfg, s, [entry] + Flatten(cfg, s1, body), [ret]);
      RunsOne(cfg, RunItems(cfg, s1, body), ret);
  }

  lemma RunsOne(cfg: Config, s: State, a: Action)
    ensures RunAll(cfg, s, [a]) == Next(cfg, s, a)
  {
    hide Next;
    assert RunAll(cfg, Next(cfg, s, a), [a][1..]) == Next(cfg, s, a);
  }

  lemma {:induction false} RunsOn(cfg: Config, s: State, a: seq<Action>, b: seq<Action>)
    ensures RunAll(cfg, s, a + b) == RunAll(cfg, RunAll(cfg, s, a), b)
    decreases |a|
  {
    hide Next;
    if a == [] {
      assert a + b == b;
    } else {
      assert (a + b)[1..] == a[1..] + b && (a + b)[0] == a[0];
      RunsOn(cfg, Next(cfg, s, a[0]), a[1..], b);
    }
  }

  // ------------------------------------------------------------ what a handler may do

  /** A handler may use every trap CSR it has access to, except epc of a live mode and, with care, status. */
  lemma OtherCsrsAreTame(cfg: Config, s: State, live: set<Priv>, id: nat, val: Word, op: Op, rv64: bool)
    requires RegisterLaws.TrapCsr(id) && CsrOp(cfg, s, id, val, op, rv64).Done?
    requires id != 0x100 && id != 0x300 && (id == 0x141 ==> 1 !in live) && (id == 0x341 ==> 3 !in live)
    ensures Tame(cfg, s, live, CsrInsn(id, val, op, rv64))
  {
    hide CsrOp;
  }

  function Acts(body: seq<Action>): seq<Item> { seq(|body|, i requires 0 <= i < |body| => Act(body[i])) }

  predicate AllPlain(body: seq<Action>) { forall i :: 0 <= i < |body| ==> body[i].Plain? }

  lemma {:induction false} PlainBody(cfg: Config, s: State, live: set<Priv>, body: seq<Action>)
    requires AllPlain(body)
    ensures Bracketed(cfg, s, live, Acts(body))
    ensures RunItems(cfg, s, Acts(body)) == RunAll(cfg, s, body)
    ensures 22 in RunAll(cfg, s, body).csr.status <==> 22 in s.csr.status
    decreases |body|
  {
    if body != [] {
      var s' := Next(cfg, s, body[0]);
      assert Acts(body)[0] == Act(body[0]) && Acts(body)[1..] == Acts(body[1..]);
      PlainSparesTsr(cfg, s, body[0]);
      hide Next;
      PlainBody(cfg, s', live, body[1..]);
    }
  }

  lemma PlainSparesTsr(cfg: Config, s: State, a: Action)
    requires a.Plain?
    ensures 22 in Next(cfg, s, a).csr.status <==> 22 in s.csr.status
  {
  }

  /**
   * In particular, a trap, any number of ordinary instructions and mret or sret bring the hart back to
   * its mode and program counter, with the interrupt enable of the handler's mode as it was.
   */
  lemma HandlerReturns(cfg: Config, s: State, entry: Action, body: seq<Action>)
    requires Inv(s) && (entry.Exception? || (entry.Interrupt? && Next(cfg, s, entry) != s)) && AllPlain(body)
    requires Next(cfg, s, entry).priv == 1 ==> 22 !in Next(cfg, s, entry).csr.status
    ensures var t := Next(cfg, s, entry).priv;
            var r := RunAll(cfg, s, [entry] + body + [if t == 3 then MretInsn else SretInsn]);
            r.priv == s.priv && r.pc == s.pc && (t in r.csr.status <==> t in s.csr.status)
  {
    hide Next, RunAll, RunItems, Bracketed;
    var s1 := Next(cfg, s, entry);
    var ret := if s1.priv == 3 then MretInsn else SretInsn;
    PlainBody(cfg, s1, {s1.priv}, body);
    assert {} + {s1.priv} == {s1.priv};
    NestRestores(cfg, s, {}, entry, Acts(body));
    RunsOne(cfg, s, entry);
    RunsOn(cfg, s, [entry], body);
    RunsOn(cfg, s, [entry] + body, [ret]);
    RunsOne(cfg, RunAll(cfg, s1, body), ret);
  }
}
