/**
 * The incoming MSI controller of a hart at one privilege level (sections 3.8 and 3.9 of the RISC-V
 * Advanced Interrupt Architecture 1.0): 256 interrupt identities in eight words of pending and
 * enable bits, and the external-interrupt line they drive. The threshold is 0. The guest may also
 * make identity 0 pending, which the architecture reserves and which doubles as "none" here.
 */
module Aia {
  import opened BitSets
  import opened Privilege

  const WORDS: nat := 8

  type Array = a: seq<Bits> | |a| == WORDS witness [{}, {}, {}, {}, {}, {}, {}, {}]

  datatype File = File(delivery: bool, eip: Array, eie: Array, line: bool)

  function Active(f: File, i: nat): Bits
    requires i < WORDS
  {
    f.eip[i] * f.eie[i]
  }

  predicate Wf(f: File) {
    forall i :: 0 <= i < WORDS ==> f.eip[i] <= ALL_LINES && f.eie[i] <= ALL_LINES
  }

  // Some enabled identity is pending in a word from `i` on
  predicate AnyFrom(f: File, i: nat) { exists j :: i <= j < WORDS && Active(f, j) != {} }

  // The line is raised iff delivery is on and some enabled identity is pending
  predicate LineRight(f: File) { f.line <==> f.delivery && AnyFrom(f, 0) }

  predicate IsActive(f: File, id: nat) { id < 256 && id % 32 in Active(f, id / 32) }

  // The enabled, pending identities
  function ActiveIds(f: File): set<nat> { set id: nat | id < 256 && IsActive(f, id) }

  // First word from `i` on with an enabled, pending identity, or WORDS
  function FirstWord(f: File, i: nat): (r: nat)
    requires i <= WORDS
    ensures i <= r <= WORDS
    ensures forall j :: i <= j < r ==> Active(f, j) == {}
    ensures r < WORDS ==> Active(f, r) != {}
    decreases WORDS - i
  {
    if i == WORDS || Active(f, i) != {} then i else FirstWord(f, i + 1)
  }

  // The identity reported by topei: highest bit of the first active word, or 0
  ghost function Top(f: File): nat {
    var i := FirstWord(f, 0);
    if !f.delivery || i == WORDS then 0 else 32 * i + Highest(Active(f, i))
  }

  function Removed(f: File, id: nat): File
    requires id < 256
  {
    f.(eip := f.eip[id / 32 := f.eip[id / 32] - {id % 32}])
  }

  function Relined(f: File): File { f.(line := f.delivery && AnyFrom(f, 0)) }

  // Identity 0 is all there is in its word, so that it comes out on top
  predicate OnlyZero(f: File) { f.delivery && Active(f, 0) == {0} }

  // A claim takes such an identity 0 for nothing, removes it and goes on
  function Clean(f: File): File { if OnlyZero(f) then Removed(f, 0) else f }

  // Claiming the top identity
  ghost function Claimed(f: File): File
    requires Wf(f)
  {
    CleanWf(f);
    TopIsActive(Clean(f));
    if Top(Clean(f)) == 0 then Relined(Clean(f)) else Relined(Removed(Clean(f), Top(Clean(f))))
  }

  lemma CleanWf(f: File)
    requires Wf(f)
    ensures Wf(Clean(f)) && !OnlyZero(Clean(f)) && Clean(f).delivery == f.delivery && Clean(f).eie == f.eie
    ensures forall j :: 0 < j < WORDS ==> Active(Clean(f), j) == Active(f, j)
    ensures Active(Clean(f), 0) == if OnlyZero(f) then {} else Active(f, 0)
    ensures !f.delivery ==> Clean(f) == f
  {
  }

  /** The line is right if it is up exactly when delivery is on and some identity is both pending and enabled. */
  lemma LineMeaning(f: File)
    requires Wf(f)
    ensures LineRight(f) <==>
            (f.line <==>
               f.delivery && exists id: nat | id < 256 :: id % 32 in f.eip[id / 32] && id % 32 in f.eie[id / 32])
  {
    if AnyFrom(f, 0) {
      var j :| 0 <= j < WORDS && Active(f, j) != {};
      var b :| b in Active(f, j);
      assert b < 32 by { assert b in f.eip[j] && f.eip[j] <= ALL_LINES; }
      var id := 32 * j + b;
      assert id / 32 == j && id % 32 == b;
    }
    if id: nat :| id < 256 && id % 32 in f.eip[id / 32] && id % 32 in f.eie[id / 32] {
      assert id % 32 in Active(f, id / 32);
    }
  }

  /** topei reports an enabled, pending identity, the highest in the first word that has any, and 0 only if there is
      none but 0. */
  lemma TopIsActive(f: File)
    requires Wf(f)
    ensures Top(f) == 0 <==> !f.delivery || !AnyFrom(f, 0) || OnlyZero(f)
    ensures Top(f) != 0 ==> IsActive(f, Top(f))
    ensures Top(f) != 0 ==> forall id :: id in ActiveIds(f) ==>
              id / 32 > Top(f) / 32 || (id / 32 == Top(f) / 32 && id <= Top(f))
  {
    var i := FirstWord(f, 0);
    if i < WORDS {
      var b := Highest(Active(f, i));
      assert b < 32 by { assert b in f.eip[i] && f.eip[i] <= ALL_LINES; }
      assert (32 * i + b) / 32 == i && (32 * i + b) % 32 == b;
      if i == 0 && b == 0 { assert Active(f, 0) == {0}; }
      forall id | id in ActiveIds(f) ensures id / 32 > i || (id / 32 == i && id <= 32 * i + b) {
        assert Active(f, id / 32) != {};
        if id / 32 == i { assert id % 32 <= b; }
      }
    }
  }

  // ------------------------------------------------------------ claims

  // The identities returned by claiming until 0 comes back
  ghost function Claims(f: File): seq<nat>
    requires Wf(f)
    decreases |ActiveIds(Clean(f))|
  {
    CleanWf(f);
    if Top(Clean(f)) == 0 then [] else
      ClaimShrinks(f);
      CleanFewer(Claimed(f));
      [Top(Clean(f))] + Claims(Claimed(f))
  }

  lemma CleanFewer(f: File)
    requires Wf(f)
    ensures ActiveIds(Clean(f)) == if OnlyZero(f) then ActiveIds(f) - {0} else ActiveIds(f)
    ensures |ActiveIds(Clean(f))| <= |ActiveIds(f)|
  {
    CleanWf(f);
    if OnlyZero(f) {
      RemovedIds(f, 0);
      assert 0 in ActiveIds(f);
    }
  }

  lemma RemovedIds(f: File, t: nat)
    requires t < 256
    ensures ActiveIds(Relined(Removed(f, t))) == ActiveIds(Removed(f, t)) == ActiveIds(f) - {t}
  {
    var g := Removed(f, t);
    forall id: nat | id < 256
      ensures IsActive(g, id) <==> IsActive(f, id) && id != t
      ensures IsActive(Relined(g), id) <==> IsActive(g, id)
    {
      if id / 32 == t / 32 && id % 32 == t % 32 { assert id == t; }
    }
  }

  lemma ClaimShrinks(f: File)
    requires Wf(f) && Top(Clean(f)) != 0
    ensures Wf(Clean(f)) && IsActive(Clean(f), Top(Clean(f))) && Wf(Claimed(f)) && Claimed(f).delivery == f.delivery
    ensures ActiveIds(Claimed(f)) == ActiveIds(Clean(f)) - {Top(Clean(f))}
    ensures |ActiveIds(Claimed(f))| < |ActiveIds(Clean(f))|
  {
    var g := Clean(f);
    CleanWf(f);
    TopIsActive(g);
    RemovedIds(g, Top(g));
    assert Top(g) in ActiveIds(g);
  }

  /** Repeated claims return every pending, enabled identity other than 0 exactly once, and then 0. */
  lemma {:induction false} ClaimsDrain(f: File)
    requires Wf(f) && f.delivery
    ensures forall id :: id in Claims(f) <==> id in ActiveIds(f) && id != 0
    ensures forall i, j :: 0 <= i < j < |Claims(f)| ==> Claims(f)[i] != Claims(f)[j]
    decreases |ActiveIds(Clean(f))|
  {
    hide Top, Claimed, IsActive, OnlyZero;
    CleanWf(f);
    CleanFewer(f);
    if Top(Clean(f)) == 0 {
      NothingTop(Clean(f));
    } else {
      ClaimShrinks(f);
      CleanFewer(Claimed(f));
      ClaimsDrain(Claimed(f));
      var t, rest := Top(Clean(f)), Claims(Claimed(f));
      assert Claims(f) == [t] + rest;
      assert t in ActiveIds(Clean(f));
      assert ActiveIds(Claimed(f)) == ActiveIds(Clean(f)) - {t};
    }
  }

  lemma NothingTop(f: File)
    requires Wf(f) && f.delivery && !OnlyZero(f) && Top(f) == 0
    ensures ActiveIds(f) == {}
  {
    TopIsActive(f);
    assert forall j :: 0 <= j < WORDS ==> Active(f, j) == {};
  }

  // ------------------------------------------------------------ the register file

  class RegFile {
    var delivery: bool
    var eip: Array
    var eie: Array
    var line: bool    // the external-interrupt bit in pending_irqs

    ghost function View(): File
      reads this
    {
      File(delivery, eip, eie, line)
    }

    constructor ()
      ensures Wf(View()) && LineRight(View())
    {
      delivery, line := false, false;
      eip := [{}, {}, {}, {}, {}, {}, {}, {}];
      eie := [{}, {}, {}, {}, {}, {}, {}, {}];
    }

    // riscv_send_aia_irq; an MSI that arrives while delivery is off is dropped
    method Send(irq: nat)
      requires Wf(View()) && LineRight(View())
      modifies this
      ensures Wf(View()) && LineRight(View()) && delivery == old(delivery) && eie == old(eie)
      ensures eip == if 0 < irq < 256 && delivery then old(eip)[irq / 32 := old(eip)[irq / 32] + {irq % 32}]
                     else old(eip)
    {
      if 0 < irq < 256 && delivery {
        var reg, bit := irq / 32, irq % 32;
        var enabled := bit in eie[reg];
        var before := bit in eip[reg];
        ghost var f := View();
        eip := eip[reg := eip[reg] + {bit}];
        if enabled && !before { line := true; }
        SendLine(f, View(), reg, bit);
      }
    }

    // riscv_update_aia_internal with update set: clear the line, scan, raise it if more is pending
    method Update(claim: bool) returns (ret: nat)
      requires Wf(View())
      modifies `eip, `line
      ensures ret == Top(if claim then Clean(old(View())) else old(View()))
      ensures View() == if claim then Claimed(old(View())) else Relined(old(View()))
    {
      hide Wf, Clean, Active, Top, AnyFrom, Scanned;
      ghost var f := View();
      ghost var g := if claim then Clean(f) else f;
      CleanWf(f);
      ScanStart(f, g, claim);
      ret := 0;
      line := false;
      if delivery {
        for i := 0 to WORDS
          invariant Scanned(f, g, claim, i, ret, eip) && !line && delivery == f.delivery && eie == f.eie
        {
          var bits := eip[i] * eie[i];
          if bits == {} {
            ScanIdle(f, g, claim, i, ret, eip);
          } else if ret != 0 {
            ScanMore(f, g, claim, i, ret, eip);
            line := true;
            return;
          } else {
            ScanInWord(f, g, claim, i, eip);
            var bit := HighestBit(bits);
            ScanFound(f, g, claim, i, bit, eip);
            ret := 32 * i + bit;
            if claim {
              bits := bits - {bit};
              eip := eip[i := eip[i] - {bit}];
            }
            if bits != {} {
              line := true;
              return;
            }
          }
        }
        ScanDone(f, g, claim, ret, eip);
      }
    }
  }

  // The scan has passed the words below `i`: nothing found yet, or the claimed identity and nothing besides
  ghost predicate Scanned(f: File, g: File, claim: bool, i: nat, ret: nat, eip: Array) {
    if ret == 0 then eip == (if i == 0 then f.eip else g.eip) && NoneBelow(g, i)
    else
      && claim && ret == Top(g) && ret < 256 && ret / 32 < i
      && eip == Removed(g, ret).eip && NoneBelow(Removed(g, ret), i)
  }

  predicate NoneBelow(f: File, i: nat) { forall j :: 0 <= j < i && j < WORDS ==> Active(f, j) == {} }

  lemma ScanStart(f: File, g: File, claim: bool)
    requires Wf(f) && g == if claim then Clean(f) else f
    ensures Scanned(f, g, claim, 0, 0, f.eip)
    ensures g.delivery == f.delivery && g.eie == f.eie && g.line == f.line
    ensures !f.delivery ==> g == f && Top(g) == 0 && Clean(f) == f
  {
  }

  lemma ScanIdle(f: File, g: File, claim: bool, i: nat, ret: nat, eip: Array)
    requires Wf(f) && f.delivery && i < WORDS && g == if claim then Clean(f) else f
    requires Scanned(f, g, claim, i, ret, eip) && eip[i] * f.eie[i] == {}
    ensures Scanned(f, g, claim, i + 1, ret, eip)
  {
    CleanWf(f);
    if ret != 0 { assert Active(Removed(g, ret), i) == {}; } else { assert Active(g, i) == {}; }
  }

  lemma ScanMore(f: File, g: File, claim: bool, i: nat, ret: nat, eip: Array)
    requires Wf(f) && i < WORDS && g == if claim then Clean(f) else f
    requires Scanned(f, g, claim, i, ret, eip) && ret != 0 && eip[i] * f.eie[i] != {}
    ensures claim && ret == Top(g) && ret < 256 && eip == Removed(g, ret).eip && AnyFrom(Removed(g, ret), 0)
  {
    assert Active(Removed(g, ret), i) != {};
  }

  lemma ScanInWord(f: File, g: File, claim: bool, i: nat, eip: Array)
    requires Wf(f) && i < WORDS && g == if claim then Clean(f) else f
    requires Scanned(f, g, claim, i, 0, eip)
    ensures eip[i] * f.eie[i] == Active(f, i) <= ALL_LINES
  {
    CleanWf(f);
    if i > 0 { assert Active(g, i) == Active(f, i); }
  }

  lemma ScanFound(f: File, g: File, claim: bool, i: nat, bit: nat, eip: Array)
    requires Wf(f) && f.delivery && i < WORDS && g == if claim then Clean(f) else f
    requires Scanned(f, g, claim, i, 0, eip) && eip[i] * f.eie[i] != {} && bit == Highest(eip[i] * f.eie[i])
    ensures var t, rest := 32 * i + bit, eip[i := eip[i] - {bit}];
            if !claim then t == Top(g) && AnyFrom(g, 0) && eip == g.eip
            else if eip[i] * f.eie[i] == {bit} then Scanned(f, g, claim, i + 1, t, rest)
            else t == Top(g) && 0 < t < 256 && rest == Removed(g, t).eip && AnyFrom(Removed(g, t), 0)
  {
    ScanInWord(f, g, claim, i, eip);
    WordStep(f, g, claim, i, bit, 32 * i + bit);
    hide Top, Highest, Wf, Clean;
  }

  // The scan is over with nothing left to raise the line for
  lemma ScanDone(f: File, g: File, claim: bool, ret: nat, eip: Array)
    requires Scanned(f, g, claim, WORDS, ret, eip) && g.delivery
    ensures if ret == 0 then eip == g.eip && !AnyFrom(g, 0) && Top(g) == 0
            else claim && ret == Top(g) && ret < 256 && eip == Removed(g, ret).eip && !AnyFrom(Removed(g, ret), 0)
  {
    if ret == 0 { FirstNone(g); }
  }

  // The scan is at its first active word: what it reports, and what a claim leaves behind
  lemma WordStep(f: File, g: File, claim: bool, i: nat, bit: nat, t: nat)
    requires Wf(f) && f.delivery && i < WORDS && g == (if claim then Clean(f) else f) && Active(f, i) != {}
    requires t == 32 * i + bit && bit == Highest(Active(f, i)) && forall j :: 0 <= j < i ==> Active(g, j) == {}
    ensures bit < 32 && t < 256 && t / 32 == i && t % 32 == bit
    ensures !claim ==> t == Top(g) && AnyFrom(g, 0)
    ensures claim && t != 0 ==>
              && t == Top(g) && Active(Removed(g, t), i) == Active(f, i) - {bit}
              && (if i == 0 then f.eip else g.eip)[i := f.eip[i] - {bit}] == Removed(g, t).eip
              && forall j :: 0 <= j < i ==> Active(Removed(g, t), j) == {}
    ensures claim && t == 0 ==>
              i == 0 && Active(f, 0) == {0} && Active(g, 0) == {} && f.eip[0 := f.eip[0] - {0}] == g.eip
    ensures claim && i > 0 ==> f.eip[i] == g.eip[i]
  {
    CleanWf(f);
    assert bit < 32 by { assert bit in f.eip[i] && f.eip[i] <= ALL_LINES; }
    assert t / 32 == i && t % 32 == bit;
    if claim && t == 0 {
      assert Active(f, 0) == {0};
    } else {
      if claim && i == 0 && Active(f, 0) == {0} { assert false; }
      FirstUnique(g, i);
    }
  }

  predicate FirstIs(f: File, i: nat) {
    i < WORDS && Active(f, i) != {} && forall j :: 0 <= j < i ==> Active(f, j) == {}
  }

  lemma FirstUnique(f: File, i: nat)
    requires FirstIs(f, i)
    ensures FirstWord(f, 0) == i && AnyFrom(f, 0)
  {
  }

  lemma FirstNone(f: File)
    requires !AnyFrom(f, 0)
    ensures Top(f) == 0
  {
  }

  lemma RelinedRight(f: File)
    requires Wf(f)
    ensures Wf(Relined(f)) && LineRight(Relined(f)) && ActiveIds(Relined(f)) == ActiveIds(f)
  {
    assert forall j :: 0 <= j < WORDS ==> Active(Relined(f), j) == Active(f, j);
    assert forall id :: IsActive(Relined(f), id) == IsActive(f, id);
  }

  lemma SendLine(f: File, g: File, reg: nat, bit: nat)
    requires Wf(f) && LineRight(f) && f.delivery && reg < WORDS && bit < 32 && 32 * reg + bit > 0
    requires g == File(f.delivery, f.eip[reg := f.eip[reg] + {bit}], f.eie,
                       f.line || (bit in f.eie[reg] && bit !in f.eip[reg]))
    ensures Wf(g) && LineRight(g)
  {
    var on := bit in f.eie[reg];
    assert AnyFrom(f, 0) ==> AnyFrom(g, 0) by {
      if j :| 0 <= j < WORDS && Active(f, j) != {} {
        var b :| b in Active(f, j);
        assert b in Active(g, j);
      }
    }
    if on { assert bit in Active(g, reg); }
    assert AnyFrom(g, 0) ==> AnyFrom(f, 0) || on by {
      if j :| 0 <= j < WORDS && Active(g, j) != {} {
        var b :| b in Active(g, j);
        if j != reg || b != bit { assert b in Active(f, j); }
      }
    }
    if on && bit in f.eip[reg] { assert bit in Active(f, reg); }
  }

  // ------------------------------------------------------------ CSR access to the registers

  // riscv_csr_atomic_helper: the new word, and whether anything was written
  function WordOp(w: Bits, val: Bits, op: Op): (Bits, bool) {
    match op
    case Swap => (val, true)
    case SetBits => if val != {} then (w + val, true) else (w, false)
    case ClearBits => if val != {} then (w - val, true) else (w, false)
  }

  datatype Target = Eidelivery | Eip(reg: nat) | Eie(reg: nat)

  /** Bit by bit, a swap takes the operand, setting adds it and clearing takes it away; only the latter two can write
      nothing, when the operand is zero. */
  lemma WordOpBits(w: Bits, val: Bits, op: Op, i: nat)
    ensures i in WordOp(w, val, op).0 <==> OpBit(i in w, i in val, op)
    ensures WordOp(w, val, op).1 <==> op == Swap || val != {}
  {
  }

  // What a word operation yields stays in range, and is the word itself if nothing was written
  lemma WordOpIs(w: Bits, val: Bits, op: Op)
    ensures w <= ALL_LINES && val <= ALL_LINES ==> WordOp(w, val, op).0 <= ALL_LINES
    ensures !WordOp(w, val, op).1 ==> WordOp(w, val, op).0 == w
  {
  }

  lemma WordOpKeeps(f: File, t: Target, val: Bits, op: Op)
    requires Wf(f) && val <= ALL_LINES && ((t.Eip? || t.Eie?) ==> t.reg < WORDS)
    ensures t.Eip? ==>
              var w := WordOp(f.eip[t.reg], val, op); w.0 <= ALL_LINES && (!w.1 ==> w.0 == f.eip[t.reg])
    ensures t.Eie? ==>
              var w := WordOp(f.eie[t.reg], val, op); w.0 <= ALL_LINES && (!w.1 ==> w.0 == f.eie[t.reg])
    ensures var d: Bits := if f.delivery then {0} else {};
            !WordOp(d, val * {0}, op).1 ==> (0 in WordOp(d, val * {0}, op).0 <==> f.delivery)
  {
    hide WordOp;
    if t.Eip? { WordOpIs(f.eip[t.reg], val, op); }
    if t.Eie? { WordOpIs(f.eie[t.reg], val, op); }
    WordOpIs(if f.delivery then {0} else {}, val * {0}, op);
  }

  // One word written through the indirect access registers, followed by the state update
  method CsrWrite(r: RegFile, t: Target, val: Bits, op: Op)
    requires Wf(r.View()) && LineRight(r.View()) && val <= ALL_LINES
    requires (t.Eip? || t.Eie?) ==> t.reg < WORDS
    modifies r
    ensures Wf(r.View()) && LineRight(r.View())
    ensures r.delivery == if t.Eidelivery? then 0 in WordOp(if old(r.delivery) then {0} else {}, val * {0}, op).0
                          else old(r.delivery)
    ensures r.eip == if t.Eip? then old(r.eip)[t.reg := WordOp(old(r.eip)[t.reg], val, op).0] else old(r.eip)
    ensures r.eie == if t.Eie? then old(r.eie)[t.reg := WordOp(old(r.eie)[t.reg], val, op).0] else old(r.eie)
  {
    hide WordOp, AnyFrom;
    WordOpKeeps(r.View(), t, val, op);
    var wrote;
    match t {
      case Eidelivery =>
        var w := WordOp(if r.delivery then {0} else {}, val * {0}, op);
        r.delivery := 0 in w.0;
        wrote := w.1;
      case Eip(reg) =>
        var w := WordOp(r.eip[reg], val, op);
        r.eip := r.eip[reg := w.0];
        wrote := w.1;
      case Eie(reg) =>
        var w := WordOp(r.eie[reg], val, op);
        r.eie := r.eie[reg := w.0];
        wrote := w.1;
    }
    if wrote {
      RelinedRight(r.View());
      var _ := r.Update(false);
    } else {
      assert r.View() == old(r.View());
    }
  }

  // Word `j` after the access through register `reg`
  function PairWord(was: Bits, j: nat, reg: nat, rv64: bool, low: Bits, high: Bits, op: Op): Bits {
    if j == reg then WordOp(was, low, op).0
    else if rv64 && j == reg + 1 then WordOp(was, high, op).0
    else was
  }

  // The words after the access
  predicate PairWritten(was: Array, now: Array, reg: nat, rv64: bool, low: Bits, high: Bits, op: Op) {
    forall j :: 0 <= j < WORDS ==> now[j] == PairWord(was[j], j, reg, rv64, low, high, op)
  }

  /** Bit by bit: register `reg` takes the low half, on a 64-bit hart the next one the high half, and the other words
      stay. */
  lemma PairWrittenBits(was: Array, now: Array, reg: nat, rv64: bool, low: Bits, high: Bits, op: Op, j: nat, i: nat)
    requires PairWritten(was, now, reg, rv64, low, high, op) && j < 8
    ensures i in now[j] <==>
            if j == reg then OpBit(i in was[j], i in low, op)
            else if rv64 && j == reg + 1 then OpBit(i in was[j], i in high, op)
            else i in was[j]
  {
    hide WordOp;
    WordOpBits(was[j], low, op, i);
    WordOpBits(was[j], high, op, i);
  }

  lemma OneWord(was: Array, reg: nat, low: Bits, high: Bits, op: Op)
    requires reg < WORDS
    ensures PairWritten(was, was[reg := WordOp(was[reg], low, op).0], reg, false, low, high, op)
    ensures reg + 1 == WORDS ==> PairWritten(was, was[reg := WordOp(was[reg], low, op).0], reg, true, low, high, op)
  {
    hide WordOp;
  }

  lemma TwoWords(was: Array, reg: nat, low: Bits, high: Bits, op: Op)
    requires reg + 1 < WORDS
    ensures var one := was[reg := WordOp(was[reg], low, op).0];
            PairWritten(was, one[reg + 1 := WordOp(one[reg + 1], high, op).0], reg, true, low, high, op)
  {
    hide WordOp;
  }

  lemma NoWord(was: Array, rv64: bool, low: Bits, high: Bits, op: Op)
    ensures PairWritten(was, was, WORDS, rv64, low, high, op)
  {
    hide WordOp;
  }

  // riscv_csr_aia_pair_helper: a 64-bit hart reaches two words through an even register
  method CsrWritePair(r: RegFile, rv64: bool, eip: bool, reg: nat, low: Bits, high: Bits, op: Op) returns (ok: bool)
    requires Wf(r.View()) && LineRight(r.View()) && low <= ALL_LINES && high <= ALL_LINES
    modifies r
    ensures Wf(r.View()) && LineRight(r.View()) && r.delivery == old(r.delivery)
    ensures ok <==> reg < WORDS && (rv64 ==> reg % 2 == 0)
    ensures PairWritten(if eip then old(r.eip) else old(r.eie), if eip then r.eip else r.eie,
                        if ok then reg else WORDS, rv64, low, high, op)
    ensures if eip then r.eie == old(r.eie) else r.eip == old(r.eip)
  {
    hide WordOp, Wf, LineRight, PairWritten;
    ghost var was := if eip then r.eip else r.eie;
    NoWord(was, rv64, low, high, op);
    ok := reg < WORDS && !(rv64 && reg % 2 == 1);
    if ok {
      OneWord(was, reg, low, high, op);
      CsrWrite(r, if eip then Eip(reg) else Eie(reg), low, op);
      if rv64 && reg + 1 < WORDS {
        TwoWords(was, reg, low, high, op);
        CsrWrite(r, if eip then Eip(reg + 1) else Eie(reg + 1), high, op);
      }
    }
  }

  // Reading or writing topei: a write claims
  method Topei(r: RegFile, write: bool) returns (id: nat)
    requires Wf(r.View()) && LineRight(r.View())
    modifies r
    ensures Wf(r.View()) && LineRight(r.View())
    ensures id == Top(if write then Clean(old(r.View())) else old(r.View()))
    ensures id != 0 ==> IsActive(old(r.View()), id)
    ensures ActiveIds(r.View()) ==
      if write && r.delivery then ActiveIds(old(r.View())) - (if OnlyZero(old(r.View())) then {0, id} else {id})
      else ActiveIds(old(r.View()))
  {
    hide Wf, LineRight, OnlyZero, Active;
    ghost var f := r.View();
    TopeiMeaning(f);
    id := r.Update(write);
  }

  lemma TopeiMeaning(f: File)
    requires Wf(f)
    ensures Wf(Relined(f)) && LineRight(Relined(f)) && ActiveIds(Relined(f)) == ActiveIds(f)
    ensures Wf(Claimed(f)) && LineRight(Claimed(f))
    ensures Top(f) != 0 ==> IsActive(f, Top(f))
    ensures Top(Clean(f)) != 0 ==> IsActive(f, Top(Clean(f)))
    ensures ActiveIds(Claimed(f)) ==
      if f.delivery then ActiveIds(f) - (if OnlyZero(f) then {0, Top(Clean(f))} else {Top(Clean(f))}) else ActiveIds(f)
  {
    var g := Clean(f);
    CleanWf(f);
    CleanFewer(f);
    TopIsActive(f);
    TopIsActive(g);
    RelinedRight(f);
    RelinedRight(g);
    if Top(g) != 0 {
      ClaimShrinks(f);
      RelinedRight(Removed(g, Top(g)));
      assert Top(g) in ActiveIds(g);
    } else if f.delivery {
      NothingTop(g);
    }
  }
}
