/**
 * One hart's MMU as the emulator runs it: RAM words and TLB entries are arrays updated in place.
 * Between this hart's accesses to page tables the other harts may set A and D bits, on any schedule.
 * Each method is proved against the specification functions of PageTable and Tlb.
 */
module Mmu {
  import opened Options
  import opened PageTable
  import opened Tlb
  import opened TlbRun
  import opened Words
  import Powers

  // sign_extend(va, 12 + 9 * levels) on 64 bits
  function SignExtend(va: Word, levels: nat): Word
    requires 1 <= levels <= 5
  {
    var half := Span(levels - 1) * 256;
    var t := va % (2 * half);
    if t < half then t else t + TWO64 - 2 * half
  }

  lemma SignExtendCanonical(va: Word, levels: nat)
    requires 1 <= levels <= 5
    ensures va == SignExtend(va, levels) <==> Canonical(va, levels)
  {
    hide Span;
    var n := HalfDivides(levels);
    SignExtendHalf(va, Span(levels - 1) * 256, n);
  }

  lemma HalfDivides(levels: nat) returns (n: nat)
    requires 1 <= levels <= 5
    ensures n > 0 && 2 * (Span(levels - 1) * 256) * n == TWO64
  {
    match levels
    case 1 => n := 0x800_0000_0000;
    case 2 => n := 0x4_0000_0000;
    case 3 => n := 0x200_0000;
    case 4 => n := 0x1_0000;
    case _ => n := 0x80;
  }

  lemma SignExtendHalf(va: Word, half: nat, n: nat)
    requires half > 0 && n > 0 && 2 * half * n == TWO64
    ensures var t := va % (2 * half);
            (va == if t < half then t else t + TWO64 - 2 * half) <==> va < half || va >= TWO64 - half
  {
    var q, t := va / (2 * half), va % (2 * half);
    assert va == q * (2 * half) + t;
    if va >= TWO64 - half {
      assert (n - 1) * (2 * half) + (va - (n - 1) * (2 * half)) == va;
      assert (n - 1) * (2 * half) == TWO64 - 2 * half;
      Powers.DivModUnique(va, 2 * half, n - 1, va - (TWO64 - 2 * half));
    } else if va < half {
      Powers.DivModUnique(va, 2 * half, 0, va);
    }
  }

  // A leaf entry shifted left by two on 64 bits: the frame number in place, flags below bit 12
  function Shifted(p: Word): Word { p * 4 % TWO64 }

  lemma ShiftedFrame(p: Word)
    ensures Shifted(p) % TWO56 == Frame(p) + 4 * (p % 1024)
  {
    hide Frame, Shifted;
    var n := p / 1024;
    var k, f, low := n / 0x1000_0000_0000, n % 0x1000_0000_0000, 4 * (p % 1024);
    ShiftMod(p);
    FrameIs(p);
    assert p * 4 == k * TWO56 + (f * PAGE + low);
    assert f * PAGE + low < TWO56;
    Powers.DivModUnique(p * 4, TWO56, k, f * PAGE + low);
  }

  lemma ShiftMod(p: Word)
    ensures Shifted(p) % TWO56 == p * 4 % TWO56
  {
    Powers.ModMod(p * 4, TWO56, 256);
  }

  lemma FrameIs(p: Word)
    ensures Frame(p) == p / 1024 % 0x1000_0000_0000 * PAGE
  {
  }

  /** The masks of the walk: the alignment test and the frame extraction. */
  lemma LeafAddress(p: Word, level: nat)
    requires level < 5
    ensures Shifted(p) % Span(level) / PAGE == 0 <==> AlignedLeaf(p, level)
    ensures AlignedLeaf(p, level) ==> Shifted(p) % TWO56 / Span(level) * Span(level) == Frame(p)
  {
    hide Span, Shifted;
    var k := PagesPerSpan(level);
    var low, f := 4 * (p % 1024), p / 1024 % 0x1000_0000_0000;
    ShiftedFrame(p);
    SpanDivides(Shifted(p), level);
    BlockSplit(f, low, k);
  }

  // A page number and an offset, taken apart in blocks of k pages
  lemma BlockSplit(f: nat, low: nat, k: nat)
    requires low < PAGE && k > 0
    ensures var x, b := f * PAGE + low, PAGE * k;
            && x % b / PAGE == f % k && f * PAGE % b == f % k * PAGE
            && (f % k == 0 ==> x / b * b == f * PAGE)
  {
    var x, b := f * PAGE + low, PAGE * k;
    Powers.DivModUnique(x, PAGE, f, low);
    Powers.DivModUnique(f * PAGE, PAGE, f, 0);
    Coarser(x, k);
    Coarser(f * PAGE, k);
    Powers.DivModUnique(x % b, PAGE, f % k, low);
    assert x == x / b * b + x % b;
  }

  lemma SpanDivides(x: Word, level: nat)
    requires level < 5
    ensures x % TWO56 % Span(level) == x % Span(level)
  {
    match level
    case 0 => Powers.ModMod(x, 0x1000, 0x1000_0000_0000);
    case 1 => Powers.ModMod(x, 0x20_0000, 0x8_0000_0000);
    case 2 => Powers.ModMod(x, 0x4000_0000, 0x400_0000);
    case 3 => Powers.ModMod(x, 0x80_0000_0000, 0x2_0000);
    case _ => Powers.ModMod(x, 0x1_0000_0000_0000, 0x100);
  }

  // ------------------------------------------------------------ one page-table entry

  // What one entry makes of the walk: a fault, a translation, the next table, or nothing
  datatype Outcome = Fault | Done(paddr: nat) | Down(table: nat) | Stay

  function EntryOutcome(p: Word, level: nat, va: Word, c: Context, mask: Mask): Outcome
    requires level < 5
  {
    if !PageTable.Valid(p) then Stay
    else if IsLeaf(p) then
      if User(p) == (c.priv != U) && !CheckPriv(c.priv, c.sum, mask) then Fault
      else if !Grants(p, mask) then Stay
      else if !AlignedLeaf(p, level) then Fault
      else Done(Frame(p) + va % Span(level))
    else if Writable(p) then Stay
    else Down(Frame(p))
  }

  // Every word is as it was, except that A and D bits may have been set
  ghost predicate OnlySet(words: seq<Word>, words': seq<Word>) {
    |words'| == |words| && forall s :: 0 <= s < |words| ==> Kept(words, words', s)
  }

  lemma OnlySetTwice(a: seq<Word>, b: seq<Word>, c: seq<Word>)
    requires OnlySet(a, b) && OnlySet(b, c)
    ensures OnlySet(a, c)
  {
    hide Frozen, Accessed, Dirty;
    forall s | 0 <= s < |a| ensures Kept(a, c, s) { assert Kept(a, b, s) && Kept(b, c, s); }
  }

  lemma OnlySetOne(words: seq<Word>, slot: nat, write: bool)
    requires slot < |words|
    ensures OnlySet(words, words[slot := WithAD(words[slot], write)]) && OnlySet(words, words)
  {
    hide WithAD, Frozen, Accessed, Dirty;
  }

  lemma OnlySetIsCalm(m: Machine, words: seq<Word>, words': seq<Word>, c: Context)
    requires c.Valid() && 8 * |words| == m.size && OnlySet(words, words')
    ensures Calm(m, words, words', c)
  {
    hide Path, Frozen, Accessed, Dirty;
    forall va: Word, s: nat | s in RootPath(m, words, c, va) ensures Kept(words, words', s) {
      PathInRange(m, words, c.root, c.levels - 1, va, s);
    }
  }

  // A and D decide nothing about the walk
  lemma SameOutcome(p: Word, q: Word, level: nat, va: Word, c: Context, mask: Mask)
    requires level < 5 && Frozen(p) == Frozen(q)
    ensures EntryOutcome(p, level, va, c, mask) == EntryOutcome(q, level, va, c, mask)
  {
    FrozenFields(p, q);
    hide Frozen, Frame, Span, PageTable.Valid, Readable, Writable, Executable, User;
  }

  // A and D bits that are not set yet
  function Unset(p: Word): nat { (if Accessed(p) then 0 else 1) + (if Dirty(p) then 0 else 1) }

  // A word that differs in A and D alone, with none cleared, has fewer of them left to set
  lemma FewerUnset(words: seq<Word>, words': seq<Word>, s: nat)
    requires Kept(words, words', s)
    ensures Unset(words'[s]) <= Unset(words[s])
    ensures words'[s] != words[s] ==> Unset(words'[s]) < Unset(words[s])
  {
    hide Frozen;
    SameWord(words[s], words'[s]);
  }

  lemma SameWord(p: Word, q: Word)
    ensures Frozen(p) == Frozen(q) && Accessed(p) == Accessed(q) && Dirty(p) == Dirty(q) ==> p == q
  {
    var h, d, a, r := SplitEntry(p);
    var h', d', a', r' := SplitEntry(q);
    Digits(h, d, a, r);
    Digits(h', d', a', r');
  }

  // An A/D update by another hart
  datatype Touch = Touch(slot: nat, write: bool)

  class Hart {
    const machine: Machine
    const ram: array<Word>     // physical memory, as 64-bit words
    const tlb: array<Entry>
    var ctx: Context           // root table, levels, privilege, SUM, MXR
    var mprv: bool             // MPRV and MPP of status
    var mpp: nat
    var running: bool          // cleared to leave the dispatch loop
    var others: seq<seq<Touch>>  // what other harts will do to page tables, between this hart's accesses

    ghost predicate Valid()
      reads this
    {
      && machine.Valid() && 8 * ram.Length == machine.size && tlb.Length == TLB_SIZE && ctx.Valid()
    }

    // riscv_hart_init, as far as the MMU is concerned
    constructor (m: Machine, c: Context, world: seq<seq<Touch>>)
      requires m.Valid() && c.Valid()
      ensures Valid() && fresh(ram) && fresh(tlb)
      ensures machine == m && ctx == c && others == world && tlb[..] == Flushed() && !mprv
    {
      machine := m;
      ram := new Word[m.size / 8];
      tlb := new Entry[256](_ => Entry(0, 0, 0, 0));
      ctx := c;
      running, mprv, mpp := false, false, 0;
      others := world;
      new;
      TlbFlush();
    }

    method TlbFlush()
      requires Valid()
      modifies tlb, `running
      ensures tlb[..] == Flushed() && !running
    {
      for i := 0 to tlb.Length
        invariant forall j :: 0 <= j < i ==> tlb[j] == Entry(0, 0, 0, 0)
      {
        tlb[i] := Entry(0, 0, 0, 0);
      }
      tlb[0] := Entry(TWO64 - 1, TWO64 - 1, TWO64 - 1, tlb[0].ptr);
      running := false;
    }

    method TlbFlushPage(va: Word)
      requires Valid()
      modifies tlb, `running
      ensures tlb[..] == PageFlushed(old(tlb[..]), va)
      ensures running == (old(running) && !Hit(old(tlb[..]), va, Exec))
    {
      var vpn := Vpn(va);
      var i := vpn % TLB_SIZE;
      var off := Wrap(vpn - 1);
      if tlb[i].r == vpn { tlb[i] := tlb[i].(r := off); }
      if tlb[i].w == vpn { tlb[i] := tlb[i].(w := off); }
      if tlb[i].e == vpn {
        tlb[i] := tlb[i].(e := off);
        running := false;
      }
      assert tlb[..] == PageFlushed(old(tlb[..]), va);
    }

    method TlbPut(va: Word, ptr: nat, acc: Access)
      requires Valid()
      modifies tlb
      ensures tlb[..] == Put(old(tlb[..]), va, ptr, acc)
    {
      var vpn := Vpn(va);
      var i := vpn % TLB_SIZE;
      var off := Wrap(vpn - 1);
      match acc {
        case Read =>
          tlb[i] := tlb[i].(r := vpn);
          if tlb[i].w != vpn { tlb[i] := tlb[i].(w := off); }
          if tlb[i].e != vpn { tlb[i] := tlb[i].(e := off); }
        case Write =>
          tlb[i] := tlb[i].(r := vpn);
          tlb[i] := tlb[i].(w := vpn);
          if tlb[i].e != vpn { tlb[i] := tlb[i].(e := off); }
        case Exec =>
          if tlb[i].r != vpn { tlb[i] := tlb[i].(r := off); }
          tlb[i] := tlb[i].(w := off);
          tlb[i] := tlb[i].(e := vpn);
      }
      tlb[i] := tlb[i].(ptr := Wrap(ptr - va));
      assert tlb[..] == Put(old(tlb[..]), va, ptr, acc);
    }

    // The other harts take their next turn
    method OtherHarts()
      modifies ram, `others
      ensures OnlySet(old(ram[..]), ram[..])
      ensures old(others) == [] ==> others == [] && ram[..] == old(ram[..])
    {
      if others == [] { return; }
      var turn := others[0];
      others := others[1..];
      for i := 0 to |turn|
        invariant OnlySet(old(ram[..]), ram[..])
      {
        if turn[i].slot < ram.Length {
          ghost var words := ram[..];
          OnlySetOne(words, turn[i].slot, turn[i].write);
          ram[turn[i].slot] := WithAD(ram[turn[i].slot], turn[i].write);
          assert ram[..] == words[turn[i].slot := WithAD(words[turn[i].slot], turn[i].write)];
          OnlySetTwice(old(ram[..]), words, ram[..]);
        }
      }
    }

    // The end of the leaf branch: the A/D update by compare-and-swap. None means that another hart was faster.
    method UseLeaf(slot: nat, p: Word, level: nat, va: Word, write: bool) returns (r: Option<nat>)
      requires slot < ram.Length && level < 5 && AlignedLeaf(p, level)
      modifies ram
      ensures var q := WithAD(p, write);
              && r == (if p != q && old(ram[slot]) != p then None else Some(Frame(p) + va % Span(level)))
              && ram[..] == if p != q && old(ram[slot]) == p then old(ram[..])[slot := q] else old(ram[..])
    {
      hide Frame, Span, Shifted, WithAD, AlignedLeaf;
      LeafAddress(p, level);
      var q := WithAD(p, write);
      if p != q {
        if ram[slot] != p { return None; }
        ram[slot] := q;
      }
      return Some(Shifted(p) % TWO56 / Span(level) * Span(level) + va % Span(level));
    }

    // The inner loop of the walk: read an entry, and start over when the compare-and-swap fails. It fails only when
    // another hart has set A or D, so there is an end to it.
    method UseEntry(c: Context, slot: nat, level: nat, va: Word, mask: Mask) returns (o: Outcome)
      requires slot < ram.Length && level < 5
      modifies ram, `others
      ensures o == EntryOutcome(old(ram[slot]), level, va, c, mask)
      ensures OnlySet(old(ram[..]), ram[..])
      ensures o.Done? ==> Accessed(ram[slot]) && (mask.w ==> Dirty(ram[slot]))
      ensures old(others) == [] ==>
                && others == []
                && ram[..] == if o.Done? then old(ram[..])[slot := WithAD(old(ram[slot]), mask.w)] else old(ram[..])
    {
      hide Frame, Span, Shifted, WithAD, AlignedLeaf, PageTable.Valid, Readable, Writable, Executable, User,
           Accessed, Dirty,
           Frozen, CheckPriv, OnlySet;
      ghost var words := ram[..];
      OnlySetSame(words);
      while true
        invariant OnlySet(words, ram[..])
        invariant old(others) == [] ==> others == [] && ram[..] == words
        decreases Unset(ram[slot])
      {
        ghost var first := ram[..];
        OtherHarts();
        OnlySetTwice(words, first, ram[..]);
        var p := ram[slot];
        ghost var seen := ram[..];
        SetAt(first, seen, slot);
        SetAt(words, seen, slot);
        SameOutcome(words[slot], p, level, va, c, mask);
        if !PageTable.Valid(p) { return Stay; }
        if !IsLeaf(p) { return if Writable(p) then Stay else Down(Frame(p)); }
        if User(p) == (c.priv != U) && !CheckPriv(c.priv, c.sum, mask) { return Fault; }
        if !Grants(p, mask) { return Stay; }
        LeafAddress(p, level);
        if Shifted(p) % Span(level) / PAGE != 0 { return Fault; }
        OtherHarts();
        ghost var now := ram[..];
        SetAt(seen, now, slot);
        OnlySetTwice(words, seen, now);
        var r := UseLeaf(slot, p, level, va, mask.w);
        LeafUsed(words, seen, now, ram[..], slot, p, mask.w, r.Some?);
        if r.Some? { return Done(r.value); }
      }
    }

    // riscv_mmu_translate_rv64. An entry that ends the walk without a translation is read again until the levels are
    // used up.
    method TranslateRv64(c: Context, va: Word, mask: Mask) returns (r: Option<nat>)
      requires Valid() && c.Valid() && c.Paged()
      modifies ram, `others
      ensures r == TranslateMask(machine, old(ram[..]), c, va, mask)
      ensures OnlySet(old(ram[..]), ram[..])
      ensures r.Some? ==>
                var slot := LeafOf(machine, old(ram[..]), c, va).value.slot;
                Accessed(ram[slot]) && (mask.w ==> Dirty(ram[slot]))
      ensures old(others) == [] ==> others == [] && ram[..] == Walked(machine, old(ram[..]), c, va, mask)
    {
      hide Frame, Span, WithAD, PageTable.Valid, Readable, Writable, Executable, User, Accessed, Dirty, Frozen,
           CheckPriv,
           OnlySet, Canonical, SignExtend, Slot, Grants;
      ghost var words := ram[..];
      OnlySetSame(words);
      var table := c.root;
      var level := c.levels - 1;
      SignExtendCanonical(va, c.levels);
      if va != SignExtend(va, c.levels) { return None; }
      for i := 0 to c.levels
        invariant OnlySet(words, ram[..]) && (old(others) == [] ==> others == [] && ram[..] == words)
        invariant -1 <= level < c.levels && level >= c.levels - 1 - i
        invariant level >= 0 ==>
                    Lookup(machine, words, c.root, c.levels - 1, va) == Lookup(machine, words, table, level, va)
        invariant level > c.levels - 1 - i ==> TranslateMask(machine, words, c, va, mask).None?
        invariant level == -1 ==> TranslateMask(machine, words, c, va, mask).None?
      {
        var slot := Slot(machine, table, level, va);
        if slot.None? { return None; }
        SlotInRam(machine, words, table, level, va);
        ghost var before := ram[..];
        SetAt(words, before, slot.value);
        SameOutcome(words[slot.value], before[slot.value], level, va, c, mask);
        var o := UseEntry(c, slot.value, level, va, mask);
        OnlySetTwice(words, before, ram[..]);
        match o {
          case Fault => return None;
          case Done(paddr) => return Some(paddr);
          case Down(next) =>
            table := next;
            level := level - 1;
          case Stay =>
        }
      }
      return None;
    }

    // The context an access translates in: MPRV lends loads and stores the privilege in MPP
    function Effective(acc: Access): Context
      reads this
    {
      if mprv && acc != Exec then ctx.(priv := mpp) else ctx
    }

    // riscv_mmu_translate
    method TranslateAny(va: Word, acc: Access) returns (r: Option<nat>)
      requires Valid()
      modifies ram, `others
      ensures r == if mprv && acc != Exec then Translate(machine, old(ram[..]), ctx.(priv := mpp), va, acc)
                   else Translate(machine, old(ram[..]), ctx, va, acc)
      ensures OnlySet(old(ram[..]), ram[..])
      ensures r.Some? && Effective(acc).Paged() ==>
                var slot := LeafOf(machine, old(ram[..]), Effective(acc), va).value.slot;
                Accessed(ram[slot]) && (acc == Write ==> Dirty(ram[slot]))
      ensures old(others) == [] ==>
                others == [] && ram[..] == Walked(machine, old(ram[..]), Effective(acc), va, AccessMask(acc, ctx.mxr))
    {
      hide TranslateMask, LeafOf, OnlySet, Accessed, Dirty;
      OnlySetSame(ram[..]);
      var priv := ctx.priv;
      if mprv && acc != Exec { priv := mpp; }
      var mask := AccessMask(acc, false);
      if ctx.mxr && acc == Read { mask := mask.(x := true); }
      if priv != M && ctx.levels > 0 {
        r := TranslateRv64(ctx.(priv := priv), va, mask);
      } else {
        r := Some(va);
        BareTranslate(machine, ram[..], Effective(acc), va, mask);
      }
    }

    // riscv_mmu_op_internal for an access within a page: walk, then cache the translation
    method SlowPtr(va: Word, acc: Access) returns (ans: Answer)
      requires Valid() && !mprv && TlbAgrees(machine, ram[..], ctx, tlb[..])
      modifies ram, tlb, `others
      ensures ans == Fresh(machine, old(ram[..]), ctx, va, acc)
      ensures AnswersAt(machine, Translate(machine, old(ram[..]), ctx, va, acc), ans)
      ensures OnlySet(old(ram[..]), ram[..]) && TlbAgrees(machine, ram[..], ctx, tlb[..])
      ensures ans.Ram? ==> Hit(tlb[..], va, acc)
      ensures old(others) == [] ==>
                others == [] && ram[..] == Walked(machine, old(ram[..]), ctx, va, AccessMask(acc, ctx.mxr))
    {
      hide OnlySet, TlbAgrees, Calm, Lookup, Canonical, Permitted, AlignedLeaf, Frame, Span, Accessed, Dirty, Put,
           AnswersAt;
      FreshAnswersAt(machine, ram[..], ctx, va, acc);
      ghost var words, t := ram[..], tlb[..];
      var paddr := TranslateAny(va, acc);
      OnlySetIsCalm(machine, words, ram[..], ctx);
      CalmKeepsTlb(machine, words, ram[..], ctx, t);
      if paddr.None? { return PageFault; }
      if !machine.InRam(paddr.value) { return Device(paddr.value); }
      UsedFound(machine, words, ram[..], ctx, va, acc);
      FillOk(machine, ram[..], ctx, t, Found(va, acc, paddr.value));
      PutHits(t, va, machine.HostPtr(paddr.value), acc, va, acc);
      TlbPut(va, machine.HostPtr(paddr.value), acc);
      return Ram(Wrap(machine.HostPtr(paddr.value)));
    }

    // riscv_ro_translate, riscv_rmw_translate and the fetch path: the tag decides between the
    // cached pointer and the walk, and the caller cannot tell which was taken, unless a write has
    // been made to a page whose entry lets no reads through
    method FastPtr(va: Word, acc: Access) returns (ans: Answer)
      requires Valid() && !mprv && TlbAgrees(machine, ram[..], ctx, tlb[..])
      modifies ram, tlb, `others
      ensures var served := acc == Read && Hit(old(tlb[..]), va, Read) && !EntryReads(machine, old(ram[..]), ctx, va);
              var used := if served then Write else acc;
              && ans == Fresh(machine, old(ram[..]), ctx, va, used)
              && AnswersAt(machine, Translate(machine, old(ram[..]), ctx, va, used), ans)
      ensures OnlySet(old(ram[..]), ram[..]) && TlbAgrees(machine, ram[..], ctx, tlb[..])
      ensures ans.Ram? ==> Hit(tlb[..], va, acc)
      ensures old(others) == [] ==>
                others == [] && ram[..] == Walked(machine, old(ram[..]), ctx, va, AccessMask(acc, ctx.mxr))
    {
      hide OnlySet, Walked, TranslateMask, EntryReads, Fresh, HitAgrees, AnswersAt;
      FreshAnswersAt(machine, ram[..], ctx, va, acc);
      FreshAnswersAt(machine, ram[..], ctx, va, Write);
      var vpn := Vpn(va);
      var entry := tlb[vpn % TLB_SIZE];
      if entry.Tag(acc) == vpn {
        OnlySetSame(ram[..]);
        HitIsWalked(machine, ram[..], ctx, tlb[..], va, acc);
        return Ram(Wrap(entry.ptr + va));
      }
      ans := SlowPtr(va, acc);
    }

    // riscv_switch_priv
    method SwitchPriv(priv: nat)
      requires Valid()
      modifies this, tlb
      ensures Valid() && ctx == old(ctx).(priv := priv) && others == old(others) && mprv == old(mprv) && mpp == old(mpp)
      ensures tlb[..] == if old(ctx).priv == priv then old(tlb[..]) else Flushed()
      ensures running == (old(running) && old(ctx).priv == priv)
    {
      if ctx.priv != priv {
        ctx := ctx.(priv := priv);
        TlbFlush();
      }
    }
  }

  lemma OnlySetSame(words: seq<Word>)
    ensures OnlySet(words, words)
  {
  }

  lemma SetAt(words: seq<Word>, words': seq<Word>, s: nat)
    requires OnlySet(words, words') && s < |words|
    ensures s < |words'| && Kept(words, words', s) && Frozen(words[s]) == Frozen(words'[s])
    ensures Unset(words'[s]) <= Unset(words[s]) && (words'[s] != words[s] ==> Unset(words'[s]) < Unset(words[s]))
  {
    hide Frozen, Unset, Accessed, Dirty;
    assert Kept(words, words', s);
    FewerUnset(words, words', s);
  }

  // After the end of the leaf branch, taken or to be repeated
  lemma LeafUsed(words: seq<Word>, seen: seq<Word>, now: seq<Word>, after: seq<Word>, slot: nat, p: Word,
                 write: bool, used: bool)
    requires OnlySet(words, now) && slot < |words| && |seen| == |now| && seen[slot] == p && Kept(seen, now, slot)
    requires used == (p == WithAD(p, write) || now[slot] == p)
    requires after == if p != WithAD(p, write) && now[slot] == p then now[slot := WithAD(p, write)] else now
    ensures OnlySet(words, after)
    ensures used ==> Accessed(after[slot]) && (write ==> Dirty(after[slot]))
    ensures !used ==> after == now && now[slot] != p
    ensures used && now[slot] == p ==> after == now[slot := WithAD(p, write)]
  {
    hide WithAD, Frozen, OnlySet;
    OnlySetOne(now, slot, write);
    if now[slot] == p { OnlySetTwice(words, now, now[slot := WithAD(p, write)]); }
  }

  lemma SlotInRam(m: Machine, words: seq<Word>, table: nat, level: nat, va: Word)
    requires level < 5 && 8 * |words| == m.size && Slot(m, table, level, va).Some?
    ensures Slot(m, table, level, va).value < |words|
  {
  }

  lemma BareTranslate(m: Machine, words: seq<Word>, c: Context, va: Word, mask: Mask)
    requires c.Valid() && 8 * |words| == m.size && !c.Paged()
    ensures TranslateMask(m, words, c, va, mask) == Some(va) && Walked(m, words, c, va, mask) == words
  {
  }

  // What an access finds at its address: RAM behind a host pointer, a device, or a page fault
  datatype Answer = Ram(ptr: Word) | Device(paddr: nat) | PageFault

  // What a walk without any TLB answers
  function Fresh(m: Machine, words: seq<Word>, c: Context, va: Word, acc: Access): Answer
    requires c.Valid() && 8 * |words| == m.size
  {
    var t := Translate(m, words, c, va, acc);
    if t.None? then PageFault else if m.InRam(t.value) then Ram(Wrap(m.HostPtr(t.value))) else Device(t.value)
  }

  // The answer to an access that translates so: a pointer to that byte of the RAM buffer, or a device where RAM is not
  ghost predicate AnswersAt(m: Machine, t: Option<nat>, ans: Answer) {
    match ans
    case Ram(ptr) => t.Some? && m.PointsAt(t.value, ptr)
    case Device(paddr) => t == Some(paddr) && (paddr < m.base || paddr >= m.base + m.size)
    case PageFault => t.None?
  }

  lemma FreshAnswersAt(m: Machine, words: seq<Word>, c: Context, va: Word, acc: Access)
    requires c.Valid() && 8 * |words| == m.size
    ensures AnswersAt(m, Translate(m, words, c, va, acc), Fresh(m, words, c, va, acc))
  {
    hide Translate;
    var t := Translate(m, words, c, va, acc);
    if t.Some? && m.InRam(t.value) { m.HostPtrPoints(t.value); }
  }

  // A completed walk, seen from the memory it leaves
  lemma UsedFound(m: Machine, words: seq<Word>, words': seq<Word>, c: Context, va: Word, acc: Access)
    requires c.Valid() && 8 * |words| == m.size && Calm(m, words, words', c) && Translate(m, words, c, va, acc).Some?
    requires c.Paged() ==>
               var slot := LeafOf(m, words, c, va).value.slot;
               Accessed(words'[slot]) && (acc == Write ==> Dirty(words'[slot]))
    ensures WalkOk(m, words', c, Found(va, acc, Translate(m, words, c, va, acc).value))
  {
    hide Path, Lookup, Frozen, Frame, Span, Canonical, Calm, Accessed, Dirty, Permitted, AlignedLeaf;
    CalmTranslate(m, words, words', c, va, AccessMask(acc, c.mxr));
    if c.Paged() {
      CalmLookup(m, words, words', c, va, c.root, c.levels - 1);
    }
  }

  lemma HitIsWalked(m: Machine, words: seq<Word>, c: Context, t: Table, va: Word, acc: Access)
    requires c.Valid() && 8 * |words| == m.size && TlbAgrees(m, words, c, t) && Hit(t, va, acc)
    ensures var served := acc == Read && !EntryReads(m, words, c, va);
            Fresh(m, words, c, va, if served then Write else acc) == Ram(HitPtr(t, va))
    ensures Walked(m, words, c, va, AccessMask(acc, c.mxr)) == words
  {
    hide Path, Lookup, Frozen, Frame, Span, Canonical, EntryReads, Permitted, AlignedLeaf;
    assert HitAgrees(m, words, c, t, va, acc);
    HitMeaning(m, words, c, t, va, acc);
  }

  // Memory after a walk: the A and D bits of a leaf that was used are set
  function Walked(m: Machine, words: seq<Word>, c: Context, va: Word, mask: Mask): seq<Word>
    requires c.Valid() && 8 * |words| == m.size
  {
    if c.Paged() && TranslateMask(m, words, c, va, mask).Some? then
      var slot := LeafOf(m, words, c, va).value.slot;
      words[slot := WithAD(words[slot], mask.w)]
    else words
  }
}
