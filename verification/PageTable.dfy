/**
 * Address translation of section 4.4 of the RISC-V Privileged Architecture 1.12 (Sv39, Sv48,
 * Sv57), as a recursive lookup followed by a permission check. Physical memory is the RAM of the
 * machine, seen as 64-bit words; page-table entries are such words.
 */
module PageTable {
  import opened Options
  import opened Powers
  import opened Words

  const TWO56: nat := 0x100_0000_0000_0000

  // Placement of RAM: guest-physical base, size in bytes, and the host address backing it
  datatype Machine = Machine(base: nat, size: nat, host: nat) {
    ghost predicate Valid() {
      base % PAGE == 0 && size % PAGE == 0 && base + size <= TWO64
    }

    predicate InRam(paddr: nat) {
      base <= paddr && paddr - base < size
    }

    // riscv_phys_access
    function HostPtr(paddr: nat): nat
      requires InRam(paddr)
    {
      host + (paddr - base)
    }

    // The host address stands for the byte at the same distance from the start of the buffer
    ghost predicate PointsAt(paddr: nat, ptr: Word) { exists k: nat :: Byte(k, paddr, ptr) }

    // Byte `k` of RAM has this physical and this host address
    predicate Byte(k: nat, paddr: nat, ptr: Word) { k < size && paddr == base + k && ptr == Wrap(host + k) }

    lemma HostPtrPoints(paddr: nat)
      requires InRam(paddr)
      ensures PointsAt(paddr, Wrap(HostPtr(paddr)))
    {
      assert Byte(paddr - base, paddr, Wrap(HostPtr(paddr)));
    }
  }

  // Page-table entry fields: V, R, W, X and U are among the low six bits, A and D are bits 6 and 7, the frame
  // number starts at bit 10
  predicate Valid(p: Word) { p % 64 % 2 == 1 }
  predicate Readable(p: Word) { p % 64 / 2 % 2 == 1 }
  predicate Writable(p: Word) { p % 64 / 4 % 2 == 1 }
  predicate Executable(p: Word) { p % 64 / 8 % 2 == 1 }
  predicate User(p: Word) { p % 64 / 16 % 2 == 1 }
  predicate Accessed(p: Word) { p / 64 % 2 == 1 }
  predicate Dirty(p: Word) { p / 128 % 2 == 1 }
  function Frame(p: Word): nat { p / 1024 % 0x1000_0000_0000 * PAGE }
  predicate IsLeaf(p: Word) { Readable(p) || Executable(p) }

  // Bytes mapped by one entry at the given level, 2^(12 + 9 * level)
  function Span(level: nat): (r: nat)
    requires level < 5
    ensures r >= PAGE
  {
    match level
    case 0 => 0x1000
    case 1 => 0x20_0000
    case 2 => 0x4000_0000
    case 3 => 0x80_0000_0000
    case _ => 0x1_0000_0000_0000
  }

  datatype Access = Read | Write | Exec

  // The access bits handed to the walk; MXR turns a read into read-or-execute
  datatype Mask = Mask(r: bool, w: bool, x: bool)

  const DebugMask := Mask(true, true, true)

  function AccessMask(acc: Access, mxr: bool): Mask {
    match acc
    case Read => Mask(true, false, mxr)
    case Write => Mask(false, true, false)
    case Exec => Mask(false, false, true)
  }

  const U: nat := 0
  const S: nat := 1
  const M: nat := 3

  // riscv_mmu_check_priv: may a page of the other privilege be used?
  predicate CheckPriv(priv: nat, sum: bool, mask: Mask) {
    if mask == DebugMask then true
    else if mask == Mask(false, false, true) then false
    else priv == S && sum
  }

  predicate Grants(p: Word, mask: Mask) {
    (mask.r && Readable(p)) || (mask.w && Writable(p)) || (mask.x && Executable(p))
  }

  predicate Permitted(p: Word, priv: nat, sum: bool, mask: Mask) {
    (User(p) == (priv != U) ==> CheckPriv(priv, sum, mask)) && Grants(p, mask)
  }

  predicate AlignedLeaf(p: Word, level: nat)
    requires level < 5
  {
    Frame(p) % Span(level) == 0
  }

  // Bits 63 and down to the top bit of the virtual address are all equal
  predicate Canonical(va: Word, levels: nat)
    requires 1 <= levels <= 5
  {
    va < Span(levels - 1) * 256 || va >= TWO64 - Span(levels - 1) * 256
  }

  // Index of the RAM word holding the entry for `va` in the table at `table`, if it is in RAM
  function Slot(m: Machine, table: nat, level: nat, va: Word): Option<nat>
    requires level < 5
  {
    var addr := table + va / Span(level) % 512 * 8;
    if m.InRam(addr) then Some((addr - m.base) / 8) else None
  }

  datatype Leaf = Leaf(slot: nat, level: nat)

  // The leaf entry that maps `va`, searching from the table of the given level
  function Lookup(m: Machine, words: seq<Word>, table: nat, level: nat, va: Word): (r: Option<Leaf>)
    requires level < 5 && 8 * |words| == m.size
    ensures r.Some? ==> r.value.slot < |words| && r.value.level <= level
    ensures r.Some? ==> IsLeaf(words[r.value.slot]) && Valid(words[r.value.slot])
    decreases level
  {
    match Slot(m, table, level, va)
    case None => None
    case Some(slot) =>
      var p := words[slot];
      if !Valid(p) then None
      else if IsLeaf(p) then Some(Leaf(slot, level))
      else if Writable(p) || level == 0 then None
      else Lookup(m, words, Frame(p), level - 1, va)
  }

  // Words read on the way to the leaf
  function Path(m: Machine, words: seq<Word>, table: nat, level: nat, va: Word): set<nat>
    requires level < 5 && 8 * |words| == m.size
    decreases level
  {
    match Slot(m, table, level, va)
    case None => {}
    case Some(slot) =>
      var p := words[slot];
      {slot} + if Valid(p) && !IsLeaf(p) && !Writable(p) && level > 0
               then Path(m, words, Frame(p), level - 1, va) else {}
  }

  // What a hart translates with: root table, number of levels (0 is bare mode), privilege, SUM, MXR
  datatype Context = Context(root: nat, levels: nat, priv: nat, sum: bool, mxr: bool) {
    predicate Valid() { levels <= 5 }
    predicate Paged() { priv != M && levels > 0 }
  }

  function LeafOf(m: Machine, words: seq<Word>, c: Context, va: Word): (r: Option<Leaf>)
    requires c.Valid() && c.Paged() && 8 * |words| == m.size
    ensures r.Some? ==> r.value.slot < |words| && r.value.level < 5
  {
    if Canonical(va, c.levels) then Lookup(m, words, c.root, c.levels - 1, va) else None
  }

  // Translation of `va`; None is a page fault
  function TranslateMask(m: Machine, words: seq<Word>, c: Context, va: Word, mask: Mask): Option<nat>
    requires c.Valid() && 8 * |words| == m.size
  {
    if !c.Paged() then Some(va)
    else
      match LeafOf(m, words, c, va)
      case None => None
      case Some(leaf) =>
        var p := words[leaf.slot];
        if Permitted(p, c.priv, c.sum, mask) && AlignedLeaf(p, leaf.level)
        then Some(Frame(p) + va % Span(leaf.level))
        else None
  }

  function Translate(m: Machine, words: seq<Word>, c: Context, va: Word, acc: Access): Option<nat>
    requires c.Valid() && 8 * |words| == m.size
  {
    TranslateMask(m, words, c, va, AccessMask(acc, c.mxr))
  }

  // ------------------------------------------------------------ accessed and dirty bits

  // The entry after a successful walk: bit 6 set, and bit 7 for a write
  function WithAD(p: Word, write: bool): (q: Word)
    ensures Accessed(q) && (Dirty(q) <==> write || Dirty(p)) && Frozen(q) == Frozen(p)
  {
    SetBits(p);
    var a := if Accessed(p) then p else p + 64;
    SetBits(a);
    if write && !Dirty(a) then a + 128 else a
  }

  // Everything in an entry except the A and D bits
  function Frozen(p: Word): (nat, nat) { (p / 256, p % 64) }

  lemma SetBits(p: Word)
    ensures !Accessed(p) ==>
              p + 64 < TWO64 && Accessed(p + 64) && Frozen(p + 64) == Frozen(p) && Dirty(p + 64) == Dirty(p)
    ensures !Dirty(p) ==>
              p + 128 < TWO64 && Dirty(p + 128) && Frozen(p + 128) == Frozen(p) && Accessed(p + 128) == Accessed(p)
  {
    var h, d, a, r := SplitEntry(p);
    Digits(h, 0, 0, r);
    Digits(h, 0, 1, r);
    Digits(h, 1, 0, r);
    Digits(h, 1, 1, r);
  }

  lemma SplitEntry(p: Word) returns (h: nat, d: nat, a: nat, r: nat)
    ensures p == 256 * h + 128 * d + 64 * a + r && d < 2 && a < 2 && r < 64 && h < 0x100_0000_0000_0000
  {
    var q := p / 64;
    var s := q / 2;
    h, d, a, r := s / 2, s % 2, q % 2, p % 64;
  }

  lemma Digits(h: nat, d: nat, a: nat, r: nat)
    requires d < 2 && a < 2 && r < 64
    ensures var p := 256 * h + 128 * d + 64 * a + r; p / 256 == h && p / 128 % 2 == d && p / 64 % 2 == a && p % 64 == r
  {
    var p := 256 * h + 128 * d + 64 * a + r;
    DivModUnique(p, 256, h, 128 * d + 64 * a + r);
    DivModUnique(p, 128, 2 * h + d, 64 * a + r);
    DivModUnique(p, 64, 4 * h + 2 * d + a, r);
    DivModUnique(2 * h + d, 2, h, d);
    DivModUnique(4 * h + 2 * d + a, 2, 2 * h + d, a);
  }

  lemma FrozenFields(p: Word, q: Word)
    requires Frozen(p) == Frozen(q)
    ensures Valid(p) == Valid(q) && Readable(p) == Readable(q) && Writable(p) == Writable(q)
    ensures Executable(p) == Executable(q) && User(p) == User(q) && Frame(p) == Frame(q)
  {
    assert p / 1024 == p / 256 / 4;
    assert q / 1024 == q / 256 / 4;
  }

  // The words on the path of `va` differ in A and D bits at most
  ghost predicate SamePath(m: Machine, words: seq<Word>, words': seq<Word>, table: nat, level: nat, va: Word)
    requires level < 5 && 8 * |words| == m.size
  {
    |words'| == |words| &&
    forall s :: s in Path(m, words, table, level, va) ==> s < |words| && Frozen(words[s]) == Frozen(words'[s])
  }

  /** A lookup does not depend on A and D bits, nor on any word off its path. */
  lemma {:induction false} LookupSame(m: Machine, words: seq<Word>, words': seq<Word>, table: nat, level: nat, va: Word)
    requires level < 5 && 8 * |words| == m.size
    requires SamePath(m, words, words', table, level, va)
    ensures Lookup(m, words, table, level, va) == Lookup(m, words', table, level, va)
    ensures Path(m, words, table, level, va) == Path(m, words', table, level, va)
    decreases level
  {
    match Slot(m, table, level, va)
    case None =>
    case Some(slot) =>
      assert slot in Path(m, words, table, level, va);
      FrozenFields(words[slot], words'[slot]);
      var p := words[slot];
      if Valid(p) && !IsLeaf(p) && !Writable(p) && level > 0 {
        LookupSame(m, words, words', Frame(p), level - 1, va);
      }
  }

  lemma {:induction false} LeafOnPath(m: Machine, words: seq<Word>, table: nat, level: nat, va: Word)
    requires level < 5 && 8 * |words| == m.size
    requires Lookup(m, words, table, level, va).Some?
    ensures Lookup(m, words, table, level, va).value.slot in Path(m, words, table, level, va)
    decreases level
  {
    var slot := Slot(m, table, level, va).value;
    if !IsLeaf(words[slot]) {
      LeafOnPath(m, words, Frame(words[slot]), level - 1, va);
    }
  }

  // ------------------------------------------------------------ pages

  lemma Coarser(va: nat, k: nat)
    requires k > 0
    ensures va / (PAGE * k) == va / PAGE / k
    ensures va % (PAGE * k) == va / PAGE % k * PAGE + va % PAGE
  {
    var n := va / PAGE;
    assert n == n / k * k + n % k;
    assert n / k * (PAGE * k) == n / k * k * PAGE by { MulCommute(PAGE, k); MulAssoc(n / k, k, PAGE); }
    assert n * PAGE == n / k * k * PAGE + n % k * PAGE by { MulCommute(n, PAGE); Distribute(PAGE, n / k * k, n % k); }
    MulMonotone(n % k + 1, k, PAGE);
    DivModUnique(va, PAGE * k, n / k, n % k * PAGE + va % PAGE);
  }

  function PagesPerSpan(level: nat): (k: nat)
    requires level < 5
    ensures k > 0 && Span(level) == PAGE * k
  {
    match level
    case 0 => 1
    case 1 => 0x200
    case 2 => 0x4_0000
    case 3 => 0x800_0000
    case _ => 0x10_0000_0000
  }

  lemma SamePageIndex(va: Word, vb: Word, level: nat)
    requires level < 5 && va / PAGE == vb / PAGE
    ensures va / Span(level) == vb / Span(level)
    ensures va % Span(level) - va % PAGE == vb % Span(level) - vb % PAGE
    ensures va % Span(level) % PAGE == va % PAGE
  {
    hide Span;
    var k := PagesPerSpan(level);
    Coarser(va, k);
    Coarser(vb, k);
    DivModUnique(va % Span(level), PAGE, va / PAGE % k, va % PAGE);
  }

  lemma {:induction false} SamePageLookup(m: Machine, words: seq<Word>, table: nat, level: nat, va: Word, vb: Word)
    requires level < 5 && 8 * |words| == m.size
    requires va / PAGE == vb / PAGE
    ensures Lookup(m, words, table, level, va) == Lookup(m, words, table, level, vb)
    decreases level
  {
    hide Span, Frame, Valid, Readable, Executable, Writable;
    SamePageIndex(va, vb, level);
    match Slot(m, table, level, va)
    case None =>
    case Some(slot) =>
      if level > 0 { SamePageLookup(m, words, Frame(words[slot]), level - 1, va, vb); }
  }

  lemma SamePageCanonical(va: Word, vb: Word, levels: nat)
    requires 1 <= levels <= 5 && va / PAGE == vb / PAGE
    ensures Canonical(va, levels) == Canonical(vb, levels)
  {
    hide Span;
    var j := 256 * PagesPerSpan(levels - 1);
    PageBelow(va, j);
    PageBelow(vb, j);
    if j <= 0x10_0000_0000_0000 {
      PageBelow(va, 0x10_0000_0000_0000 - j);
      PageBelow(vb, 0x10_0000_0000_0000 - j);
    }
  }

  lemma PageBelow(va: nat, j: nat)
    ensures va < PAGE * j <==> va / PAGE < j
  {
  }

  /** All addresses of one 4 KiB page translate alike: to one frame, at the same offset. */
  lemma PageToFrame(m: Machine, words: seq<Word>, c: Context, va: Word, vb: Word, mask: Mask)
    requires c.Valid() && 8 * |words| == m.size
    requires va / PAGE == vb / PAGE
    ensures var ta, tb := TranslateMask(m, words, c, va, mask), TranslateMask(m, words, c, vb, mask);
            && ta.Some? == tb.Some?
            && (ta.Some? ==> ta.value % PAGE == va % PAGE && tb.value - vb % PAGE == ta.value - va % PAGE)
  {
    hide Span, Frame, Lookup, Canonical, Permitted;
    if c.Paged() {
      SamePageCanonical(va, vb, c.levels);
      SamePageLookup(m, words, c.root, c.levels - 1, va, vb);
      var r := LeafOf(m, words, c, va);
      if r.Some? {
        SamePageIndex(va, vb, r.value.level);
        FrameOffset(words[r.value.slot], va % Span(r.value.level));
      }
    }
  }

  lemma FrameOffset(p: Word, x: nat)
    ensures (Frame(p) + x) % PAGE == x % PAGE
  {
    var k := p / 1024 % 0x1000_0000_0000;
    assert Frame(p) == k * 4096;
  }

  /** Permissions decide whether a translation exists, never where it points. */
  lemma FrameIndependentOfAccess(m: Machine, words: seq<Word>, c: Context, va: Word, a: Mask, b: Mask)
    requires c.Valid() && 8 * |words| == m.size
    requires TranslateMask(m, words, c, va, a).Some? && TranslateMask(m, words, c, va, b).Some?
    ensures TranslateMask(m, words, c, va, a) == TranslateMask(m, words, c, va, b)
  {
  }
}
