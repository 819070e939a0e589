/**
 * What a translation is, said on the address's page-table indices, the bits of the entries and the
 * permissions of section 4.4 of the RISC-V Privileged Architecture 1.12, and that the walk is that.
 */
module PageWalk {
  import opened Options
  import opened PageTable
  import opened Powers
  import opened Words
  import Tlb
  import TlbRun

  // ------------------------------------------------------------ entries

  // The fields of an entry, from bit 0 up: V R W X U G A D, two bits for software, 44 of frame number, 10 reserved
  datatype Pte = Pte(v: bool, r: bool, w: bool, x: bool, u: bool, g: bool, a: bool, d: bool,
                     rsw: nat, ppn: nat, high: nat)
  {
    predicate Fits() { rsw < 4 && ppn < 0x1000_0000_0000 && high < 1024 }

    function Flags(): nat { Bit(v) + 2 * Bit(r) + 4 * Bit(w) + 8 * Bit(x) + 16 * Bit(u) + 32 * Bit(g) }

    function Encoded(): nat {
      Flags() + 64 * Bit(a) + 128 * Bit(d) + 256 * rsw + 1024 * ppn + 0x40_0000_0000_0000 * high
    }
  }

  function Bit(b: bool): (r: nat)
    ensures r < 2
  {
    if b then 1 else 0
  }

  /** The fields that the walk reads are the ones the format puts there. */
  lemma EncodedFields(e: Pte)
    requires e.Fits()
    ensures var p := e.Encoded();
            && p < TWO64 && Valid(p) == e.v && Readable(p) == e.r && Writable(p) == e.w && Executable(p) == e.x
            && User(p) == e.u && Accessed(p) == e.a && Dirty(p) == e.d && Frame(p) == e.ppn * 0x1000
  {
    hide Frame, Valid, Readable, Writable, Executable, User;
    FlagBits(e);
    FieldsOf(e.Encoded(), e.Flags(), Bit(e.a), Bit(e.d), e.rsw, e.ppn, e.high);
  }

  lemma FieldsOf(p: nat, flags: nat, a: nat, d: nat, rsw: nat, ppn: nat, high: nat)
    requires flags < 64 && a < 2 && d < 2 && rsw < 4 && ppn < 0x1000_0000_0000 && high < 1024
    requires p == flags + 64 * a + 128 * d + 256 * rsw + 1024 * ppn + 0x40_0000_0000_0000 * high
    ensures p < TWO64 && Accessed(p) == (a == 1) && Dirty(p) == (d == 1) && Frame(p) == ppn * 0x1000
    ensures Valid(p) == (flags % 2 == 1) && Readable(p) == (flags / 2 % 2 == 1) && Writable(p) == (flags / 4 % 2 == 1)
    ensures Executable(p) == (flags / 8 % 2 == 1) && User(p) == (flags / 16 % 2 == 1)
  {
    var n := ppn + 0x1000_0000_0000 * high;
    PageTable.Digits(rsw + 4 * n, d, a, flags);
    DivModUnique(p, 1024, n, 256 * rsw + 128 * d + 64 * a + flags);
    DivModUnique(n, 0x1000_0000_0000, high, ppn);
  }

  lemma FlagBits(e: Pte)
    ensures var f := e.Flags();
            && f < 64 && f % 2 == Bit(e.v) && f / 2 % 2 == Bit(e.r) && f / 4 % 2 == Bit(e.w)
            && f / 8 % 2 == Bit(e.x) && f / 16 % 2 == Bit(e.u)
  {
    hide Pte.Flags, Bit;
    FlagV(e);
    FlagR(e);
    FlagW(e);
    FlagX(e);
    FlagU(e);
  }

  lemma FlagV(e: Pte)
    ensures e.Flags() < 64 && e.Flags() % 2 == Bit(e.v)
  {
    hide Bit;
    DivModUnique(e.Flags(), 2, Bit(e.r) + 2 * Bit(e.w) + 4 * Bit(e.x) + 8 * Bit(e.u) + 16 * Bit(e.g), Bit(e.v));
  }

  lemma FlagR(e: Pte)
    ensures e.Flags() / 2 % 2 == Bit(e.r)
  {
    hide Bit;
    BitAt(e.Flags(), 2, Bit(e.v), e.r, Bit(e.w) + 2 * Bit(e.x) + 4 * Bit(e.u) + 8 * Bit(e.g));
  }

  lemma FlagW(e: Pte)
    ensures e.Flags() / 4 % 2 == Bit(e.w)
  {
    hide Bit;
    BitAt(e.Flags(), 4, Bit(e.v) + 2 * Bit(e.r), e.w, Bit(e.x) + 2 * Bit(e.u) + 4 * Bit(e.g));
  }

  lemma FlagX(e: Pte)
    ensures e.Flags() / 8 % 2 == Bit(e.x)
  {
    hide Bit;
    BitAt(e.Flags(), 8, Bit(e.v) + 2 * Bit(e.r) + 4 * Bit(e.w), e.x, Bit(e.u) + 2 * Bit(e.g));
  }

  lemma FlagU(e: Pte)
    ensures e.Flags() / 16 % 2 == Bit(e.u)
  {
    hide Bit;
    BitAt(e.Flags(), 16, Bit(e.v) + 2 * Bit(e.r) + 4 * Bit(e.w) + 8 * Bit(e.x), e.u, Bit(e.g));
  }

  // The bit of weight k, with `lo` below it and `hi` above
  lemma BitAt(x: nat, k: nat, lo: nat, b: bool, hi: nat)
    requires k > 0 && lo < k && x == lo + k * (Bit(b) + 2 * hi)
    ensures x / k % 2 == Bit(b)
  {
    MulCommute(k, Bit(b) + 2 * hi);
    DivModUnique(x, k, Bit(b) + 2 * hi, lo);
    DivModUnique(Bit(b) + 2 * hi, 2, hi, Bit(b));
  }

  /** Every word is such an entry. */
  lemma EveryWordEncodes(p: Word) returns (e: Pte)
    ensures e.Fits() && e.Encoded() == p
  {
    var h, d, a, r := SplitEntry(p);
    var v, rd, w, x, u, g := SixBits(r);
    var rsw, ppn, high := SplitHigh(h);
    e := Pte(v, rd, w, x, u, g, a == 1, d == 1, rsw, ppn, high);
    Assembled(e, h, d, a, r);
  }

  lemma Assembled(e: Pte, h: nat, d: nat, a: nat, r: nat)
    requires a < 2 && d < 2 && e.a == (a == 1) && e.d == (d == 1) && e.Flags() == r
    requires h == e.rsw + 4 * e.ppn + 0x4000_0000_0000 * e.high
    ensures e.Encoded() == 256 * h + 128 * d + 64 * a + r
  {
    hide Pte.Flags, Bit;
    BitOfDigit(a);
    BitOfDigit(d);
  }

  lemma BitOfDigit(a: nat)
    requires a < 2
    ensures Bit(a == 1) == a
  {
  }

  lemma SplitHigh(h: nat) returns (rsw: nat, ppn: nat, high: nat)
    requires h < 0x100_0000_0000_0000
    ensures rsw < 4 && ppn < 0x1000_0000_0000 && high < 1024
    ensures h == rsw + 4 * ppn + 0x4000_0000_0000 * high
  {
    var n := h / 4;
    rsw, ppn, high := h % 4, n % 0x1000_0000_0000, n / 0x1000_0000_0000;
    assert n == ppn + 0x1000_0000_0000 * high;
  }

  lemma SixBits(r: nat) returns (v: bool, rd: bool, w: bool, x: bool, u: bool, g: bool)
    requires r < 64
    ensures r == Bit(v) + 2 * Bit(rd) + 4 * Bit(w) + 8 * Bit(x) + 16 * Bit(u) + 32 * Bit(g)
  {
    hide Bit;
    var r1, r2, r3, r4, r5;
    v, r1 := LowBit(r);
    rd, r2 := LowBit(r1);
    w, r3 := LowBit(r2);
    x, r4 := LowBit(r3);
    u, r5 := LowBit(r4);
    g, r5 := LowBit(r5);
  }

  lemma LowBit(x: nat) returns (b: bool, rest: nat)
    ensures x == Bit(b) + 2 * rest
  {
    b, rest := x % 2 == 1, x / 2;
  }

  // ------------------------------------------------------------ indices

  // Nine-bit digits below `hi`, the top one first
  function Horner(hi: nat, digits: seq<nat>): nat
    decreases |digits|
  {
    if digits == [] then hi else Horner(hi * 512 + digits[0], digits[1..])
  }

  predicate IsDigits(digits: seq<nat>) { forall i :: 0 <= i < |digits| ==> digits[i] < 512 }

  // 512 to the power n: how many pages an entry n levels above the last maps
  function PagesAt(n: nat): (k: nat)
    ensures k > 0
  {
    if n == 0 then 1 else 512 * PagesAt(n - 1)
  }

  lemma SpanIs(level: nat)
    requires level < 5
    ensures Span(level) == 0x1000 * PagesAt(level)
  {
    assert PagesAt(0) == 1;
    assert PagesAt(1) == 512;
    assert PagesAt(2) == 512 * PagesAt(1);
    assert PagesAt(3) == 512 * PagesAt(2);
    assert PagesAt(4) == 512 * PagesAt(3);
  }

  lemma {:induction false} HornerSplit(hi: nat, digits: seq<nat>)
    requires IsDigits(digits)
    ensures Horner(hi, digits) == hi * PagesAt(|digits|) + Horner(0, digits)
    ensures Horner(0, digits) < PagesAt(|digits|)
    decreases |digits|
  {
    if digits != [] {
      var n, rest := PagesAt(|digits| - 1), digits[1..];
      HornerSplit(hi * 512 + digits[0], rest);
      HornerSplit(digits[0], rest);
      assert (hi * 512 + digits[0]) * n == hi * (512 * n) + digits[0] * n by {
        MulCommute(hi * 512 + digits[0], n);
        Distribute(n, hi * 512, digits[0]);
        MulCommute(n, hi * 512);
        MulCommute(n, digits[0]);
        MulAssoc(hi, 512, n);
      }
      MulMonotone(digits[0] + 1, 512, n);
      assert (digits[0] + 1) * n == digits[0] * n + n by {
        MulCommute(digits[0] + 1, n);
        Distribute(n, digits[0], 1);
        MulCommute(n, digits[0]);
      }
    }
  }

  /** The entry read at each level is the one at that level's index, and what is below is the offset in a large page. */
  lemma IndexIsDigit(va: Word, hi: nat, digits: seq<nat>, off: nat)
    requires IsDigits(digits) && 1 <= |digits| <= 5 && off < 0x1000
    requires va == Horner(hi, digits) * 0x1000 + off
    ensures var level := |digits| - 1;
            && va / Span(level) == hi * 512 + digits[0]
            && va / Span(level) % 512 == digits[0]
            && va % Span(level) == Horner(0, digits[1..]) * 0x1000 + off
  {
    hide Horner;
    var n, rest, x := |digits| - 1, digits[1..], hi * 512 + digits[0];
    HornerStep(hi, digits);
    HornerSplit(x, rest);
    SpanIs(n);
    var low := Horner(0, rest) * 0x1000 + off;
    assert va == x * (0x1000 * PagesAt(n)) + low by { MulCommute(0x1000, PagesAt(n)); MulAssoc(x, PagesAt(n), 0x1000); }
    DivModUnique(va, Span(n), x, low);
    DivModUnique(x, 512, hi, digits[0]);
  }

  lemma HornerStep(hi: nat, digits: seq<nat>)
    requires digits != []
    ensures Horner(hi, digits) == Horner(hi * 512 + digits[0], digits[1..])
  {
  }

  // ------------------------------------------------------------ the chain of tables

  predicate Pointer(p: Word) { Valid(p) && !Readable(p) && !Writable(p) && !Executable(p) }

  // Word `i` of RAM is the entry at index `d` of the table at physical address `table`
  predicate EntryAt(m: Machine, words: seq<Word>, table: nat, d: nat, i: nat) {
    i < |words| && m.base + 8 * i == table + 8 * d
  }

  // From the table, k pointer entries at the first k indices lead to the leaf entry in word `leaf` at the next index
  ghost predicate Reaches(m: Machine, words: seq<Word>, table: nat, digits: seq<nat>, k: nat, leaf: nat)
    requires k < |digits|
    decreases k
  {
    if k == 0 then EntryAt(m, words, table, digits[0], leaf) && Valid(words[leaf]) && IsLeaf(words[leaf])
    else exists i: nat :: EntryAt(m, words, table, digits[0], i) && Pointer(words[i])
                          && Reaches(m, words, Frame(words[i]), digits[1..], k - 1, leaf)
  }

  // The emulator finds the entry at an index in RAM exactly where it is
  lemma SlotIsEntry(m: Machine, words: seq<Word>, table: nat, level: nat, va: Word, d: nat)
    requires m.Valid() && 8 * |words| == m.size && level < 5 && table % PAGE == 0 && va / Span(level) % 512 == d
    ensures forall i: nat :: Slot(m, table, level, va) == Some(i) <==> EntryAt(m, words, table, d, i)
  {
    hide Span, Machine.InRam;
    var addr := table + 8 * d;
    OfPages(table);
    OfPages(m.base);
    forall i: nat ensures Slot(m, table, level, va) == Some(i) <==> EntryAt(m, words, table, d, i) {
      WordAt(m, words, addr, i, m.base / 8, table / 8 + d);
    }
  }

  // Word `i` of RAM lies at the address, eight bytes a word
  lemma WordAt(m: Machine, words: seq<Word>, addr: nat, i: nat, b: nat, a: nat)
    requires 8 * |words| == m.size && m.base == 8 * b && addr == 8 * a
    ensures m.InRam(addr) && (addr - m.base) / 8 == i <==> i < |words| && m.base + 8 * i == addr
  {
    if a >= b { EighthOf(b, a, i); }
  }

  lemma OfPages(x: nat)
    requires x % PAGE == 0
    ensures x == 8 * (x / 8)
  {
    var k := 512 * (x / PAGE);
    assert x == k * 8;
    DivModUnique(x, 8, k, 0);
  }

  lemma EighthOf(b: nat, a: nat, i: nat)
    requires a >= b
    ensures (8 * a - 8 * b) / 8 == i <==> 8 * b + 8 * i == 8 * a
  {
    DivModUnique(8 * (a - b), 8, a - b, 0);
  }

  lemma FrameAligned(p: Word)
    ensures Frame(p) % PAGE == 0
  {
    FrameOffset(p, 0);
  }

  /** The lookup finds a leaf if and only if the chain of tables at the address's indices leads to it. */
  lemma {:induction false} LookupIffReaches(m: Machine, words: seq<Word>, table: nat, va: Word, hi: nat,
                                            digits: seq<nat>, off: nat, k: nat, leaf: nat)
    requires m.Valid() && 8 * |words| == m.size && table % PAGE == 0
    requires IsDigits(digits) && 1 <= |digits| <= 5 && off < 0x1000 && k < |digits|
    requires va == Horner(hi, digits) * 0x1000 + off
    ensures Lookup(m, words, table, |digits| - 1, va) == Some(Leaf(leaf, |digits| - 1 - k))
            <==> Reaches(m, words, table, digits, k, leaf)
    decreases k
  {
    hide Span, Horner, Slot, Frame, Valid, Readable, Writable, Executable, Machine.Valid, IsDigits;
    var level := |digits| - 1;
    IndexIsDigit(va, hi, digits, off);
    SlotIsEntry(m, words, table, level, va, digits[0]);
    var slot := Slot(m, table, level, va);
    if k > 0 {
      forall i: nat | EntryAt(m, words, table, digits[0], i) && Pointer(words[i])
        ensures Lookup(m, words, Frame(words[i]), level - 1, va) == Some(Leaf(leaf, level - k))
                <==> Reaches(m, words, Frame(words[i]), digits[1..], k - 1, leaf)
      {
        HornerStep(hi, digits);
        RestIsDigits(digits);
        FrameAligned(words[i]);
        LookupIffReaches(m, words, Frame(words[i]), va, hi * 512 + digits[0], digits[1..], off, k - 1, leaf);
      }
    }
  }

  lemma RestIsDigits(digits: seq<nat>)
    requires IsDigits(digits) && digits != []
    ensures IsDigits(digits[1..])
  {
  }

  // ------------------------------------------------------------ the translation

  // What the architecture lets an access do: the entry has the right bit, and user pages are for U, and for data
  // accesses of S while SUM is set; other pages are for the modes above U
  predicate Allowed(p: Word, priv: nat, sum: bool, mxr: bool, acc: Access) {
    && (match acc
        case Read => Readable(p) || (mxr && Executable(p))
        case Write => Writable(p)
        case Exec => Executable(p))
    && if User(p) then priv == 0 || (priv == 1 && sum && acc != Exec) else priv != 0
  }

  lemma PermittedIffAllowed(p: Word, c: Context, acc: Access)
    ensures Permitted(p, c.priv, c.sum, AccessMask(acc, c.mxr)) <==> Allowed(p, c.priv, c.sum, c.mxr, acc)
  {
    hide Readable, Writable, Executable, User;
  }

  // The address is a sign extension: everything above the top index is a copy of its top bit
  predicate SignExtends(hi: nat, digits: seq<nat>)
    requires 1 <= |digits| <= 5
  {
    if digits[0] < 256 then hi == 0 else hi + 1 == Pow2(52 - 9 * |digits|)
  }

  // The translation that the architecture prescribes: the leaf that the chain at the indices leads to, allowed and
  // aligned, gives its frame, plus the indices that were not used, plus the offset
  ghost predicate Maps(m: Machine, words: seq<Word>, c: Context, hi: nat, digits: seq<nat>, off: nat, acc: Access,
                       k: nat, leaf: nat, paddr: nat)
    requires 1 <= |digits| <= 5
  {
    && SignExtends(hi, digits)
    && k < |digits| && leaf < |words| && Reaches(m, words, c.root, digits, k, leaf)
    && Allowed(words[leaf], c.priv, c.sum, c.mxr, acc)
    && Frame(words[leaf]) % (0x1000 * PagesAt(|digits| - 1 - k)) == 0
    && paddr == Frame(words[leaf]) + Horner(0, digits[k + 1..]) * 0x1000 + off
  }

  // A root table starts a page, as the root in satp always does
  ghost predicate Addressed(m: Machine, words: seq<Word>, c: Context, va: Word, hi: nat, digits: seq<nat>, off: nat) {
    && m.Valid() && 8 * |words| == m.size && c.Valid() && c.Paged() && c.root % 0x1000 == 0
    && IsDigits(digits) && |digits| == c.levels && off < 0x1000 && va == Horner(hi, digits) * 0x1000 + off
  }

  /** A translation is the one that the architecture prescribes, and there is none where it prescribes none. */
  lemma TranslateIffMaps(m: Machine, words: seq<Word>, c: Context, va: Word, hi: nat, digits: seq<nat>, off: nat,
                         acc: Access, paddr: nat)
    requires Addressed(m, words, c, va, hi, digits, off)
    ensures Translate(m, words, c, va, acc) == Some(paddr)
            <==> exists k: nat, leaf: nat :: Maps(m, words, c, hi, digits, off, acc, k, leaf, paddr)
  {
    hide Span, Horner, Frame, Lookup, Readable, Writable, Executable, User, Permitted, Allowed, Reaches, AccessMask,
         Canonical, SignExtends, PagesAt, Machine.Valid;
    CanonicalIffExtends(va, hi, digits, off);
    var l := Lookup(m, words, c.root, c.levels - 1, va);
    if SignExtends(hi, digits) && l.Some? {
      var k, leaf := c.levels - 1 - l.value.level, l.value.slot;
      LookupIffReaches(m, words, c.root, va, hi, digits, off, k, leaf);
      LeafGives(m, words, c, va, hi, digits, off, acc, k, leaf);
      if Translate(m, words, c, va, acc) == Some(paddr) {
        assert Maps(m, words, c, hi, digits, off, acc, k, leaf, paddr);
      }
    }
    forall k: nat, leaf: nat | Maps(m, words, c, hi, digits, off, acc, k, leaf, paddr)
      ensures Translate(m, words, c, va, acc) == Some(paddr)
    {
      LookupIffReaches(m, words, c.root, va, hi, digits, off, k, leaf);
      LeafGives(m, words, c, va, hi, digits, off, acc, k, leaf);
    }
  }

  // The leaf once found
  lemma LeafGives(m: Machine, words: seq<Word>, c: Context, va: Word, hi: nat, digits: seq<nat>, off: nat, acc: Access,
                  k: nat, leaf: nat)
    requires Addressed(m, words, c, va, hi, digits, off) && k < |digits| && leaf < |words|
    ensures var n := |digits| - 1 - k;
            && va % Span(n) == Horner(0, digits[k + 1..]) * 0x1000 + off
            && (AlignedLeaf(words[leaf], n) <==> Frame(words[leaf]) % (0x1000 * PagesAt(n)) == 0)
    ensures Permitted(words[leaf], c.priv, c.sum, AccessMask(acc, c.mxr))
            <==> Allowed(words[leaf], c.priv, c.sum, c.mxr, acc)
  {
    hide Span, Horner, Frame, Permitted, Allowed, PagesAt, Machine.Valid;
    PermittedIffAllowed(words[leaf], c, acc);
    SpanIs(|digits| - 1 - k);
    HornerAt(hi, digits, k);
    IndexIsDigit(va, Horner(hi, digits[..k]), digits[k..], off);
    assert digits[k..][1..] == digits[k + 1..];
  }

  lemma {:induction false} HornerAt(hi: nat, digits: seq<nat>, k: nat)
    requires k <= |digits|
    ensures Horner(Horner(hi, digits[..k]), digits[k..]) == Horner(hi, digits)
    decreases k
  {
    if k == 0 {
      assert digits[k..] == digits;
    } else {
      HornerAt(hi * 512 + digits[0], digits[1..], k - 1);
      assert digits[..k][1..] == digits[1..][..k - 1];
      assert digits[1..][k - 1..] == digits[k..];
    }
  }

  lemma CanonicalIffExtends(va: Word, hi: nat, digits: seq<nat>, off: nat)
    requires IsDigits(digits) && 1 <= |digits| <= 5 && off < 0x1000
    requires va == Horner(hi, digits) * 0x1000 + off
    ensures Canonical(va, |digits|) <==> SignExtends(hi, digits)
  {
    hide Horner, IsDigits;
    IndexIsDigit(va, hi, digits, off);
    var n := |digits|;
    var x := hi * 512 + digits[0];
    TopBits(va, hi, digits[0], n);
  }

  lemma TopBits(va: Word, hi: nat, d: nat, n: nat)
    requires 1 <= n <= 5 && d < 512 && va / Span(n - 1) == hi * 512 + d
    ensures Canonical(va, n) <==> if d < 256 then hi == 0 else hi + 1 == Pow2(52 - 9 * n)
  {
    hide Span, Pow2;
    var span, top := TopValues(n);
    Halves(va, span, hi, d, top);
  }

  lemma TopValues(n: nat) returns (span: nat, top: nat)
    requires 1 <= n <= 5
    ensures span == Span(n - 1) && top == Pow2(52 - 9 * n) && span > 0 && top > 0 && 512 * top * span == TWO64
  {
    hide Pow2;
    Pow2Values();
    match n
    case 1 => span, top := 0x1000, 0x800_0000_0000;
    case 2 => span, top := 0x20_0000, 0x4_0000_0000;
    case 3 => span, top := 0x4000_0000, 0x200_0000;
    case 4 => span, top := 0x80_0000_0000, 0x1_0000;
    case _ => span, top := 0x1_0000_0000_0000, 0x80;
  }

  lemma Halves(va: Word, span: nat, hi: nat, d: nat, top: nat)
    requires span > 0 && top > 0 && d < 512 && va / span == hi * 512 + d && 512 * top * span == TWO64
    ensures va < span * 256 || va >= TWO64 - span * 256 <==> if d < 256 then hi == 0 else hi + 1 == top
  {
    var x, y := hi * 512 + d, 512 * top - 256;
    InUnits(va, span, x, 256);
    InUnits(va, span, x, y);
    InUnits(va, span, x, 512 * top);
    assert y * span == TWO64 - 256 * span by {
      Distribute(span, y, 256);
      MulCommute(span, y);
      MulCommute(span, 512 * top);
    }
    MulCommute(span, 256);
  }

  lemma InUnits(va: nat, span: nat, x: nat, y: nat)
    requires span > 0 && va / span == x
    ensures va < y * span <==> x < y
  {
    var r := va % span;
    assert va == x * span + r;
    if x < y {
      MulMonotone(x + 1, y, span);
      assert (x + 1) * span == x * span + span by {
        MulCommute(x + 1, span);
        Distribute(span, x, 1);
        MulCommute(span, x);
      }
    } else {
      MulMonotone(y, x, span);
    }
  }

  lemma Pow2Values()
    ensures Pow2(43) == 0x800_0000_0000 && Pow2(34) == 0x4_0000_0000 && Pow2(25) == 0x200_0000
    ensures Pow2(16) == 0x1_0000 && Pow2(7) == 0x80
  {
    hide Pow2;
    assert Pow2(7) == 0x80 by { Pow2Seven(); }
    assert Pow2(9) == 0x200 by { Pow2Seven(); Pow2Add(7, 2); }
    Pow2Add(7, 9);
    Pow2Add(16, 9);
    Pow2Add(25, 9);
    Pow2Add(34, 9);
  }

  lemma Pow2Seven()
    ensures Pow2(2) == 4 && Pow2(7) == 0x80
  {
    assert Pow2(2) == 2 * Pow2(1);
    Pow2Add(2, 2);
    Pow2Add(4, 2);
    Pow2Add(6, 1);
  }

  // Every address has its indices
  lemma {:induction false} DigitsOf(va: nat, n: nat) returns (hi: nat, digits: seq<nat>, off: nat)
    ensures |digits| == n && IsDigits(digits) && off < 0x1000 && va == Horner(hi, digits) * 0x1000 + off
    decreases n
  {
    if n == 0 {
      hi, digits, off := va / 0x1000, [], va % 0x1000;
    } else {
      var h, ds, o := DigitsOf(va, n - 1);
      hi, digits, off := h / 512, [h % 512] + ds, o;
      assert digits[1..] == ds;
    }
  }

  /** The debugger's accesses ignore permissions: every aligned leaf translates. */
  lemma DebugIgnoresPermissions(m: Machine, words: seq<Word>, c: Context, va: Word)
    requires c.Valid() && c.Paged() && 8 * |words| == m.size
    ensures var l := LeafOf(m, words, c, va);
            TranslateMask(m, words, c, va, DebugMask).Some?
            <==> l.Some? && AlignedLeaf(words[l.value.slot], l.value.level)
  {
    hide Lookup, Canonical, AlignedLeaf, Frame, Span, Readable, Writable, Executable, User;
    var l := LeafOf(m, words, c, va);
    if l.Some? { assert IsLeaf(words[l.value.slot]); }
  }

  /** Bare mode, Sv39, Sv48 and Sv57, and RAM of whole pages, are what the theorems are about. */
  lemma Covered(m: Machine, c: Context)
    ensures c.levels == 0 || 3 <= c.levels <= 5 ==> c.Valid()
    ensures c.Paged() <==> c.priv != 3 && c.levels != 0
    ensures m.Valid() <==> m.base % 0x1000 == 0 && m.size % 0x1000 == 0 && m.base + m.size <= TWO64
  {
  }

  /** Machine mode and bare mode use addresses as they are. */
  lemma BareIsIdentity(m: Machine, words: seq<Word>, c: Context, va: Word, acc: Access)
    requires c.Valid() && 8 * |words| == m.size && (c.priv == 3 || c.levels == 0)
    ensures Translate(m, words, c, va, acc) == Some(va)
  {
  }

  // ------------------------------------------------------------ cached translations

  /**
   * In every state of every run of any number of harts, the host pointer of a TLB hit is the byte of
   * the RAM buffer that the architecture's translation names. A read hit on an entry that does not let
   * reads through is served as a write.
   */
  lemma HitIsMapped(m: Machine, run: seq<TlbRun.State>, n: nat, i: nat, va: Word, acc: Access,
                    hi: nat, digits: seq<nat>, off: nat) returns (k: nat, leaf: nat, paddr: nat)
    requires TlbRun.Run(m, run) && n < |run| && TlbRun.Wellformed(m, run[n]) && i < |run[n].harts|
    requires Tlb.Hit(run[n].harts[i].tlb, va, acc)
    requires Addressed(m, run[n].words, run[n].harts[i].ctx, va, hi, digits, off)
    ensures var words, c := run[n].words, run[n].harts[i].ctx;
            var used := if acc == Read && !TlbRun.EntryReads(m, words, c, va) then Write else acc;
            && Maps(m, words, c, hi, digits, off, used, k, leaf, paddr)
            && m.PointsAt(paddr, Tlb.HitPtr(run[n].harts[i].tlb, va))
            && Accessed(words[leaf]) && (used == Write ==> Dirty(words[leaf]))
  {
    hide TlbRun.Run, Maps, Machine.PointsAt, TlbRun.EntryReads, Accessed, Dirty, Tlb.Hit;
    TlbRun.HitIsFreshWalk(m, run, n, i, va, acc);
    var words, c := run[n].words, run[n].harts[i].ctx;
    var used := if acc == Read && !TlbRun.EntryReads(m, words, c, va) then Write else acc;
    paddr := Translate(m, words, c, va, used).value;
    TranslateIffMaps(m, words, c, va, hi, digits, off, used, paddr);
    k, leaf :| Maps(m, words, c, hi, digits, off, used, k, leaf, paddr);
    MappedLeaf(m, words, c, va, hi, digits, off, used, k, leaf, paddr);
  }

  lemma MappedLeaf(m: Machine, words: seq<Word>, c: Context, va: Word, hi: nat, digits: seq<nat>, off: nat,
                   acc: Access, k: nat, leaf: nat, paddr: nat)
    requires Addressed(m, words, c, va, hi, digits, off) && Maps(m, words, c, hi, digits, off, acc, k, leaf, paddr)
    ensures LeafOf(m, words, c, va) == Some(Leaf(leaf, |digits| - 1 - k))
  {
    hide Span, Horner, Frame, Lookup, Allowed, Reaches, Canonical, SignExtends, PagesAt, Machine.Valid;
    CanonicalIffExtends(va, hi, digits, off);
    LookupIffReaches(m, words, c.root, va, hi, digits, off, k, leaf);
  }
}
