/**
 * Loads and stores that cross a page boundary. Address translation is a map from page numbers to
 * frame numbers that may fault; physical memory is a sequence of bytes.
 */
module PageStraddle {
  import opened Options
  import opened PageTable
  import opened Words

  type Pages = nat -> Option<nat>

  ghost predicate Backed(pages: Pages, size: nat) {
    forall p: nat :: pages(p).Some? ==> PAGE * pages(p).value + PAGE <= size
  }

  function Phys(pages: Pages, va: Word): Option<nat> {
    match pages(va / PAGE)
    case None => None
    case Some(f) => Some(PAGE * f + va % PAGE)
  }

  /** Frames lie in memory if and only if every byte that has an address does, memory being whole pages. */
  lemma BackedIff(pages: Pages, size: nat)
    requires size % PAGE == 0 && forall p: nat :: pages(p).Some? ==> p < TWO64 / PAGE
    ensures Backed(pages, size) <==> forall va: Word :: Phys(pages, va).Some? ==> Phys(pages, va).value < size
  {
    if forall va: Word :: Phys(pages, va).Some? ==> Phys(pages, va).value < size {
      forall p: nat | pages(p).Some? ensures PAGE * pages(p).value + PAGE <= size {
        var va: Word := PAGE * p + (PAGE - 1);
        assert va / PAGE == p && va % PAGE == PAGE - 1;
        assert Phys(pages, va).Some?;
      }
    }
  }

  // ------------------------------------------------------------ byte by byte

  // Memory and buffer after an access, and whether it went through
  datatype Outcome = Outcome(mem: seq<Byte>, buf: seq<Byte>, ok: bool)

  // Move `n` bytes one after the other between buf[at..] and memory, and stop at the first one that faults
  function Bytes(mem: seq<Byte>, buf: seq<Byte>, pages: Pages, va: Word, at: nat, n: nat, write: bool): (r: Outcome)
    requires at + n <= |buf|
    ensures |r.mem| == |mem| && |r.buf| == |buf|
    decreases n
  {
    var pa := Phys(pages, va);
    if n == 0 then Outcome(mem, buf, true)
    else if pa.None? || pa.value >= |mem| then Outcome(mem, buf, false)
    else if write then Bytes(mem[pa.value := buf[at]], buf, pages, Wrap(va + 1), at + 1, n - 1, write)
    else Bytes(mem, buf[at := mem[pa.value]], pages, Wrap(va + 1), at + 1, n - 1, write)
  }

  // The address of byte `i` of the access is in memory, and it is `pa`
  predicate ByteIs(pages: Pages, va: Word, i: nat, size: nat, pa: nat) {
    Phys(pages, Wrap(va + i)) == Some(pa) && pa < size
  }

  predicate BytesAre(pages: Pages, va: Word, size: nat, addrs: seq<nat>) {
    forall i :: 0 <= i < |addrs| ==> ByteIs(pages, va, i, size, addrs[i])
  }

  predicate Within(addrs: seq<nat>, size: nat) { forall i :: 0 <= i < |addrs| ==> addrs[i] < size }

  predicate ByteFaults(pages: Pages, va: Word, i: nat, size: nat) {
    var pa := Phys(pages, Wrap(va + i)); pa.None? || pa.value >= size
  }

  // A load takes each byte from its address
  predicate Loaded(mem: seq<Byte>, buf: seq<Byte>, buf': seq<Byte>, at: nat, addrs: seq<nat>)
    requires at + |addrs| <= |buf| == |buf'| && Within(addrs, |mem|)
  {
    && (forall i :: 0 <= i < |addrs| ==> buf'[at + i] == mem[addrs[i]])
    && forall i :: 0 <= i < |buf| && !(at <= i < at + |addrs|) ==> buf'[i] == buf[i]
  }

  // A store leaves each byte at its address, unless a later byte has the same one, and writes nowhere else
  predicate StoredAt(mem: seq<Byte>, mem': seq<Byte>, buf: seq<Byte>, at: nat, addrs: seq<nat>)
    requires at + |addrs| <= |buf| && |mem'| == |mem| && Within(addrs, |mem|)
  {
    && (forall i :: 0 <= i < |addrs| && Last(addrs, i) ==> mem'[addrs[i]] == buf[at + i])
    && forall p :: 0 <= p < |mem| && Missed(addrs, p) ==> mem'[p] == mem[p]
  }

  // No later byte has the address of byte i, and none at all has address p
  predicate Last(addrs: seq<nat>, i: nat)
    requires i < |addrs|
  {
    forall j :: i < j < |addrs| ==> addrs[j] != addrs[i]
  }

  predicate Missed(addrs: seq<nat>, p: nat) { forall j :: 0 <= j < |addrs| ==> addrs[j] != p }

  /** What the byte by byte access means: it moves the bytes, each at the address that its own virtual address has, up
      to the first one that has none in memory. */
  lemma {:induction false} BytesMeaning(mem: seq<Byte>, buf: seq<Byte>, pages: Pages, va: Word, at: nat, n: nat,
                                        write: bool) returns (addrs: seq<nat>)
    requires at + n <= |buf|
    ensures |addrs| <= n && BytesAre(pages, va, |mem|, addrs) && Within(addrs, |mem|)
    ensures |addrs| < n ==> ByteFaults(pages, va, |addrs|, |mem|)
    ensures var r := Bytes(mem, buf, pages, va, at, n, write);
            && (r.ok <==> |addrs| == n)
            && if write then r.buf == buf && StoredAt(mem, r.mem, buf, at, addrs)
               else r.mem == mem && Loaded(mem, buf, r.buf, at, addrs)
    decreases n
  {
    hide Phys, Wrap, Loaded, StoredAt, Bytes, BytesAre, Within;
    addrs := [];
    BytesZero(mem, buf, pages, va, at, write);
    NoneMoved(mem, buf, at, pages, va);
    if n > 0 {
      var pa := Phys(pages, va);
      if pa.Some? && pa.value < |mem| {
        BytesStep(mem, buf, pages, va, at, n, write, pa.value);
        var m := if write then mem[pa.value := buf[at]] else mem;
        var b := if write then buf else buf[at := mem[pa.value]];
        var rest := BytesMeaning(m, b, pages, Wrap(va + 1), at + 1, n - 1, write);
        var r := Bytes(m, b, pages, Wrap(va + 1), at + 1, n - 1, write);
        addrs := [pa.value] + rest;
        NextBytes(pages, va, |mem|, pa.value, rest);
        if write {
          StoredNext(mem, r.mem, buf, at, pa.value, rest);
        } else {
          LoadedNext(mem, buf, r.buf, at, pa.value, rest);
        }
      } else {
        BytesFault(mem, buf, pages, va, at, n, write);
      }
    }
  }

  lemma NoneMoved(mem: seq<Byte>, buf: seq<Byte>, at: nat, pages: Pages, va: Word)
    requires at <= |buf|
    ensures BytesAre(pages, va, |mem|, [])
    ensures Within([], |mem|) && Loaded(mem, buf, buf, at, []) && StoredAt(mem, mem, buf, at, [])
  {
  }

  // The bytes after the first are those of the rest
  lemma NextBytes(pages: Pages, va: Word, size: nat, pa: nat, rest: seq<nat>)
    requires Phys(pages, va) == Some(pa) && pa < size && BytesAre(pages, Wrap(va + 1), size, rest)
    ensures BytesAre(pages, va, size, [pa] + rest) && Within([pa] + rest, size)
    ensures ByteFaults(pages, Wrap(va + 1), |rest|, size) == ByteFaults(pages, va, 1 + |rest|, size)
  {
    hide Phys;
    var addrs := [pa] + rest;
    WrapAdd(va + 1, |rest|);
    forall i | 0 <= i < |addrs| ensures ByteIs(pages, va, i, size, addrs[i]) {
      if i > 0 {
        WrapAdd(va + 1, i - 1);
        assert ByteIs(pages, Wrap(va + 1), i - 1, size, rest[i - 1]);
      }
    }
    assert forall i :: 0 <= i < |addrs| ==> ByteIs(pages, va, i, size, addrs[i]);
  }

  lemma LoadedNext(mem: seq<Byte>, buf: seq<Byte>, buf': seq<Byte>, at: nat, pa: nat, rest: seq<nat>)
    requires at + 1 + |rest| <= |buf| == |buf'| && pa < |mem| && Within(rest, |mem|)
    requires Loaded(mem, buf[at := mem[pa]], buf', at + 1, rest)
    ensures Within([pa] + rest, |mem|) && Loaded(mem, buf, buf', at, [pa] + rest)
  {
    var addrs := [pa] + rest;
    forall i | 0 <= i < |addrs| ensures buf'[at + i] == mem[addrs[i]] {
      if i > 0 { assert buf'[at + 1 + (i - 1)] == mem[rest[i - 1]]; }
    }
  }

  lemma StoredNext(mem: seq<Byte>, mem': seq<Byte>, buf: seq<Byte>, at: nat, pa: nat, rest: seq<nat>)
    requires at + 1 + |rest| <= |buf| && |mem'| == |mem| && pa < |mem| && Within(rest, |mem|)
    requires StoredAt(mem[pa := buf[at]], mem', buf, at + 1, rest)
    ensures Within([pa] + rest, |mem|) && StoredAt(mem, mem', buf, at, [pa] + rest)
  {
    hide Last, Missed;
    var addrs := [pa] + rest;
    forall i | 0 <= i < |addrs| && Last(addrs, i) ensures mem'[addrs[i]] == buf[at + i] {
      if i > 0 {
        LaterLast(pa, rest, i);
        assert mem'[rest[i - 1]] == buf[at + 1 + (i - 1)];
      } else {
        LaterMissed(pa, rest, pa);
      }
    }
    forall p | 0 <= p < |mem| && Missed(addrs, p) ensures mem'[p] == mem[p] {
      LaterMissed(pa, rest, p);
    }
  }

  lemma LaterLast(pa: nat, rest: seq<nat>, i: nat)
    requires 0 < i < 1 + |rest| && Last([pa] + rest, i)
    ensures Last(rest, i - 1)
  {
    var addrs := [pa] + rest;
    forall j | i - 1 < j < |rest| ensures rest[j] != rest[i - 1] { assert addrs[j + 1] != addrs[i]; }
  }

  lemma LaterMissed(pa: nat, rest: seq<nat>, p: nat)
    requires Missed([pa] + rest, p) || (p == pa && Last([pa] + rest, 0))
    ensures Missed(rest, p) && (Missed([pa] + rest, p) ==> p != pa)
  {
    var addrs := [pa] + rest;
    assert addrs[0] == pa;
    forall j | 0 <= j < |rest| ensures rest[j] != p { assert addrs[j + 1] == rest[j]; }
  }

  function Splice(mem: seq<Byte>, pa: nat, s: seq<Byte>): (r: seq<Byte>)
    requires pa + |s| <= |mem|
    ensures |r| == |mem|
  {
    mem[..pa] + s + mem[pa + |s|..]
  }

  // The next byte of the same page
  lemma NextByte(pages: Pages, va: Word)
    requires va % PAGE + 1 < PAGE
    ensures Wrap(va + 1) == va + 1 && (va + 1) % PAGE == va % PAGE + 1
    ensures var a, b := Phys(pages, va), Phys(pages, Wrap(va + 1));
            if a.Some? then b == Some(a.value + 1) else b.None?
  {
    assert (va + 1) / PAGE == va / PAGE && (va + 1) % PAGE == va % PAGE + 1;
    assert va + 1 < TWO64;
  }

  // All at once
  function Whole(mem: seq<Byte>, buf: seq<Byte>, pa: Option<nat>, at: nat, n: nat, write: bool): Outcome
    requires at + n <= |buf| && (pa.Some? ==> pa.value + n <= |mem|)
  {
    if pa.None? then Outcome(mem, buf, false)
    else if write then Outcome(Splice(mem, pa.value, buf[at..at + n]), buf, true)
    else Outcome(mem, Splice(buf, at, mem[pa.value..pa.value + n]), true)
  }

  lemma InMemory(pages: Pages, size: nat, va: Word, n: nat)
    requires Backed(pages, size) && va % PAGE + n <= PAGE
    ensures Phys(pages, va).Some? ==> Phys(pages, va).value + n <= size
  {
  }

  // One byte and the rest of the block make the block
  lemma WholeStep(mem: seq<Byte>, buf: seq<Byte>, pa: nat, at: nat, n: nat, write: bool)
    requires n > 1 && at + n <= |buf| && pa + n <= |mem|
    ensures Whole(mem, buf, Some(pa), at, n, write) ==
      if write then Whole(mem[pa := buf[at]], buf, Some(pa + 1), at + 1, n - 1, write)
      else Whole(mem, buf[at := mem[pa]], Some(pa + 1), at + 1, n - 1, write)
  {
    hide Splice;
    if write {
      SpliceStep(mem, pa, buf[at..at + n]);
      assert buf[at..at + n][1..] == buf[at + 1..at + n];
    } else {
      SpliceStep(buf, at, mem[pa..pa + n]);
      assert mem[pa..pa + n][1..] == mem[pa + 1..pa + n];
    }
  }

  lemma SpliceStep(a: seq<Byte>, p: nat, s: seq<Byte>)
    requires |s| > 0 && p + |s| <= |a|
    ensures Splice(a, p, s) == Splice(a[p := s[0]], p + 1, s[1..])
  {
    var l, r := Splice(a, p, s), Splice(a[p := s[0]], p + 1, s[1..]);
    assert forall i :: 0 <= i < |a| ==> l[i] == if p <= i < p + |s| then s[i - p] else a[i];
    assert forall i :: 0 <= i < |a| ==> r[i] == if p <= i < p + |s| then s[i - p] else a[i];
  }

  // Within one page, byte by byte is all at once
  lemma {:induction false} InPage(mem: seq<Byte>, buf: seq<Byte>, pages: Pages, va: Word, at: nat, n: nat, write: bool)
    requires Backed(pages, |mem|) && 0 < n && va % PAGE + n <= PAGE && at + n <= |buf|
    ensures Phys(pages, va).Some? ==> Phys(pages, va).value + n <= |mem|
    ensures Bytes(mem, buf, pages, va, at, n, write) == Whole(mem, buf, Phys(pages, va), at, n, write)
    decreases n
  {
    hide *;
    InMemory(pages, |mem|, va, n);
    var pa := Phys(pages, va);
    if pa.None? {
      BytesFault(mem, buf, pages, va, at, n, write);
    } else {
      BytesStep(mem, buf, pages, va, at, n, write, pa.value);
      if n == 1 {
        WholeOne(mem, buf, pa.value, at, write);
      } else {
        NextByte(pages, va);
        WholeStep(mem, buf, pa.value, at, n, write);
        if write {
          InPage(mem[pa.value := buf[at]], buf, pages, va + 1, at + 1, n - 1, write);
        } else {
          InPage(mem, buf[at := mem[pa.value]], pages, va + 1, at + 1, n - 1, write);
        }
      }
    }
  }

  lemma BytesFault(mem: seq<Byte>, buf: seq<Byte>, pages: Pages, va: Word, at: nat, n: nat, write: bool)
    requires n > 0 && at + n <= |buf| && (Phys(pages, va).None? || Phys(pages, va).value >= |mem|)
    ensures Bytes(mem, buf, pages, va, at, n, write) == Outcome(mem, buf, false) == Whole(mem, buf, None, at, n, write)
  {
  }

  lemma BytesStep(mem: seq<Byte>, buf: seq<Byte>, pages: Pages, va: Word, at: nat, n: nat, write: bool, pa: nat)
    requires n > 0 && at + n <= |buf| && Phys(pages, va) == Some(pa) && pa < |mem|
    ensures var m := if write then mem[pa := buf[at]] else mem;
            var b := if write then buf else buf[at := mem[pa]];
            var rest := Bytes(m, b, pages, Wrap(va + 1), at + 1, n - 1, write);
            Bytes(mem, buf, pages, va, at, n, write) == rest && (n == 1 ==> rest == Outcome(m, b, true))
  {
    hide Phys, Wrap;
    var m := if write then mem[pa := buf[at]] else mem;
    var b := if write then buf else buf[at := mem[pa]];
    assert Bytes(m, b, pages, Wrap(va + 1), at + 1, 0, write) == Outcome(m, b, true);
  }

  lemma WholeOne(mem: seq<Byte>, buf: seq<Byte>, pa: nat, at: nat, write: bool)
    requires at < |buf| && pa < |mem|
    ensures Whole(mem, buf, Some(pa), at, 1, write) ==
      if write then Outcome(mem[pa := buf[at]], buf, true) else Outcome(mem, buf[at := mem[pa]], true)
  {
    if write {
      assert mem[pa := buf[at]] == Splice(mem, pa, buf[at..at + 1]);
    } else {
      assert buf[at := mem[pa]] == Splice(buf, at, mem[pa..pa + 1]);
    }
  }

  // Two consecutive runs of bytes make one
  lemma {:induction false} Concat(mem: seq<Byte>, buf: seq<Byte>, pages: Pages, va: Word, at: nat, m: nat,
                                  n: nat, write: bool)
    requires at + m + n <= |buf|
    ensures Bytes(mem, buf, pages, va, at, m + n, write) ==
      var a := Bytes(mem, buf, pages, va, at, m, write);
      if a.ok then Bytes(a.mem, a.buf, pages, Wrap(va + m), at + m, n, write) else a
    decreases m
  {
    hide *;
    if m > 0 {
      WrapAdd(va + 1, m - 1);
      var pa := Phys(pages, va);
      if pa.Some? && pa.value < |mem| {
        BytesStep(mem, buf, pages, va, at, m, write, pa.value);
        BytesStep(mem, buf, pages, va, at, m + n, write, pa.value);
        if write {
          Concat(mem[pa.value := buf[at]], buf, pages, Wrap(va + 1), at + 1, m - 1, n, write);
        } else {
          Concat(mem, buf[at := mem[pa.value]], pages, Wrap(va + 1), at + 1, m - 1, n, write);
        }
      } else {
        BytesFault(mem, buf, pages, va, at, m, write);
        BytesFault(mem, buf, pages, va, at, m + n, write);
      }
    } else {
      BytesZero(mem, buf, pages, va, at, write);
    }
  }

  lemma BytesZero(mem: seq<Byte>, buf: seq<Byte>, pages: Pages, va: Word, at: nat, write: bool)
    requires at <= |buf|
    ensures Bytes(mem, buf, pages, va, at, 0, write) == Outcome(mem, buf, true) && Wrap(va + 0) == va
  {
  }

  // The second part starts a page
  lemma SecondPart(va: Word)
    ensures Wrap(va + (PAGE - va % PAGE)) % PAGE == 0
  {
    var q := va / PAGE;
    assert va + (PAGE - va % PAGE) == PAGE * (q + 1);
    if q + 1 < TWO64 / PAGE {
      assert PAGE * (q + 1) < TWO64;
    } else {
      assert PAGE * (q + 1) == TWO64;
    }
  }

  // ------------------------------------------------------------ the access

  class Bus {
    var mem: seq<Byte>

    // riscv_mmu_op_internal for one page
    method PageOp(pages: Pages, va: Word, data: array<Byte>, at: nat, size: nat, write: bool) returns (ok: bool)
      requires Backed(pages, |mem|) && 0 < size && va % PAGE + size <= PAGE && at + size <= data.Length
      modifies this, data
      ensures Outcome(mem, data[..], ok) == Bytes(old(mem), old(data[..]), pages, va, at, size, write)
    {
      hide Bytes, Phys, Backed, Wrap, Splice;
      InPage(mem, data[..], pages, va, at, size, write);
      var pa := Phys(pages, va);
      if pa.None? { return false; }
      if write {
        mem := Splice(mem, pa.value, data[at..at + size]);
        assert old(data[..])[at..at + size] == data[at..at + size];
      } else {
        CopyOut(data, at, pa.value, size);
      }
      ok := true;
    }

    method CopyOut(data: array<Byte>, at: nat, pa: nat, size: nat)
      requires at + size <= data.Length && pa + size <= |mem|
      modifies data
      ensures data[..] == Splice(old(data[..]), at, mem[pa..pa + size])
    {
      for k := 0 to size
        invariant forall i :: 0 <= i < data.Length ==>
                    data[i] == if at <= i < at + k then mem[pa + (i - at)] else old(data[i])
      {
        data[at + k] := mem[pa + k];
      }
    }

    /** A load or store, in one page or straddling two, is the same access made byte by byte, faults included. */
    method Op(pages: Pages, va: Word, data: array<Byte>, at: nat, size: nat, write: bool) returns (ok: bool)
      requires Backed(pages, |mem|) && 0 < size < 256 && at + size <= data.Length
      modifies this, data
      ensures Outcome(mem, data[..], ok) == Bytes(old(mem), old(data[..]), pages, va, at, size, write)
    {
      if va % PAGE + size <= PAGE {
        ok := PageOp(pages, va, data, at, size, write);
      } else {
        var part: nat := PAGE - va % PAGE;
        SecondPart(va);
        Concat(mem, data[..], pages, va, at, part, size - part, write);
        hide Bytes, Wrap;
        ok := PageOp(pages, va, data, at, part, write);
        if ok {
          ok := PageOp(pages, Wrap(va + part), data, at + part, size - part, write);
        }
      }
    }
  }

  // ------------------------------------------------------------ the page map of a translation

  // Page numbers to frame numbers, as the walk maps them
  function PagesOf(m: Machine, words: seq<Word>, c: Context, mask: Mask): Pages
    requires c.Valid() && 8 * |words| == m.size
  {
    (p: nat) =>
      if PAGE * p >= TWO64 || TranslateMask(m, words, c, PAGE * p, mask).None? then None
      else Some(TranslateMask(m, words, c, PAGE * p, mask).value / PAGE)
  }

  /** The walk is such a page map: it translates every address by its page. */
  lemma PagesOfTranslates(m: Machine, words: seq<Word>, c: Context, mask: Mask, va: Word)
    requires c.Valid() && 8 * |words| == m.size
    ensures Phys(PagesOf(m, words, c, mask), va) == TranslateMask(m, words, c, va, mask)
  {
    hide TranslateMask;
    var start: Word := PAGE * (va / PAGE);
    assert start / PAGE == va / PAGE && start % PAGE == 0;
    PageToFrame(m, words, c, start, va, mask);
    var t := TranslateMask(m, words, c, start, mask);
    if t.Some? { assert t.value == PAGE * (t.value / PAGE); }
  }
}
