/**
 * Accesses that a device does not take in one piece: the realignment of a device access through a
 * bounce buffer, proved equal to the same access made byte by byte.
 */
module MmioAccess {
  import opened Powers
  import opened Words

  // Bitwise AND
  function And(x: nat, y: nat): (r: nat)
    ensures r <= x && r <= y
  {
    if x == 0 || y == 0 then 0 else 2 * And(x / 2, y / 2) + (if x % 2 == 1 && y % 2 == 1 then 1 else 0)
  }

  lemma {:induction false} AndMask(x: nat, k: nat)
    ensures And(x, Pow2(k) - 1) == x % Pow2(k)
  {
    if k == 0 {
      DivModUnique(x, 1, x, 0);
    } else if x == 0 {
      DivModUnique(0, Pow2(k), 0, 0);
    } else {
      var m := Pow2(k - 1);
      AndMask(x / 2, k - 1);
      AndDouble(x, m - 1);
      ModDouble(x, m);
    }
  }

  lemma AndDouble(x: nat, y: nat)
    ensures And(x, 2 * y + 1) == 2 * And(x / 2, y) + x % 2
  {
    assert (2 * y + 1) / 2 == y && (2 * y + 1) % 2 == 1;
  }

  lemma ModDouble(x: nat, m: nat)
    requires m > 0
    ensures x % (2 * m) == 2 * (x / 2 % m) + x % 2
  {
    var h := x / 2;
    var q, r := h / m, h % m;
    assert q * (2 * m) == 2 * (q * m) by { MulCommute(q, 2 * m); MulAssoc(2, m, q); MulCommute(m, q); }
    DivModUnique(x, 2 * m, q, 2 * r + x % 2);
  }

  // ------------------------------------------------------------ a device that is plain byte memory

  datatype Call = Call(off: nat, len: nat)

  // `now` is `was` with the bytes of `src` at `off`
  ghost predicate Stored(was: nat -> Byte, now: nat -> Byte, off: nat, src: seq<Byte>) {
    forall i: nat :: now(i) == if off <= i < off + |src| then src[i - off] else was(i)
  }

  lemma StoredTwice(a: nat -> Byte, b: nat -> Byte, c: nat -> Byte, off: nat, s: seq<Byte>, t: seq<Byte>)
    requires Stored(a, b, off, s) && Stored(b, c, off + |s|, t)
    ensures Stored(a, c, off, s + t)
  {
  }

  // Writing back a block in which only the bytes of `src` differ stores just those
  lemma Merged(was: nat -> Byte, now: nat -> Byte, blk: seq<Byte>, src: seq<Byte>, block: nat, diff: nat)
    requires diff + |src| <= |blk| && Stored(was, now, block, blk)
    requires forall k :: 0 <= k < |blk| ==> blk[k] == if diff <= k < diff + |src| then src[k - diff] else was(block + k)
    ensures Stored(was, now, block + diff, src)
  {
    forall i: nat
      ensures now(i) == if block + diff <= i < block + diff + |src| then src[i - (block + diff)] else was(i)
    {
      if block <= i < block + |blk| {
        var k := i - block;
        assert now(i) == blk[k];
      }
    }
  }

  class ByteDevice {
    const minOp: nat
    const maxOp: nat
    const canRead: bool        // whether there is a handler for reads, and for writes
    const canWrite: bool
    var cells: nat -> Byte
    ghost var log: seq<Call>   // handler calls made so far

    constructor (lo: nat, hi: nat, r: bool, w: bool)
      ensures minOp == lo && maxOp == hi && canRead == r && canWrite == w && log == []
    {
      minOp, maxOp, canRead, canWrite, cells, log := lo, hi, r, w, (i: nat) => 0, [];
    }

    method Read(buf: array<Byte>, at: nat, off: nat, n: nat)
      requires at + n <= buf.Length
      modifies buf, `log
      ensures log == old(log) + [Call(off, n)]
      ensures forall i :: 0 <= i < buf.Length ==>
                buf[i] == if at <= i < at + n then cells(off + (i - at)) else old(buf[i])
    {
      for k := 0 to n
        invariant log == old(log)
        invariant forall i :: 0 <= i < buf.Length ==>
                    buf[i] == if at <= i < at + k then cells(off + (i - at)) else old(buf[i])
      {
        buf[at + k] := cells(off + k);
      }
      log := log + [Call(off, n)];
    }

    method Write(buf: array<Byte>, at: nat, off: nat, n: nat)
      requires at + n <= buf.Length
      modifies `cells, `log
      ensures log == old(log) + [Call(off, n)]
      ensures Stored(old(cells), cells, off, buf[at..at + n])
    {
      log := log + [Call(off, n)];
      var src, was := buf[at..at + n], cells;
      cells := (i: nat) => if off <= i < off + n then src[i - off] else was(i);
    }
  }

  // The bytes [off, off+n) of the device have been moved to or from data[at..at+n], and nothing else has changed
  ghost predicate Moved(cells0: nat -> Byte, cells: nat -> Byte, data0: seq<Byte>, data: seq<Byte>, at: nat,
                        off: nat, n: nat, write: bool) {
    && at + n <= |data0| == |data|
    && if write then Stored(cells0, cells, off, data0[at..at + n]) && data == data0
       else
         && cells == cells0
         && forall i :: 0 <= i < |data| ==>
              data[i] == if at <= i < at + n then cells(off + (i - at)) else data0[i]
  }

  lemma MovedNone(cells: nat -> Byte, data: seq<Byte>, at: nat, off: nat, write: bool)
    requires at <= |data|
    ensures Moved(cells, cells, data, data, at, off, 0, write)
  {
  }

  // Two adjacent moves make one
  lemma MovedTwice(c0: nat -> Byte, c1: nat -> Byte, c2: nat -> Byte, d0: seq<Byte>, d1: seq<Byte>, d2: seq<Byte>,
                   at: nat, off: nat, m: nat, n: nat, write: bool)
    requires Moved(c0, c1, d0, d1, at, off, m, write) && Moved(c1, c2, d1, d2, at + m, off + m, n, write)
    ensures Moved(c0, c2, d0, d2, at, off, m + n, write)
  {
    if write {
      StoredTwice(c0, c1, c2, off, d0[at..at + m], d0[at + m..at + m + n]);
      assert d0[at..at + m] + d0[at + m..at + m + n] == d0[at..at + (m + n)];
    }
  }

  // The size clamped to what the device accepts
  function Align(size: nat, lo: nat, hi: nat): (r: nat)
    ensures lo <= hi ==> lo <= r <= hi && (r != size ==> if size < lo then r == lo else r == hi < size)
  {
     if size < lo then lo else if size > hi then hi else size
  }

  predicate Multiple(off: nat, len: nat) { len > 0 && off % len == 0 }

  // All calls after the first `n` are for `len` bytes at a multiple of it
  predicate Aligned(log: seq<Call>, n: nat, len: nat) {
    forall i :: n <= i < |log| ==> log[i].len == len && Multiple(log[i].off, len)
  }

  lemma StaysAligned(was: seq<Call>, now: seq<Call>, n: nat, block: nat, len: nat)
    requires n <= |was| && Aligned(was, n, len) && Multiple(block, len) && Logged(was, now, Call(block, len))
    ensures Aligned(now, n, len)
  {
    hide Multiple;
    forall i | n <= i < |now| ensures now[i].len == len && Multiple(now[i].off, len) {
      if i < |was| { assert now[..|was|][i] == was[i]; }
    }
  }

  ghost predicate PowerOfTwoSizes(size: nat, lo: nat, hi: nat) { PowerOfTwo(size) && PowerOfTwo(lo) && PowerOfTwo(hi) }

  lemma AlignDown(off: nat, align: nat)
    requires PowerOfTwo(align)
    ensures align > 0 && Multiple(off - And(off, align - 1), align)
  {
    var k: nat :| align == Pow2(k);
    AndMask(off, k);
    RoundDown(off, align);
  }

  lemma EvenStart(off: nat, size: nat, lo: nat, hi: nat, log: seq<Call>)
    requires PowerOfTwoSizes(size, lo, hi)
    ensures var align := Align(size, lo, hi);
            align > 0 && Multiple(off - And(off, align - 1), align) && Aligned(log, |log|, align)
  {
    AlignDown(off, Align(size, lo, hi));
  }

  lemma RoundDown(off: nat, align: nat)
    requires align > 0
    ensures 0 <= off - off % align && (off - off % align) % align == 0
  {
    var q, r := off / align, off % align;
    assert off == q * align + r;
    DivModUnique(q * align, align, q, 0);
  }

  lemma NextAligned(off: nat, align: nat)
    requires Multiple(off, align)
    ensures Multiple(off + align, align)
  {
    var q := off / align;
    assert (q + 1) * align == q * align + align;
    DivModUnique(off + align, align, q + 1, 0);
  }

  lemma LastMultiple(n: nat, align: nat)
    requires Multiple(n, align) && n > 0
    ensures n >= align && Multiple(n - align, align)
  {
    if n < align { DivModUnique(n, align, 0, n); }
    var q := n / align;
    assert (q - 1) * align == q * align - align;
    DivModUnique(n - align, align, q - 1, 0);
  }

  lemma ZeroMultiple(align: nat)
    requires align > 0
    ensures Multiple(0, align)
  {
    DivModUnique(0, align, 0, 0);
  }

  // The access consists of whole aligned blocks
  predicate WholeBlocks(offset: nat, size: nat, align: nat)
    requires align > 0
  {
    And(offset, align - 1) == 0 && Multiple(size, align)
  }

  // The handlers the access needs are there: a partial write needs both
  predicate Served(canRead: bool, canWrite: bool, offset: nat, size: nat, align: nat, write: bool)
    requires align > 0
  {
    if write then canWrite && (canRead || WholeBlocks(offset, size, align)) else canRead
  }

  // The same for the rounds made so far, `dest` bytes, with the next block starting `diff` bytes in
  predicate ServedSoFar(canRead: bool, canWrite: bool, offset: nat, size: nat, align: nat, write: bool,
                        dest: nat, diff: nat)
    requires align > 0
  {
    && dest <= size && diff < align && (dest == 0 ==> diff == And(offset, align - 1)) && (dest > 0 ==> diff == 0)
    && (dest > 0 ==> if write then canWrite else canRead)
    && (dest > 0 && !canRead ==> And(offset, align - 1) == 0 && Multiple(dest, align))
    && (WholeBlocks(offset, size, align) ==> Multiple(size - dest, align))
  }

  lemma ServedStart(canRead: bool, canWrite: bool, offset: nat, size: nat, align: nat, write: bool)
    requires align > 0
    ensures ServedSoFar(canRead, canWrite, offset, size, align, write, 0, And(offset, align - 1))
  {
    hide And, Multiple;
  }

  lemma ServedNext(canRead: bool, canWrite: bool, offset: nat, size: nat, align: nat, write: bool, dest: nat,
                   diff: nat, n: nat, ok: bool)
    requires align > 0 && ServedSoFar(canRead, canWrite, offset, size, align, write, dest, diff) && dest < size
    requires n == if align - diff > size - dest then size - dest else align - diff
    requires ok <==> if write then canWrite && (canRead || (diff == 0 && n == align)) else canRead
    ensures ok ==> ServedSoFar(canRead, canWrite, offset, size, align, write, dest + n, 0)
    ensures !ok ==> !Served(canRead, canWrite, offset, size, align, write)
  {
    hide And, Multiple;
    if WholeBlocks(offset, size, align) { LastMultiple(size - dest, align); }
    if ok && !canRead {
      ZeroMultiple(align);
      NextAligned(dest, align);
    }
  }

  lemma ServedEnd(canRead: bool, canWrite: bool, offset: nat, size: nat, align: nat, write: bool, diff: nat)
    requires align > 0 && ServedSoFar(canRead, canWrite, offset, size, align, write, size, diff)
    ensures size == 0 || Served(canRead, canWrite, offset, size, align, write)
  {
    hide And, Multiple;
  }

  /** The realignment loop has the effect of byte-by-byte access, at any size and offset. It gives up exactly when the
      block would not fit the buffer or a handler it needs is missing, after having moved some first bytes. At
      power-of-two sizes every handler call is aligned, and of a size the device accepts. */
  method UnalignedOp(dev: ByteDevice, data: array<Byte>, at: nat, offset: nat, size: nat, write: bool)
    returns (ok: bool, ghost moved: nat)
    requires 0 < dev.minOp <= dev.maxOp && at + size <= data.Length
    modifies dev, data
    ensures var align := Align(size, dev.minOp, dev.maxOp);
            ok <==> align <= 16 && (size == 0 || Served(dev.canRead, dev.canWrite, offset, size, align, write))
    ensures moved <= size && (ok ==> moved == size)
    ensures Moved(old(dev.cells), dev.cells, old(data[..]), data[..], at, offset, moved, write)
    ensures |old(dev.log)| <= |dev.log|
    ensures PowerOfTwoSizes(size, dev.minOp, dev.maxOp) ==>
              var len := Align(size, dev.minOp, dev.maxOp);
              dev.minOp <= len <= dev.maxOp && Aligned(dev.log, |old(dev.log)|, len)
  {
    hide And, Multiple, Aligned, Moved, Logged, Align, PowerOfTwoSizes, Served, ServedSoFar;
    ghost var c0, d0 := dev.cells, data[..];
    var tmp := new Byte[16](_ => 0);
    var align := Align(size, dev.minOp, dev.maxOp);
    var offsetDiff: nat := And(offset, align - 1);
    var offsetAlign: nat := offset - offsetDiff;
    var offsetDest: nat, left: nat := 0, size;
    ghost var even := PowerOfTwoSizes(size, dev.minOp, dev.maxOp);
    if even { EvenStart(offset, size, dev.minOp, dev.maxOp, dev.log); }
    MovedNone(c0, d0, at, offset, write);
    ServedStart(dev.canRead, dev.canWrite, offset, size, align, write);
    if align > tmp.Length { return false, 0; }
    ghost var n := |dev.log|;
    while left > 0
      invariant offsetDest + left == size && offsetDiff < align
      invariant left > 0 ==> offsetAlign + offsetDiff == offset + offsetDest
      invariant Moved(c0, dev.cells, d0, data[..], at, offset, offsetDest, write)
      invariant n <= |dev.log| && (even ==> Multiple(offsetAlign, align) && Aligned(dev.log, n, align))
      invariant ServedSoFar(dev.canRead, dev.canWrite, offset, size, align, write, offsetDest, offsetDiff)
    {
      var sizeDest := if align - offsetDiff > left then left else align - offsetDiff;
      ghost var cells, bytes, calls := dev.cells, data[..], dev.log;
      var done := Chunk(dev, data, tmp, at + offsetDest, offsetAlign, offsetDiff, sizeDest, align, write);
      if even { StaysAligned(calls, dev.log, n, offsetAlign, align); }
      ServedNext(dev.canRead, dev.canWrite, offset, size, align, write, offsetDest, offsetDiff, sizeDest, done);
      if !done { return false, offsetDest; }
      assert Moved(cells, dev.cells, bytes, data[..], at + offsetDest, offset + offsetDest, sizeDest, write);
      MovedTwice(c0, cells, dev.cells, d0, bytes, data[..], at, offset, offsetDest, sizeDest, write);
      if even { NextAligned(offsetAlign, align); }
      offsetDest := offsetDest + sizeDest;
      offsetAlign := offsetAlign + align;
      left := left - sizeDest;
      offsetDiff := 0;
    }
    ServedEnd(dev.canRead, dev.canWrite, offset, size, align, write, offsetDiff);
    return true, size;
  }

  // One round: the bytes diff..diff+n of the aligned block. False if a handler is missing, with nothing moved.
  method Chunk(dev: ByteDevice, data: array<Byte>, tmp: array<Byte>, at: nat, block: nat, diff: nat, n: nat,
               align: nat, write: bool)
    returns (ok: bool)
    requires diff + n <= align <= tmp.Length && at + n <= data.Length && tmp != data
    modifies dev, data, tmp
    ensures ok <==> if write then dev.canWrite && (dev.canRead || (diff == 0 && n == align)) else dev.canRead
    ensures ok ==> Moved(old(dev.cells), dev.cells, old(data[..]), data[..], at, block + diff, n, write)
    ensures !ok ==> dev.cells == old(dev.cells) && data[..] == old(data[..])
    ensures Logged(old(dev.log), dev.log, Call(block, align))
  {
    if write {
      ok := WriteChunk(dev, data, tmp, at, block, diff, n, align);
    } else {
      if !dev.canRead { return false; }
      dev.Read(tmp, 0, block, align);
      CopyBytes(data, at, tmp, diff, n);
      ok := true;
    }
  }

  // Read the block back first unless all of it is written
  method WriteChunk(dev: ByteDevice, data: array<Byte>, tmp: array<Byte>, at: nat, block: nat, diff: nat,
                    n: nat, align: nat)
    returns (ok: bool)
    requires diff + n <= align <= tmp.Length && at + n <= data.Length && tmp != data
    modifies dev, tmp
    ensures ok <==> dev.canWrite && (dev.canRead || (diff == 0 && n == align))
    ensures ok ==> Stored(old(dev.cells), dev.cells, block + diff, data[at..at + n])
    ensures !ok ==> dev.cells == old(dev.cells)
    ensures Logged(old(dev.log), dev.log, Call(block, align))
  {
    if diff != 0 || n != align {
      if !dev.canRead { return false; }
      dev.Read(tmp, 0, block, align);
    }
    CopyBytes(tmp, diff, data, at, n);
    ghost var blk, src := tmp[0..align], data[at..at + n];
    assert forall k :: 0 <= k < align ==>
        blk[k] == if diff <= k < diff + n then src[k - diff] else dev.cells(block + k);
    if !dev.canWrite { return false; }
    dev.Write(tmp, 0, block, align);
    Merged(old(dev.cells), dev.cells, blk, src, block, diff);
    ok := true;
  }

  // Only calls equal to `c` have been added
  predicate Logged(was: seq<Call>, now: seq<Call>, c: Call)
    ensures Logged(was, now, c) ==> |was| <= |now|
  {
    |was| <= |now| && now[..|was|] == was && forall i :: |was| <= i < |now| ==> now[i] == c
  }

  // memcpy between distinct buffers
  method CopyBytes(dst: array<Byte>, d: nat, src: array<Byte>, s: nat, n: nat)
    requires dst != src && d + n <= dst.Length && s + n <= src.Length
    modifies dst
    ensures forall i :: 0 <= i < dst.Length ==> dst[i] == if d <= i < d + n then src[s + (i - d)] else old(dst[i])
  {
    for k := 0 to n
      invariant forall i :: 0 <= i < dst.Length ==> dst[i] == if d <= i < d + k then src[s + (i - d)] else old(dst[i])
    {
      dst[d + k] := src[s + k];
    }
  }

  /** An access the scan hands to the device, directly or realigned. Without a handler for it the caller's buffer is
      zeroed and the device keeps its contents. */
  method DeviceOp(dev: ByteDevice, data: array<Byte>, at: nat, offset: nat, size: nat, write: bool)
    returns (ghost moved: nat)
    requires 0 < dev.minOp <= dev.maxOp && dev.minOp <= 8 && 0 < size <= 16 && at + size <= data.Length
    modifies dev, data
    ensures moved <= size
    ensures (if write then dev.canWrite else dev.canRead) ==>
              && Moved(old(dev.cells), dev.cells, old(data[..]), data[..], at, offset, moved, write)
              && (dev.canRead ==> moved == size)
    ensures !(if write then dev.canWrite else dev.canRead) ==>
              && dev.cells == old(dev.cells)
              && forall i :: 0 <= i < data.Length ==> data[i] == if at <= i < at + size then 0 else old(data[i])
    ensures |old(dev.log)| <= |dev.log|
    ensures PowerOfTwoSizes(size, dev.minOp, dev.maxOp) ==>
              var len := Align(size, dev.minOp, dev.maxOp);
              dev.minOp <= len <= dev.maxOp && Aligned(dev.log, |old(dev.log)|, len)
  {
    moved := size;
    if !(if write then dev.canWrite else dev.canRead) {
      for k := 0 to size
        modifies data
        invariant forall i :: 0 <= i < data.Length ==> data[i] == if at <= i < at + k then 0 else old(data[i])
      {
        data[at + k] := 0;
      }
    } else if dev.minOp <= size <= dev.maxOp && And(offset, size - 1) == 0 {
      if PowerOfTwo(size) { AlignDown(offset, size); }
      if write { dev.Write(data, at, offset, size); } else { dev.Read(data, at, offset, size); }
    } else {
      var _, m := UnalignedOp(dev, data, at, offset, size, write);
      moved := m;
    }
  }
}
