/**
 * The software TLB: 256 direct-mapped entries, each with one host pointer shared by three tags.
 * A tag holds the virtual page number it is valid for; an invalid tag is a number that no lookup
 * at its index can ask for. Pointers are stored with the virtual address subtracted, modulo 2^64.
 */
module Tlb {
  import opened PageTable
  import opened Words

  const TLB_SIZE: nat := 256
  const PAGES: nat := 0x10_0000_0000_0000  // number of virtual page numbers, 2^52

  datatype Entry = Entry(r: Word, w: Word, e: Word, ptr: Word) {
    // The tag consulted by an access of the given kind
    function Tag(acc: Access): Word {
      match acc
      case Read => r
      case Write => w
      case Exec => e
    }
  }

  type Table = t: seq<Entry> | |t| == TLB_SIZE witness seq(256, i => Entry(0, 0, 0, 0))

  function Vpn(va: Word): nat { va / PAGE }

  function At(t: Table, vpn: nat): Entry { t[vpn % TLB_SIZE] }

  predicate Hit(t: Table, va: Word, acc: Access) { At(t, Vpn(va)).Tag(acc) == Vpn(va) }

  // The host pointer used on a hit
  function HitPtr(t: Table, va: Word): Word { Wrap(At(t, Vpn(va)).ptr + va) }

  // riscv_tlb_flush: zero everywhere, except that page zero is tagged out of range
  function Flushed(): Table {
    seq(TLB_SIZE, i => if i == 0 then Entry(TWO64 - 1, TWO64 - 1, TWO64 - 1, 0) else Entry(0, 0, 0, 0))
  }

  // riscv_tlb_flush_page
  function PageFlushed(t: Table, va: Word): Table {
    var vpn := Vpn(va);
    var e := At(t, vpn);
    var off := Wrap(vpn - 1);
    t[vpn % TLB_SIZE := e.(r := if e.r == vpn then off else e.r,
                           w := if e.w == vpn then off else e.w,
                           e := if e.e == vpn then off else e.e)]
  }

  // riscv_tlb_put
  function Put(t: Table, va: Word, ptr: nat, acc: Access): Table {
    var vpn := Vpn(va);
    var e := At(t, vpn);
    var off := Wrap(vpn - 1);
    var keep := (tag: Word) => if tag == vpn then tag else off;
    var p := Wrap(ptr - va);
    t[vpn % TLB_SIZE :=
      match acc
      case Read => Entry(vpn, keep(e.w), keep(e.e), p)
      case Write => Entry(vpn, vpn, keep(e.e), p)
      case Exec => Entry(keep(e.r), off, vpn, p)]
  }

  /** The off-by-one tag never matches a page number that maps to the same index. */
  lemma OffByOneMisses(vpn: nat, other: nat)
    requires vpn < PAGES && other < PAGES && other % TLB_SIZE == vpn % TLB_SIZE
    ensures Wrap(vpn - 1) != other
  {
  }

  /** After a full flush nothing hits. */
  lemma FlushedMisses(va: Word, acc: Access)
    ensures !Hit(Flushed(), va, acc)
  {
  }

  /** After a page flush that page does not hit, and the other pages hit exactly as before. */
  lemma PageFlushedHits(t: Table, va: Word, vb: Word, acc: Access)
    ensures Vpn(vb) == Vpn(va) ==> !Hit(PageFlushed(t, va), vb, acc)
    ensures Vpn(vb) != Vpn(va) ==> (Hit(PageFlushed(t, va), vb, acc) <==> Hit(t, vb, acc))
    ensures HitPtr(PageFlushed(t, va), vb) == HitPtr(t, vb)
  {
    if Vpn(vb) % TLB_SIZE == Vpn(va) % TLB_SIZE {
      OffByOneMisses(Vpn(va), Vpn(vb));
      OffByOneMisses(Vpn(va), Vpn(va));
    }
  }

  /**
   * What hits after a fill: the filled page for the filled access (a write also serves reads), its
   * other accesses as before except that an instruction fill drops write, and no page evicted from
   * the shared index; every other index is untouched.
   */
  lemma PutHits(t: Table, va: Word, ptr: nat, acc: Access, vb: Word, acc': Access)
    ensures var u := Put(t, va, ptr, acc);
            if Vpn(vb) == Vpn(va) then
              && HitPtr(u, vb) == Wrap(ptr - va + vb)
              && (Hit(u, vb, acc') <==>
                  || acc' == acc || (acc == Write && acc' == Read)
                  || (Hit(t, vb, acc') && !(acc == Exec && acc' == Write)))
            else if Vpn(vb) % TLB_SIZE == Vpn(va) % TLB_SIZE then !Hit(u, vb, acc')
            else At(u, Vpn(vb)) == At(t, Vpn(vb))
  {
    if Vpn(vb) % TLB_SIZE == Vpn(va) % TLB_SIZE {
      OffByOneMisses(Vpn(va), Vpn(vb));
      OffByOneMisses(Vpn(va), Vpn(va));
      WrapAdd(ptr - va, vb);
    }
  }
}
