/**
 * The two-pass devicetree writer: one pass adds up sizes, the other writes the structure block and
 * the strings block through two cursors into one zeroed buffer.
 */
module FdtWriter {
  import opened FdtFormat
  import opened FdtLayout
  import opened Options
  import opened Words

  // ------------------------------------------------------------ sizes do not depend on name offsets

  lemma {:induction false} PropLength(p: Prop, base: nat)
    ensures |StructOfProp(p, base)| == |StructOfProp(p, 0)|
  {
  }

  lemma {:induction false} PropsLength(props: seq<Prop>, a: nat, b: nat)
    ensures |StructOfProps(props, a)| == |StructOfProps(props, b)|
    decreases |props|
  {
    hide StructOfProp, NameBytes, Up4;
    if |props| > 0 {
      var k := |NameBytes(props[0].name)|;
      PropLength(props[0], a);
      PropLength(props[0], b);
      PropsLength(props[1..], a + k, b + k);
    }
  }

  lemma {:induction false} NodeLength(n: Node, a: nat, b: nat)
    ensures |StructOf(n, a)| == |StructOf(n, b)|
    decreases n, 1
  {
    hide StructOfProps, StructOfAll, StringsOfProps, NameBytes, U32;
    var k := |StringsOfProps(n.props)|;
    PropsLength(n.props, a, b);
    AllLength(n.kids, a + k, b + k);
  }

  lemma {:induction false} AllLength(kids: seq<Node>, a: nat, b: nat)
    ensures |StructOfAll(kids, a)| == |StructOfAll(kids, b)|
    decreases kids, 0
  {
    hide StructOf, StringsOf;
    if |kids| > 0 {
      var k := |StringsOf(kids[0])|;
      NodeLength(kids[0], a, b);
      AllLength(kids[1..], a + k, b + k);
    }
  }

  // ------------------------------------------------------------ size pass

  class SizeDesc {
    var structSize: nat
    var stringSize: nat

    constructor ()
      ensures structSize == 0 && stringSize == 0
    {
      structSize, stringSize := 0, 0;
    }

    // fdt_get_tree_size
    method AddTree(n: Node)
      modifies this
      ensures structSize == old(structSize) + |StructOf(n, 0)|
      ensures stringSize == old(stringSize) + |StringsOf(n)|
      decreases n
    {
      hide StructOfProp, NameBytes, U32;
      structSize := structSize + 4 + Up4(|n.name| + 1);
      AddProps(n.props);
      ghost var k := |StringsOfProps(n.props)|;
      var i := 0;
      ghost var s, t := structSize, stringSize;
      while i < |n.kids|
        invariant i <= |n.kids|
        invariant structSize + |StructOfAll(n.kids[i..], 0)| == s + |StructOfAll(n.kids, 0)|
        invariant stringSize + |StringsOfAll(n.kids[i..])| == t + |StringsOfAll(n.kids)|
      {
        AddTree(n.kids[i]);
        assert n.kids[i..][1..] == n.kids[i + 1..];
        AllLength(n.kids[i + 1..], |StringsOf(n.kids[i])|, 0);
        i := i + 1;
      }
      AllLength(n.kids, k, 0);
      structSize := structSize + 4;
    }

    method AddProps(props: seq<Prop>)
      modifies this
      ensures structSize == old(structSize) + |StructOfProps(props, 0)|
      ensures stringSize == old(stringSize) + |StringsOfProps(props)|
    {
      var i := 0;
      while i < |props|
        invariant i <= |props|
        invariant structSize + |StructOfProps(props[i..], 0)| == old(structSize) + |StructOfProps(props, 0)|
        invariant stringSize + |StringsOfProps(props[i..])| == old(stringSize) + |StringsOfProps(props)|
      {
        assert props[i..][1..] == props[i + 1..];
        PropsLength(props[i + 1..], |NameBytes(props[i].name)|, 0);
        structSize := structSize + 4 * 3;
        structSize := structSize + Up4(|props[i].data|);
        stringSize := stringSize + Up4(|props[i].name| + 1);
        i := i + 1;
      }
    }
  }

  // ------------------------------------------------------------ emit pass

  // The buffer after `s` has been written at `off`
  predicate Wrote(was: seq<Byte>, now: seq<Byte>, off: nat, s: seq<Byte>) {
    && |was| == |now| && off + |s| <= |was|
    && forall i :: 0 <= i < |was| ==> now[i] == if off <= i < off + |s| then s[i - off] else was[i]
  }

  // Writing into zeroes and rounding the cursor up appends the padded bytes
  lemma Appends(was: seq<Byte>, now: seq<Byte>, lo: nat, off: nat, s: seq<Byte>)
    requires Wrote(was, now, off, s) && lo <= off && off + Up4(|s|) <= |was|
    requires forall i :: off <= i < off + Up4(|s|) ==> was[i] == 0
    ensures now[lo..off + Up4(|s|)] == was[lo..off] + Padded(s)
  {
    hide Up4;
    var l, r := now[lo..off + Up4(|s|)], was[lo..off] + Padded(s);
    forall i | 0 <= i < |l| ensures l[i] == r[i] {
      if i < off - lo {
        assert l[i] == was[lo + i];
      } else {
        assert l[i] == now[lo + i] && r[i] == Padded(s)[i - (off - lo)];
      }
    }
  }

  lemma AlignSum(off: nat, k: nat)
    requires off % 4 == 0
    ensures Up4(off + k) == off + Up4(k)
  {
  }

  class Writer {
    const buf: array<Byte>
    const stringsBegin: nat
    ghost const limit: nat
    var structOff: nat
    var stringsOff: nat

    constructor (buf: array<Byte>, stringsBegin: nat, ghost limit: nat)
      ensures this.buf == buf && this.stringsBegin == stringsBegin && this.limit == limit
      ensures structOff == 56 && stringsOff == stringsBegin
    {
      this.buf, this.stringsBegin, this.limit := buf, stringsBegin, limit;
      structOff, stringsOff := 56, stringsBegin;
    }

    // Cursors in order and aligned; everything ahead of them is still zero
    ghost predicate Valid()
      reads this, buf
      ensures Valid() ==> 56 <= structOff <= stringsBegin <= stringsOff <= limit <= buf.Length
    {
      && 56 <= structOff <= stringsBegin <= stringsOff <= limit <= buf.Length
      && structOff % 4 == 0 && stringsOff % 4 == 0
      && (forall i :: structOff <= i < stringsBegin ==> buf[i] == 0)
      && (forall i :: stringsOff <= i < limit ==> buf[i] == 0)
    }

    // Where the next name goes in the strings block
    ghost function Base(): nat
      requires Valid()
      reads this, buf
    {
      stringsOff - stringsBegin
    }

    ghost function StructOut(): (s: seq<Byte>)
      requires Valid()
      reads this, buf
      ensures |s| == structOff - 56
    {
      buf[56..structOff]
    }

    ghost function StringsOut(): (s: seq<Byte>)
      requires Valid()
      reads this, buf
      ensures |s| == stringsOff - stringsBegin
    {
      buf[stringsBegin..stringsOff]
    }

    // The header, and what lies past the limit
    ghost function Outside(): (seq<Byte>, seq<Byte>)
      requires Valid()
      reads this, buf
    {
      (buf[..56], buf[limit..])
    }

    method Copy(off: nat, s: seq<Byte>)
      requires off + |s| <= buf.Length
      modifies buf
      ensures Wrote(old(buf[..]), buf[..], off, s)
    {
      for k := 0 to |s|
        invariant forall i :: 0 <= i < buf.Length ==> buf[i] == if off <= i < off + k then s[i - off] else old(buf[i])
      {
        buf[off + k] := s[k];
      }
    }

    // At the structure cursor, which then moves past the bytes and their padding
    method PutStruct(s: seq<Byte>)
      requires Valid() && structOff + Up4(|s|) <= stringsBegin
      modifies this`structOff, buf
      ensures Valid() && Outside() == old(Outside())
      ensures StructOut() == old(StructOut()) + Padded(s) && StringsOut() == old(StringsOut())
    {
      hide Up4, Padded;
      ghost var was := buf[..];
      Copy(structOff, s);
      Appends(was, buf[..], 56, structOff, s);
      AlignSum(structOff, |s|);
      structOff := Up4(structOff + |s|);
      assert buf[..56] == old(buf[..56]) && buf[limit..] == old(buf[limit..]);
    }

    // fdt_serialize_name
    method PutName(name: seq<Byte>)
      requires Valid() && stringsOff + |NameBytes(name)| <= limit
      modifies this`stringsOff, buf
      ensures Valid() && Outside() == old(Outside())
      ensures StructOut() == old(StructOut()) && StringsOut() == old(StringsOut()) + NameBytes(name)
    {
      hide Up4, Padded;
      ghost var was := buf[..];
      Copy(stringsOff, name + [0]);
      Appends(was, buf[..], stringsBegin, stringsOff, name + [0]);
      AlignSum(stringsOff, |name| + 1);
      stringsOff := Up4(stringsOff + |name| + 1);
      assert buf[..56] == old(buf[..56]) && buf[limit..] == old(buf[limit..]);
    }

    // fdt_serialize_u32
    method PutU32(v: nat)
      requires Valid() && structOff + 4 <= stringsBegin
      modifies this`structOff, buf
      ensures Valid() && Outside() == old(Outside())
      ensures StructOut() == old(StructOut()) + U32(v) && StringsOut() == old(StringsOut())
    {
      assert Padded(U32(v)) == U32(v);
      PutStruct(U32(v));
    }

    // fdt_serialize_string
    method PutString(name: seq<Byte>)
      requires Valid() && structOff + |NameBytes(name)| <= stringsBegin
      modifies this`structOff, buf
      ensures Valid() && Outside() == old(Outside())
      ensures StructOut() == old(StructOut()) + NameBytes(name) && StringsOut() == old(StringsOut())
    {
      PutStruct(name + [0]);
    }

    method PutProp(p: Prop)
      requires Valid() && structOff + |StructOfProp(p, 0)| <= stringsBegin && stringsOff + |NameBytes(p.name)| <= limit
      modifies this, buf
      ensures Valid() && Outside() == old(Outside())
      ensures StructOut() == old(StructOut()) + StructOfProp(p, old(Base()))
      ensures StringsOut() == old(StringsOut()) + NameBytes(p.name)
    {
      hide U32, Padded, NameBytes, Up4, Valid, StructOut, StringsOut, Outside;
      ghost var s0, base := StructOut(), Base();
      PutU32(PROP);
      PutU32(|p.data|);
      PutU32(stringsOff - stringsBegin);
      PutStruct(p.data);
      PutName(p.name);
      assert StructOut() == s0 + U32(PROP) + U32(|p.data|) + U32(base) + Padded(p.data);
      assert StructOut() == s0 + StructOfProp(p, base);
    }

    method PutProps(props: seq<Prop>)
      requires Valid() && structOff + |StructOfProps(props, 0)| <= stringsBegin
      requires stringsOff + |StringsOfProps(props)| <= limit
      modifies this, buf
      ensures Valid() && Outside() == old(Outside())
      ensures StructOut() == old(StructOut()) + StructOfProps(props, old(Base()))
      ensures StringsOut() == old(StringsOut()) + StringsOfProps(props)
    {
      hide StructOfProp, NameBytes, Valid, StructOut, StringsOut, Outside;
      ghost var s0, t0, base := StructOut(), StringsOut(), Base();
      PropsLength(props, 0, base);
      var i := 0;
      while i < |props|
        invariant i <= |props| && Valid() && Outside() == old(Outside())
        invariant StructOut() + StructOfProps(props[i..], Base()) == s0 + StructOfProps(props, base)
        invariant StringsOut() + StringsOfProps(props[i..]) == t0 + StringsOfProps(props)
      {
        ghost var b := Base();
        PropsNext(props, i, b);
        PropLength(props[i], b);
        ghost var s, t := StructOut(), StringsOut();
        PutProp(props[i]);
        assert s + StructOfProps(props[i..], b) == StructOut() + StructOfProps(props[i + 1..], Base());
        assert t + StringsOfProps(props[i..]) == StringsOut() + StringsOfProps(props[i + 1..]);
        i := i + 1;
      }
    }

    method PutKids(kids: seq<Node>)
      requires Valid() && structOff + |StructOfAll(kids, 0)| <= stringsBegin
      requires stringsOff + |StringsOfAll(kids)| <= limit
      modifies this, buf
      ensures Valid() && Outside() == old(Outside())
      ensures StructOut() == old(StructOut()) + StructOfAll(kids, old(Base()))
      ensures StringsOut() == old(StringsOut()) + StringsOfAll(kids)
      decreases kids, 0
    {
      hide StructOf, StringsOf, Valid, StructOut, StringsOut, Outside;
      ghost var s0, t0, base := StructOut(), StringsOut(), Base();
      AllLength(kids, 0, base);
      var i := 0;
      while i < |kids|
        invariant i <= |kids| && Valid() && Outside() == old(Outside())
        invariant StructOut() + StructOfAll(kids[i..], Base()) == s0 + StructOfAll(kids, base)
        invariant StringsOut() + StringsOfAll(kids[i..]) == t0 + StringsOfAll(kids)
      {
        ghost var b := Base();
        KidsNext(kids, i, b);
        NodeLength(kids[i], b, 0);
        ghost var s, t := StructOut(), StringsOut();
        PutTree(kids[i]);
        assert s + StructOfAll(kids[i..], b) == StructOut() + StructOfAll(kids[i + 1..], Base());
        assert t + StringsOfAll(kids[i..]) == StringsOut() + StringsOfAll(kids[i + 1..]);
        i := i + 1;
      }
    }

    // fdt_serialize_tree
    method PutTree(n: Node)
      requires Valid() && structOff + |StructOf(n, 0)| <= stringsBegin && stringsOff + |StringsOf(n)| <= limit
      modifies this, buf
      ensures Valid() && Outside() == old(Outside())
      ensures StructOut() == old(StructOut()) + StructOf(n, old(Base()))
      ensures StringsOut() == old(StringsOut()) + StringsOf(n)
      decreases n, 1
    {
      hide U32, NameBytes, StructOfProps, StructOfAll, StringsOfProps, StringsOfAll;
      hide Valid, StructOut, StringsOut, Outside;
      ghost var s0, t0, base := StructOut(), StringsOut(), Base();
      ghost var k := |StringsOfProps(n.props)|;
      PropsLength(n.props, 0, base);
      AllLength(n.kids, k, 0);
      AllLength(n.kids, base + k, 0);
      PutU32(BEGIN_NODE);
      PutString(n.name);
      PutProps(n.props);
      PutKids(n.kids);
      PutU32(END_NODE);
      Appended(s0, U32(BEGIN_NODE), NameBytes(n.name), StructOfProps(n.props, base),
               StructOfAll(n.kids, base + k), U32(END_NODE));
      assert t0 + StringsOfProps(n.props) + StringsOfAll(n.kids) == t0 + StringsOf(n);
    }

    /** The emit pass: the structure cursor ends at the start of the strings block, and the strings cursor at the size
        the first pass computed. */
    method PutAll(n: Node)
      requires Valid() && structOff == 56 && stringsOff == stringsBegin
      requires stringsBegin == 56 + |StructBlock(n)| && limit == stringsBegin + |StringsOf(n)|
      modifies this, buf
      ensures Valid() && structOff == stringsBegin && stringsOff == limit
      ensures StructOut() == StructBlock(n) && StringsOut() == StringsOf(n) && Outside() == old(Outside())
    {
      hide StructOf, StringsOf, U32, Valid, StructOut, StringsOut, Outside;
      PutTree(n);
      PutU32(END);
    }
  }

  lemma Appended(s: seq<Byte>, a: seq<Byte>, b: seq<Byte>, c: seq<Byte>, d: seq<Byte>, e: seq<Byte>)
    ensures ((((s + a) + b) + c) + d) + e == s + (a + b + c + d + e)
  {
  }

  lemma {:induction false} PropsNext(props: seq<Prop>, i: nat, b: nat)
    requires i < |props|
    ensures StructOfProps(props[i..], b)
              == StructOfProp(props[i], b) + StructOfProps(props[i + 1..], b + |NameBytes(props[i].name)|)
    ensures StringsOfProps(props[i..]) == NameBytes(props[i].name) + StringsOfProps(props[i + 1..])
  {
    hide StructOfProp, NameBytes;
    assert props[i..][1..] == props[i + 1..];
  }

  lemma {:induction false} KidsNext(kids: seq<Node>, i: nat, b: nat)
    requires i < |kids|
    ensures StructOfAll(kids[i..], b) == StructOf(kids[i], b) + StructOfAll(kids[i + 1..], b + |StringsOf(kids[i])|)
    ensures StringsOfAll(kids[i..]) == StringsOf(kids[i]) + StringsOfAll(kids[i + 1..])
  {
    hide StructOf, StringsOf;
    assert kids[i..][1..] == kids[i + 1..];
  }

  // ------------------------------------------------------------ the serialiser

  // memset
  method Clear(buf: array<Byte>, n: nat)
    requires n <= buf.Length
    modifies buf
    ensures buf[..n] == Zeros(n) && buf[n..] == old(buf[n..])
  {
    for k := 0 to n
      invariant forall i :: 0 <= i < buf.Length ==> buf[i] == if i < k then 0 else old(buf[i])
    {
      buf[k] := 0;
    }
  }

  lemma {:induction false} NumbersSnoc(ws: seq<nat>, x: nat)
    ensures Numbers(ws + [x]) == Numbers(ws) + U32(x)
    decreases |ws|
  {
    hide U32;
    if |ws| == 0 {
      assert ws + [x] == [x] && [x][1..] == [];
      assert Numbers([]) == [];
    } else {
      assert (ws + [x])[1..] == ws[1..] + [x];
      NumbersSnoc(ws[1..], x);
    }
  }

  // The first `m` words of the header are in place, and the rest is zero
  predicate Headed(b: seq<Byte>, ws: seq<nat>, m: nat) {
    && m <= |ws| && 4 * |ws| <= |b| && b[..4 * m] == Numbers(ws[..m])
    && forall i :: 4 * m <= i < 4 * |ws| ==> b[i] == 0
  }

  lemma HeadedNext(was: seq<Byte>, now: seq<Byte>, ws: seq<nat>, m: nat)
    requires m < |ws| && Headed(was, ws, m)
    requires Wrote(was, now, 4 * m, U32(ws[m])) || (was == now && ws[m] == 0)
    ensures Headed(now, ws, m + 1)
  {
    NumbersSnoc(ws[..m], ws[m]);
    assert ws[..m + 1] == ws[..m] + [ws[m]];
    assert now[..4 * (m + 1)] == now[..4 * m] + now[4 * m..4 * (m + 1)];
    assert now[..4 * m] == was[..4 * m];
    assert now[4 * m..4 * (m + 1)] == U32(ws[m]);
  }

  // Write one header word
  method PutWord(buf: array<Byte>, ghost ws: seq<nat>, ghost m: nat, at: nat, v: nat)
    requires m < |ws| && at == 4 * m && v == ws[m] && Headed(buf[..], ws, m)
    modifies buf
    ensures Headed(buf[..], ws, m + 1) && buf[4 * |ws|..] == old(buf[4 * |ws|..])
  {
    ghost var was := buf[..];
    buf[at], buf[at + 1], buf[at + 2], buf[at + 3] := v / 0x1000000 % 256, v / 0x10000 % 256, v / 0x100 % 256, v % 256;
    assert Wrote(was, buf[..], 4 * m, U32(v));
    HeadedNext(was, buf[..], ws, m);
  }

  method PutHeader(buf: array<Byte>, ghost ws: seq<nat>, total: nat, structOff: nat, stringsOff: nat,
                   reserveOff: nat, stringSize: nat, structSize: nat)
    requires ws == [0xD00DFEED, total, structOff, stringsOff, reserveOff, 17, 16, 0, stringSize, structSize]
    requires Headed(buf[..], ws, 0)
    modifies buf
    ensures buf[..40] == Numbers(ws) && buf[40..] == old(buf[40..])
  {
    hide Headed, Numbers;
    ghost var first := buf[..];
    PutWord(buf, ws, 0, 0, 0xD00DFEED);
    PutWord(buf, ws, 1, 4, total);
    PutWord(buf, ws, 2, 8, structOff);
    PutWord(buf, ws, 3, 12, stringsOff);
    PutWord(buf, ws, 4, 16, reserveOff);
    PutWord(buf, ws, 5, 20, 17);
    PutWord(buf, ws, 6, 24, 16);
    HeadedNext(buf[..], buf[..], ws, 7);
    PutWord(buf, ws, 8, 32, stringSize);
    PutWord(buf, ws, 9, 36, structSize);
    HeadedAll(buf[..], ws);
  }

  lemma HeadedAll(b: seq<Byte>, ws: seq<nat>)
    requires Headed(b, ws, |ws|)
    ensures 4 * |ws| <= |b| && b[..4 * |ws|] == Numbers(ws)
  {
    assert ws[..|ws|] == ws;
  }

  lemma HeadedNone(b: seq<Byte>, ws: seq<nat>, n: nat)
    requires 4 * |ws| <= n <= |b| && b[..n] == Zeros(n)
    ensures Headed(b, ws, 0)
  {
    assert forall i :: 0 <= i < n ==> b[i] == b[..n][i];
    assert ws[..0] == [] && b[..0] == [];
  }

  /** rvvm_fdt_serialize: without a buffer the size alone, 0 if the buffer is too small, and otherwise the blob. */
  method Serialize(n: Node, buf: array?<Byte>, size: nat) returns (r: nat)
    requires |Blob(n)| < LIMIT && (buf != null ==> size <= buf.Length)
    modifies buf
    ensures r == if buf != null && |Blob(n)| > size then 0 else |Blob(n)|
    ensures buf != null && r > 0 ==> buf[..r] == Blob(n) && Conforms(buf[..r], n)
    ensures buf != null ==> buf[r..] == old(buf[r..])
  {
    hide StructOf, StringsOf, U32, Zeros, Conforms;
    BlobConforms(n);
    var desc := new SizeDesc();
    desc.AddTree(n);
    var structSize, stringSize := desc.structSize + 4, desc.stringSize;
    var stringsBegin := 40 + 16 + structSize;
    r := stringsBegin + stringSize;
    assert r == |Blob(n)|;
    if buf != null {
      if r > size { return 0; }
      Emit(n, buf, r, stringsBegin, stringSize, structSize);
    }
  }

  // Clear the buffer, then write the header, the tree and the end token
  method Emit(n: Node, buf: array<Byte>, r: nat, stringsBegin: nat, stringSize: nat, structSize: nat)
    requires structSize == |StructBlock(n)| && stringSize == |StringsOf(n)| && stringsBegin == 56 + structSize
    requires r == stringsBegin + stringSize <= buf.Length
    modifies buf
    ensures buf[..r] == Blob(n) && buf[r..] == old(buf[r..])
  {
    hide StructBlock, StringsOf, Numbers, Headed;
    Clear(buf, r);
    ghost var zero, rest := buf[..], buf[r..];
    HeadedNone(zero, Fields(n), r);
    PutHeader(buf, Fields(n), r, 56, stringsBegin, 40, stringSize, structSize);
    ghost var head := buf[..];
    var ctx := new Writer(buf, stringsBegin, r);
    HeadKeepsZero(zero, head, r);
    BlocksAligned(n);
    assert ctx.Valid();
    ctx.PutAll(n);
    BlobIs(n, buf[..], head, zero, stringsBegin, r);
    assert buf[r..] == ctx.Outside().1;
  }

  lemma HeadKeepsZero(zero: seq<Byte>, head: seq<Byte>, r: nat)
    requires 56 <= r <= |zero| == |head| && zero[..r] == Zeros(r) && head[40..] == zero[40..]
    ensures head[40..56] == Zeros(16) && head[r..] == zero[r..] && forall i :: 56 <= i < r ==> head[i] == 0
  {
    assert forall i :: 40 <= i < |zero| ==> head[i] == head[40..][i - 40] == zero[i];
    assert forall i :: 0 <= i < r ==> zero[i] == zero[..r][i];
  }

  lemma {:induction false} BlobIs(n: Node, b: seq<Byte>, head: seq<Byte>, zero: seq<Byte>, mid: nat, r: nat)
    requires 56 <= mid <= r <= |b| == |head| && mid == 56 + |StructBlock(n)| && b[..56] == head[..56]
    requires head[..40] == Numbers(Fields(n)) && head[40..56] == Zeros(16)
    requires b[56..mid] == StructBlock(n) && b[mid..r] == StringsOf(n)
    ensures b[..r] == Blob(n)
  {
    hide Numbers, Fields, StructBlock, StringsOf, Zeros;
    assert b[..56] == head[..40] + head[40..56];
    assert b[..r] == b[..56] + b[56..mid] + b[mid..r];
  }

  // ------------------------------------------------------------ alignment

  predicate Whole(s: seq<Byte>) { |s| % 4 == 0 }

  lemma WholeSum(a: seq<Byte>, b: seq<Byte>)
    requires Whole(a) && Whole(b)
    ensures Whole(a + b)
  {
  }

  lemma {:induction false} WholeParts(name: seq<Byte>, p: Prop, base: nat, v: nat)
    ensures Whole(NameBytes(name)) && Whole(StructOfProp(p, base)) && Whole(U32(v)) && Whole([])
  {
    hide Up4;
    WholeSum(U32(PROP), U32(|p.data|));
    WholeSum(U32(PROP) + U32(|p.data|), U32(base));
    WholeSum(U32(PROP) + U32(|p.data|) + U32(base), Padded(p.data));
  }

  lemma {:induction false} PropsAligned(props: seq<Prop>, base: nat)
    ensures Whole(StructOfProps(props, base)) && Whole(StringsOfProps(props))
    decreases |props|
  {
    hide Whole, NameBytes, StructOfProp, U32;
    if |props| > 0 {
      var b := base + |NameBytes(props[0].name)|;
      WholeParts(props[0].name, props[0], base, 0);
      PropsAligned(props[1..], b);
      WholeSum(StructOfProp(props[0], base), StructOfProps(props[1..], b));
      WholeSum(NameBytes(props[0].name), StringsOfProps(props[1..]));
    } else {
      WholeParts([], Prop([], []), 0, 0);
    }
  }

  lemma {:induction false} NodeAligned(n: Node, base: nat)
    ensures Whole(StructOf(n, base)) && Whole(StringsOf(n))
    decreases n, 1
  {
    hide Whole, NameBytes, StructOfProps, StructOfAll, StringsOfProps, StringsOfAll, U32;
    var b := base + |StringsOfProps(n.props)|;
    PropsAligned(n.props, base);
    AllAligned(n.kids, b);
    WholeParts(n.name, Prop([], []), 0, BEGIN_NODE);
    WholeParts(n.name, Prop([], []), 0, END_NODE);
    WholeSum(StringsOfProps(n.props), StringsOfAll(n.kids));
    WholeSum(U32(BEGIN_NODE), NameBytes(n.name));
    WholeSum(U32(BEGIN_NODE) + NameBytes(n.name), StructOfProps(n.props, base));
    WholeSum(U32(BEGIN_NODE) + NameBytes(n.name) + StructOfProps(n.props, base), StructOfAll(n.kids, b));
    WholeSum(U32(BEGIN_NODE) + NameBytes(n.name) + StructOfProps(n.props, base) + StructOfAll(n.kids, b),
             U32(END_NODE));
  }

  lemma {:induction false} AllAligned(kids: seq<Node>, base: nat)
    ensures Whole(StructOfAll(kids, base)) && Whole(StringsOfAll(kids))
    decreases kids, 0
  {
    hide Whole, StructOf, StringsOf;
    if |kids| > 0 {
      var b := base + |StringsOf(kids[0])|;
      NodeAligned(kids[0], base);
      AllAligned(kids[1..], b);
      WholeSum(StructOf(kids[0], base), StructOfAll(kids[1..], b));
      WholeSum(StringsOf(kids[0]), StringsOfAll(kids[1..]));
    } else {
      WholeParts([], Prop([], []), 0, 0);
    }
  }

  lemma {:induction false} BlocksAligned(n: Node)
    ensures |StructBlock(n)| % 4 == 0
  {
    hide StructOf;
    NodeAligned(n, 0);
  }

  /** Serialising a tree whose names hold no NUL and parsing the buffer gives the tree back. */
  method WriteThenParse(n: Node, buf: array<Byte>, size: nat) returns (back: Option<Node>)
    requires Wf(n) && |Blob(n)| < LIMIT && |Blob(n)| <= size <= buf.Length
    modifies buf
    ensures back == Some(n)
  {
    var r := Serialize(n, buf, size);
    assert r > 0;
    back := Parse(buf[..r]);
    RoundTrip(n);
  }
}
