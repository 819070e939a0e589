/**
 * Where every byte of a devicetree blob belongs, as sections 5.2 to 5.5 of the Devicetree Specification 0.4
 * lay it out: literal tokens, big-endian numbers, NUL-terminated names, zero padding. The bytes of a tree
 * in FdtFormat are laid out so.
 */
module FdtLayout {
  import opened FdtFormat
  import opened Words

  predicate BigEndian(b: seq<Byte>, at: nat, n: nat) {
    at + 4 <= |b| && n == (((b[at] as nat) * 256 + b[at + 1] as nat) * 256 + b[at + 2] as nat) * 256 + b[at + 3] as nat
  }

  // Zeros from the end of an item up to the next multiple of four
  predicate PaddedTo(b: seq<Byte>, at: nat, end: nat) {
    at <= end < at + 4 && end % 4 == 0 && end <= |b| && forall i :: at <= i < end ==> b[i] == 0
  }

  // Token 3, length, name offset, value, padding; the name is in the strings block
  predicate PropAt(b: seq<Byte>, at: nat, p: Prop, strings: nat, off: nat, end: nat) {
    && At(b, at, [0, 0, 0, 3]) && BigEndian(b, at + 4, |p.data|) && BigEndian(b, at + 8, off)
    && At(b, at + 12, p.data) && PaddedTo(b, at + 12 + |p.data|, end)
    && At(b, strings + off, p.name + [0])
  }

  ghost predicate PropsAt(b: seq<Byte>, at: nat, props: seq<Prop>, strings: nat, end: nat)
    decreases |props|
  {
    if props == [] then at == end
    else exists off: nat, next: nat ::
           PropAt(b, at, props[0], strings, off, next) && PropsAt(b, next, props[1..], strings, end)
  }

  // Token 1 and the name of a node
  predicate NamedAt(b: seq<Byte>, at: nat, name: seq<Byte>, end: nat) {
    At(b, at, [0, 0, 0, 1]) && At(b, at + 4, name + [0]) && PaddedTo(b, at + 5 + |name|, end)
  }

  // Token 1, name, properties, children, token 2
  ghost predicate NodeAt(b: seq<Byte>, at: nat, n: Node, strings: nat, end: nat)
    decreases n, 0
  {
    exists props: nat, kids: nat, last: nat ::
      && NamedAt(b, at, n.name, props) && PropsAt(b, props, n.props, strings, kids)
      && KidsAt(b, kids, n.kids, strings, last) && At(b, last, [0, 0, 0, 2]) && end == last + 4
  }

  ghost predicate KidsAt(b: seq<Byte>, at: nat, kids: seq<Node>, strings: nat, end: nat)
    decreases kids
  {
    if kids == [] then at == end
    else exists next: nat :: NodeAt(b, at, kids[0], strings, next) && KidsAt(b, next, kids[1..], strings, end)
  }

  // The header, an empty memory reservation block, one tree, token 9, and the strings up to the end
  ghost predicate Conforms(b: seq<Byte>, n: Node) {
    exists last: nat, strings: nat, size: nat ::
      && At(b, 0, [0xD0, 0x0D, 0xFE, 0xED]) && BigEndian(b, 4, |b|) && BigEndian(b, 8, 56) && BigEndian(b, 12, strings)
      && BigEndian(b, 16, 40) && BigEndian(b, 20, 17) && BigEndian(b, 24, 16) && BigEndian(b, 28, 0)
      && BigEndian(b, 32, size) && strings + size == |b| && last >= 52 && BigEndian(b, 36, last - 52)
      && At(b, 40, [0, 0, 0, 0, 0, 0, 0, 0, 0, 0, 0, 0, 0, 0, 0, 0])
      && NodeAt(b, 56, n, strings, last) && At(b, last, [0, 0, 0, 9]) && strings == last + 4
  }

  // ------------------------------------------------------------ pieces

  lemma AtBounds(b: seq<Byte>, at: nat, x: seq<Byte>)
    requires At(b, at, x)
    ensures at + |x| <= |b|
  {
  }

  lemma U32At(b: seq<Byte>, at: nat, n: nat)
    requires n < LIMIT && At(b, at, U32(n))
    ensures BigEndian(b, at, n)
  {
    var a := n / 0x100;
    var c := a / 0x100;
    assert n / 0x10000 == c && n / 0x1000000 == c / 0x100 && c / 0x100 < 0x100;
    var w := b[at..at + 4];
    assert w[0] == b[at] && w[1] == b[at + 1] && w[2] == b[at + 2] && w[3] == b[at + 3];
  }

  lemma TokensAre()
    ensures U32(BEGIN_NODE) == [0, 0, 0, 1] && U32(END_NODE) == [0, 0, 0, 2] && U32(PROP) == [0, 0, 0, 3]
    ensures U32(END) == [0, 0, 0, 9] && U32(0xD00DFEED) == [0xD0, 0x0D, 0xFE, 0xED]
  {
  }

  /** The parser passes over token 4 wherever it may stand. */
  lemma NopsSkipped(s: seq<Byte>)
    ensures SkipNops([0, 0, 0, 4] + s) == SkipNops(s)
  {
    assert ([0, 0, 0, 4] + s)[4..] == s;
  }

  lemma PaddedAt(b: seq<Byte>, at: nat, x: seq<Byte>)
    requires at % 4 == 0 && At(b, at, Padded(x))
    ensures At(b, at, x) && PaddedTo(b, at + |x|, at + |Padded(x)|)
  {
    var z := Zeros(Up4(|x|) - |x|);
    AtSplit(b, at, x, z);
    forall i | at + |x| <= i < at + |Padded(x)| ensures b[i] == 0 {
      assert b[i] == b[at + |x|..at + |x| + |z|][i - (at + |x|)];
    }
  }

  // ------------------------------------------------------------ trees

  lemma PropIsAt(b: seq<Byte>, at: nat, p: Prop, strings: nat, base: nat)
    requires at % 4 == 0 && |b| < LIMIT
    requires At(b, at, StructOfProp(p, base)) && At(b, strings + base, NameBytes(p.name))
    ensures PropAt(b, at, p, strings, base, at + |StructOfProp(p, base)|)
    ensures |StructOfProp(p, base)| % 4 == 0
  {
    hide U32, Up4, Padded, BigEndian, PaddedTo, At, NameBytes, StructOfProp;
    PropParts(b, at, p, base);
    ValueAt(b, at, p);
    NameIsAt(b, strings + base, p.name);
    U32At(b, at + 4, |p.data|);
    U32At(b, at + 8, base);
  }

  lemma ValueAt(b: seq<Byte>, at: nat, p: Prop)
    requires at % 4 == 0 && At(b, at + 12, Padded(p.data))
    ensures At(b, at + 12, p.data) && PaddedTo(b, at + 12 + |p.data|, at + 12 + |Padded(p.data)|)
    ensures (12 + |Padded(p.data)|) % 4 == 0
  {
    hide At, PaddedTo;
    PaddedAt(b, at + 12, p.data);
  }

  lemma PropParts(b: seq<Byte>, at: nat, p: Prop, base: nat)
    requires At(b, at, StructOfProp(p, base))
    ensures At(b, at, [0, 0, 0, 3]) && At(b, at + 4, U32(|p.data|)) && At(b, at + 8, U32(base))
    ensures At(b, at + 12, Padded(p.data)) && |StructOfProp(p, base)| == 12 + |Padded(p.data)|
    ensures |p.data| <= |b|
  {
    hide U32, Up4, Padded, At;
    var t, len, off, v := U32(PROP), U32(|p.data|), U32(base), Padded(p.data);
    TokensAre();
    AtBounds(b, at, t + len + off + v);
    AtSplit(b, at, t + len + off, v);
    AtSplit(b, at, t + len, off);
    AtSplit(b, at, t, len);
  }

  lemma NameIsAt(b: seq<Byte>, at: nat, name: seq<Byte>)
    requires At(b, at, NameBytes(name))
    ensures At(b, at, name + [0]) && at <= |b|
  {
    AtSplit(b, at, name + [0], Zeros(Up4(|name + [0]|) - |name + [0]|));
  }

  lemma FirstProp(b: seq<Byte>, at: nat, props: seq<Prop>, strings: nat, base: nat)
    ensures props == [] ==> StructOfProps(props, base) == [] && PropsAt(b, at, props, strings, at)
    ensures props != [] ==>
              && StructOfProps(props, base)
                 == StructOfProp(props[0], base) + StructOfProps(props[1..], base + |NameBytes(props[0].name)|)
              && StringsOfProps(props) == NameBytes(props[0].name) + StringsOfProps(props[1..])
  {
    hide StructOfProp, NameBytes, Up4;
  }

  lemma MoreProps(b: seq<Byte>, at: nat, props: seq<Prop>, strings: nat, off: nat, next: nat, end: nat)
    requires props != [] && PropAt(b, at, props[0], strings, off, next) && PropsAt(b, next, props[1..], strings, end)
    ensures PropsAt(b, at, props, strings, end)
  {
    hide PropAt;
  }

  lemma {:induction false} PropsAreAt(b: seq<Byte>, at: nat, props: seq<Prop>, strings: nat, base: nat)
    requires at % 4 == 0 && |b| < LIMIT
    requires At(b, at, StructOfProps(props, base)) && At(b, strings + base, StringsOfProps(props))
    ensures PropsAt(b, at, props, strings, at + |StructOfProps(props, base)|)
    ensures |StructOfProps(props, base)| % 4 == 0
    decreases |props|
  {
    hide At, PropAt, PropsAt, StructOfProp, StructOfProps, StringsOfProps, NameBytes, Up4;
    FirstProp(b, at, props, strings, base);
    if props != [] {
      var p, name := StructOfProp(props[0], base), NameBytes(props[0].name);
      var more := StructOfProps(props[1..], base + |name|);
      AtSplit(b, at, p, more);
      AtSplit(b, strings + base, name, StringsOfProps(props[1..]));
      PropIsAt(b, at, props[0], strings, base);
      PropsAreAt(b, at + |p|, props[1..], strings, base + |name|);
      MoreProps(b, at, props, strings, base, at + |p|, at + |p| + |more|);
    }
  }

  lemma NodeNamedAt(b: seq<Byte>, at: nat, name: seq<Byte>)
    requires at % 4 == 0 && At(b, at, U32(BEGIN_NODE) + NameBytes(name))
    ensures NamedAt(b, at, name, at + 4 + |NameBytes(name)|)
  {
    hide U32, Up4, At, PaddedTo;
    TokensAre();
    AtSplit(b, at, U32(BEGIN_NODE), NameBytes(name));
    PaddedAt(b, at + 4, name + [0]);
  }

  /** A subtree's bytes are laid out as a node, wherever they stand and wherever its strings are. */
  lemma {:induction false} NodeIsAt(b: seq<Byte>, at: nat, n: Node, strings: nat, base: nat)
    requires at % 4 == 0 && |b| < LIMIT
    requires At(b, at, StructOf(n, base)) && At(b, strings + base, StringsOf(n))
    ensures NodeAt(b, at, n, strings, at + |StructOf(n, base)|)
    ensures |StructOf(n, base)| % 4 == 0
    decreases n, 0
  {
    hide U32, NameBytes, StructOf, StructOfProps, StructOfAll, StringsOf, StringsOfProps, StringsOfAll;
    hide At, PropsAt, KidsAt, NamedAt, NodeAt, Up4;
    var k := base + |StringsOfProps(n.props)|;
    NodeParts(b, at, n, strings, base);
    var p := at + 4 + |NameBytes(n.name)|;
    var q := p + |StructOfProps(n.props, base)|;
    NodeNamedAt(b, at, n.name);
    PropsAreAt(b, p, n.props, strings, base);
    KidsAreAt(b, q, n.kids, strings, k);
    NodeOf(b, at, n, strings, p, q, q + |StructOfAll(n.kids, k)|);
  }

  lemma {:induction false} NodeParts(b: seq<Byte>, at: nat, n: Node, strings: nat, base: nat)
    requires At(b, at, StructOf(n, base)) && At(b, strings + base, StringsOf(n))
    ensures var k := base + |StringsOfProps(n.props)|;
            var p := at + 4 + |NameBytes(n.name)|;
            var q := p + |StructOfProps(n.props, base)|;
            var last := q + |StructOfAll(n.kids, k)|;
            && At(b, at, U32(BEGIN_NODE) + NameBytes(n.name)) && At(b, p, StructOfProps(n.props, base))
            && At(b, q, StructOfAll(n.kids, k)) && At(b, last, U32(END_NODE)) && last + 4 == at + |StructOf(n, base)|
            && At(b, strings + base, StringsOfProps(n.props)) && At(b, strings + k, StringsOfAll(n.kids))
  {
    hide U32, NameBytes, StructOfProps, StructOfAll, StringsOfProps, StringsOfAll, At, Up4;
    var k := base + |StringsOfProps(n.props)|;
    var head, props, kids := U32(BEGIN_NODE) + NameBytes(n.name), StructOfProps(n.props, base), StructOfAll(n.kids, k);
    AtSplit(b, at, head + props + kids, U32(END_NODE));
    AtSplit(b, at, head + props, kids);
    AtSplit(b, at, head, props);
    AtSplit(b, strings + base, StringsOfProps(n.props), StringsOfAll(n.kids));
  }

  lemma {:induction false} NodeOf(b: seq<Byte>, at: nat, n: Node, strings: nat, p: nat, q: nat, last: nat)
    requires NamedAt(b, at, n.name, p) && PropsAt(b, p, n.props, strings, q) && KidsAt(b, q, n.kids, strings, last)
    requires At(b, last, U32(END_NODE))
    ensures NodeAt(b, at, n, strings, last + 4)
  {
    hide NamedAt, PropsAt, KidsAt, At, U32;
    TokensAre();
    assert At(b, last, [0, 0, 0, 2]);
  }

  lemma {:induction false} KidsAreAt(b: seq<Byte>, at: nat, kids: seq<Node>, strings: nat, base: nat)
    requires at % 4 == 0 && |b| < LIMIT
    requires At(b, at, StructOfAll(kids, base)) && At(b, strings + base, StringsOfAll(kids))
    ensures KidsAt(b, at, kids, strings, at + |StructOfAll(kids, base)|)
    ensures |StructOfAll(kids, base)| % 4 == 0
    decreases kids
  {
    hide At, NodeAt, StructOf, StringsOf;
    if kids != [] {
      var n, t := StructOf(kids[0], base), StringsOf(kids[0]);
      AtSplit(b, at, n, StructOfAll(kids[1..], base + |t|));
      AtSplit(b, strings + base, t, StringsOfAll(kids[1..]));
      NodeIsAt(b, at, kids[0], strings, base);
      KidsAreAt(b, at + |n|, kids[1..], strings, base + |t|);
    }
  }

  /** The blob of every tree below 4 GiB conforms to the format. */
  lemma {:induction false} BlobConforms(n: Node)
    requires |Blob(n)| < LIMIT
    ensures Conforms(Blob(n), n)
  {
    hide Blob, StructBlock, StructOf, StringsOf, U32, Zeros, Field, Numbers, NodeAt, At, BigEndian;
    var b, s, t := Blob(n), StructBlock(n), StringsOf(n);
    BlobParts(n);
    BlocksAt(n);
    HeaderAt(n);
    TokensAre();
    AtSplit(b, 56, StructOf(n, 0), U32(END));
    NodeIsAt(b, 56, n, 56 + |s|, 0);
    var last := 56 + |StructOf(n, 0)|;
    assert At(b, last, [0, 0, 0, 9]) && NodeAt(b, 56, n, last + 4, last);
  }

  lemma {:induction false} BlocksAt(n: Node)
    ensures At(Blob(n), 56, StructBlock(n)) && At(Blob(n), 56 + |StructBlock(n)|, StringsOf(n))
    ensures At(Blob(n), 40, [0, 0, 0, 0, 0, 0, 0, 0, 0, 0, 0, 0, 0, 0, 0, 0])
  {
    hide StructBlock, StringsOf, Numbers;
    BlobParts(n);
    assert Zeros(16) == [0, 0, 0, 0, 0, 0, 0, 0, 0, 0, 0, 0, 0, 0, 0, 0];
  }

  lemma {:induction false} HeaderAt(n: Node)
    requires |Blob(n)| < LIMIT
    ensures var b, s, t := Blob(n), StructBlock(n), StringsOf(n);
            && At(b, 0, [0xD0, 0x0D, 0xFE, 0xED]) && BigEndian(b, 4, |b|) && BigEndian(b, 8, 56)
            && BigEndian(b, 12, 56 + |s|) && BigEndian(b, 16, 40) && BigEndian(b, 20, 17) && BigEndian(b, 24, 16)
            && BigEndian(b, 28, 0) && BigEndian(b, 32, |t|) && BigEndian(b, 36, |s|)
  {
    hide StructBlock, StringsOf, U32, Numbers, BigEndian, Zeros, At;
    var b, ws := Blob(n), Fields(n);
    forall i | 0 <= i < 10 ensures At(b, 4 * i, U32(ws[i])) && (ws[i] < LIMIT ==> BigEndian(b, 4 * i, ws[i])) {
      FieldIsAt(n, i);
      if ws[i] < LIMIT { U32At(b, 4 * i, ws[i]); }
    }
    TokensAre();
    assert At(b, 4 * 0, U32(ws[0])) && BigEndian(b, 4 * 1, ws[1]) && BigEndian(b, 4 * 2, ws[2])
        && BigEndian(b, 4 * 3, ws[3]) && BigEndian(b, 4 * 4, ws[4]) && BigEndian(b, 4 * 5, ws[5])
        && BigEndian(b, 4 * 6, ws[6]) && BigEndian(b, 4 * 7, ws[7]) && BigEndian(b, 4 * 8, ws[8])
        && BigEndian(b, 4 * 9, ws[9]);
  }

  lemma {:induction false} FieldIsAt(n: Node, i: nat)
    requires i < 10
    ensures At(Blob(n), 4 * i, U32(Fields(n)[i]))
  {
    hide StructBlock, StringsOf, U32, Numbers, Fields;
    NumberAt(Fields(n), i);
    assert Blob(n)[4 * i..4 * i + 4] == Numbers(Fields(n))[4 * i..4 * i + 4];
  }
}
