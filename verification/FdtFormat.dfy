/**
 * The flattened devicetree format, version 17 (sections 5.2 to 5.5 of the Devicetree Specification
 * 0.4): what the bytes of a tree are, a parser for them, and the round trip between the two.
 */
module FdtFormat {
  import opened Options
  import opened Words

  datatype Prop = Prop(name: seq<Byte>, data: seq<Byte>)

  datatype Node = Node(name: seq<Byte>, props: seq<Prop>, kids: seq<Node>)

  const BEGIN_NODE: nat := 1
  const END_NODE: nat := 2
  const PROP: nat := 3
  const NOP: nat := 4
  const END: nat := 9

  const LIMIT: nat := 0x1_0000_0000

  // ------------------------------------------------------------ bytes

  // A 32-bit big-endian number
  function U32(n: nat): (r: seq<Byte>)
    ensures |r| == 4
  {
    [n / 0x1000000 % 256, n / 0x10000 % 256, n / 0x100 % 256, n % 256]
  }

  function Get32(s: seq<Byte>): nat
    requires |s| >= 4
  {
    0x1000000 * (s[0] as nat) + 0x10000 * (s[1] as nat) + 0x100 * (s[2] as nat) + s[3] as nat
  }

  lemma U32Value(n: nat)
    requires n < LIMIT
    ensures Get32(U32(n)) == n
  {
    var a := n / 0x100;
    var b := a / 0x100;
    var c := b / 0x100;
    assert n / 0x10000 == b && n / 0x1000000 == c;
    assert c < 0x100;
  }

  lemma Get32Prefix(s: seq<Byte>, t: seq<Byte>)
    requires |s| >= 4
    ensures Get32(s + t) == Get32(s)
  {
  }

  // Round up to a multiple of four
  function Up4(k: nat): (r: nat)
    ensures k <= r < k + 4 && r % 4 == 0
  {
    (k + 3) / 4 * 4
  }

  function Zeros(n: nat): (r: seq<Byte>)
    ensures |r| == n && forall i :: 0 <= i < n ==> r[i] == 0
  {
    seq(n, _ => 0)
  }

  function Padded(s: seq<Byte>): (r: seq<Byte>)
    ensures |r| == Up4(|s|) && r[..|s|] == s
  {
    s + Zeros(Up4(|s|) - |s|)
  }

  // A NUL-terminated name, padded
  function NameBytes(name: seq<Byte>): (r: seq<Byte>)
    ensures |r| == Up4(|name| + 1) && r[..|name|] == name && r[|name|] == 0
  {
    Padded(name + [0])
  }

  predicate NulFree(s: seq<Byte>) { forall i :: 0 <= i < |s| ==> s[i] != 0 }

  // ------------------------------------------------------------ trees as bytes

  function StringsOfProps(props: seq<Prop>): seq<Byte> {
    if |props| == 0 then [] else NameBytes(props[0].name) + StringsOfProps(props[1..])
  }

  function StringsOf(n: Node): seq<Byte>
    decreases n
  {
    StringsOfProps(n.props) + StringsOfAll(n.kids)
  }

  function StringsOfAll(kids: seq<Node>): seq<Byte>
    decreases kids
  {
    if |kids| == 0 then [] else StringsOf(kids[0]) + StringsOfAll(kids[1..])
  }

  // The properties of a node; `base` is where the name of the first one lies in the strings block
  function StructOfProps(props: seq<Prop>, base: nat): seq<Byte> {
    if |props| == 0 then []
    else StructOfProp(props[0], base) + StructOfProps(props[1..], base + |NameBytes(props[0].name)|)
  }

  function StructOfProp(p: Prop, base: nat): seq<Byte> { U32(PROP) + U32(|p.data|) + U32(base) + Padded(p.data) }

  function StructOf(n: Node, base: nat): seq<Byte>
    decreases n
  {
    U32(BEGIN_NODE) + NameBytes(n.name) + StructOfProps(n.props, base)
    + StructOfAll(n.kids, base + |StringsOfProps(n.props)|) + U32(END_NODE)
  }

  function StructOfAll(kids: seq<Node>, base: nat): seq<Byte>
    decreases kids
  {
    if |kids| == 0 then [] else StructOf(kids[0], base) + StructOfAll(kids[1..], base + |StringsOf(kids[0])|)
  }

  // The whole structure block, and the whole blob
  function StructBlock(n: Node): seq<Byte> { StructOf(n, 0) + U32(END) }

  // The ten header fields
  function Fields(n: Node): (r: seq<nat>)
    ensures |r| == 10
  {
    var strings := 56 + |StructBlock(n)|;
    [0xD00DFEED, strings + |StringsOf(n)|, 56, strings, 40, 17, 16, 0, |StringsOf(n)|, |StructBlock(n)|]
  }

  function Numbers(ws: seq<nat>): (r: seq<Byte>)
    ensures |r| == 4 * |ws|
  {
    if |ws| == 0 then [] else U32(ws[0]) + Numbers(ws[1..])
  }

  function Blob(n: Node): seq<Byte> { Numbers(Fields(n)) + Zeros(16) + StructBlock(n) + StringsOf(n) }

  // ------------------------------------------------------------ parser

  // Position of the first NUL, or the length
  function FindNul(s: seq<Byte>): (k: nat)
    ensures k <= |s| && (k < |s| ==> s[k] == 0) && NulFree(s[..k])
  {
    if |s| == 0 || s[0] == 0 then 0
    else
      var k := 1 + FindNul(s[1..]);
      assert forall i :: 0 < i < k ==> s[i] == s[1..][..k - 1][i - 1];
      k
  }

  function SkipNops(s: seq<Byte>): (r: seq<Byte>)
    ensures |r| <= |s| && (|r| >= 4 ==> Get32(r) != NOP)
  {
    if |s| >= 4 && Get32(s) == NOP then SkipNops(s[4..]) else s
  }

  // What was read, and the bytes after it
  datatype Parsed<T> = Parsed(item: T, rest: seq<Byte>)

  function ParseProps(s: seq<Byte>, t: seq<Byte>): (r: Option<Parsed<seq<Prop>>>)
    ensures r.Some? ==> |r.value.rest| <= |s|
    decreases |s|
  {
    var u := SkipNops(s);
    if |u| < 4 then None
    else if Get32(u) != PROP then Some(Parsed([], u))
    else if |u| < 12 then None
    else
      var p := ParseProp(u, t);
      if p.None? then None
      else
        var more := ParseProps(p.value.rest, t);
        if more.None? then None else Some(Parsed([p.value.item] + more.value.item, more.value.rest))
  }

  // Token, length, name offset, value
  function ParseProp(u: seq<Byte>, t: seq<Byte>): (r: Option<Parsed<Prop>>)
    requires |u| >= 12
    ensures r.Some? ==> |r.value.rest| < |u|
  {
    var len, off := Get32(u[4..]), Get32(u[8..]);
    if 12 + Up4(len) > |u| || off > |t| then None
    else
      var k := FindNul(t[off..]);
      if off + k == |t| then None
      else Some(Parsed(Prop(t[off..off + k], u[12..12 + len]), u[12 + Up4(len)..]))
  }

  function ParseNode(s: seq<Byte>, t: seq<Byte>): (r: Option<Parsed<Node>>)
    ensures r.Some? ==> |r.value.rest| < |s|
    decreases |s|, 0
  {
    var u := SkipNops(s);
    if |u| < 4 || Get32(u) != BEGIN_NODE then None
    else
      var k := FindNul(u[4..]);
      if 4 + k == |u| || 4 + Up4(k + 1) > |u| then None
      else
        var props := ParseProps(u[4 + Up4(k + 1)..], t);
        if props.None? then None
        else
          var kids := ParseKids(props.value.rest, t);
          if kids.None? then None
          else
            var w := kids.value.rest;
            if |w| < 4 || Get32(w) != END_NODE then None
            else Some(Parsed(Node(u[4..4 + k], props.value.item, kids.value.item), w[4..]))
  }

  function ParseKids(s: seq<Byte>, t: seq<Byte>): (r: Option<Parsed<seq<Node>>>)
    ensures r.Some? ==> |r.value.rest| <= |s|
    decreases |s|, 1
  {
    var u := SkipNops(s);
    if |u| < 4 then None
    else if Get32(u) != BEGIN_NODE then Some(Parsed([], u))
    else
      var kid := ParseNode(u, t);
      if kid.None? then None
      else
        var more := ParseKids(kid.value.rest, t);
        if more.None? then None else Some(Parsed([kid.value.item] + more.value.item, more.value.rest))
  }

  function Field(b: seq<Byte>, at: nat): nat
    requires at + 4 <= |b|
  {
    Get32(b[at..])
  }

  // A block of `size` bytes at `off`
  predicate Within(b: seq<Byte>, off: nat, size: nat) { off + size <= |b| }

  function Parse(b: seq<Byte>): Option<Node> {
    if |b| < 40 || Field(b, 0) != 0xD00DFEED || Field(b, 4) > |b| || Field(b, 20) < 16 || Field(b, 24) > 17 then None
    else if !Within(b, Field(b, 8), Field(b, 36)) || !Within(b, Field(b, 12), Field(b, 32)) then None
    else if !Within(b, Field(b, 16), 16) || b[Field(b, 16)..Field(b, 16) + 16] != Zeros(16) then None
    else
      var structs := b[Field(b, 8)..Field(b, 8) + Field(b, 36)];
      var strings := b[Field(b, 12)..Field(b, 12) + Field(b, 32)];
      var root := ParseNode(structs, strings);
      if root.None? then None
      else
        var w := SkipNops(root.value.rest);
        if |w| == 4 && Get32(w) == END then Some(root.value.item) else None
  }

  // ------------------------------------------------------------ round trip

  predicate WfProps(props: seq<Prop>) {
    forall i :: 0 <= i < |props| ==> NulFree(props[i].name) && |props[i].data| < LIMIT
  }

  // Names hold no NUL, and values have 32-bit lengths
  predicate Wf(n: Node)
    decreases n
  {
    NulFree(n.name) && WfProps(n.props) && forall i :: 0 <= i < |n.kids| ==> Wf(n.kids[i])
  }

  predicate WfAll(kids: seq<Node>) { forall i :: 0 <= i < |kids| ==> Wf(kids[i]) }

  // `s` lies at offset `at` of `t`
  predicate At(t: seq<Byte>, at: nat, s: seq<Byte>) { at + |s| <= |t| && t[at..at + |s|] == s }

  lemma AtSplit(t: seq<Byte>, at: nat, a: seq<Byte>, b: seq<Byte>)
    requires At(t, at, a + b)
    ensures At(t, at, a) && At(t, at + |a|, b)
  {
    assert t[at..at + |a|] == (a + b)[..|a|];
    assert t[at + |a|..at + |a| + |b|] == (a + b)[|a|..];
  }

  lemma {:induction false} FindNulAt(s: seq<Byte>, k: nat)
    requires k < |s| && s[k] == 0 && NulFree(s[..k])
    ensures FindNul(s) == k
  {
    if k > 0 {
      assert s[0] == s[..k][0];
      assert s[1..][..k - 1] == s[..k][1..];
      FindNulAt(s[1..], k - 1);
    }
  }

  lemma NameAt(t: seq<Byte>, off: nat, name: seq<Byte>)
    requires NulFree(name) && At(t, off, NameBytes(name))
    ensures FindNul(t[off..]) == |name| && off + |name| < |t| && t[off..off + |name|] == name
  {
    var b, u := NameBytes(name), t[off..];
    assert forall i :: 0 <= i < |b| ==> u[i] == t[off..off + |b|][i];
    assert u[..|name|] == b[..|name|];
    FindNulAt(u, |name|);
  }

  // The next token, when it is not a NOP
  predicate Token(s: seq<Byte>, tok: nat) { |s| >= 4 && Get32(s) == tok }

  lemma TokenHere(tok: nat, s: seq<Byte>)
    requires tok < LIMIT && tok != NOP
    ensures Token(U32(tok) + s, tok) && SkipNops(U32(tok) + s) == U32(tok) + s && (U32(tok) + s)[4..] == s
  {
    U32Value(tok);
    Get32Prefix(U32(tok), s);
  }

  lemma {:induction false} ParsePropOk(p: Prop, base: nat, rest: seq<Byte>, t: seq<Byte>)
    requires NulFree(p.name) && |p.data| < LIMIT && base < LIMIT && At(t, base, NameBytes(p.name))
    ensures var u := StructOfProp(p, base) + rest;
            && Token(u, PROP) && SkipNops(u) == u && |u| >= 12
            && ParseProp(u, t) == Some(Parsed(p, rest))
  {
    hide U32, Get32, FindNul, NameBytes, SkipNops, Up4, Token, At, StructOfProp;
    var u, n := StructOfProp(p, base) + rest, |p.data|;
    var v := U32(base) + (Padded(p.data) + rest);
    assert u == U32(PROP) + (U32(n) + v) by { PropBytes(p, base, rest); }
    TokenHere(PROP, U32(n) + v);
    assert Get32(u[4..]) == n by { U32Value(n); Get32Prefix(U32(n), v); }
    assert u[8..] == v;
    assert Get32(v) == base by { U32Value(base); Get32Prefix(U32(base), Padded(p.data) + rest); }
    NameAt(t, base, p.name);
    assert u[12..12 + n] == Padded(p.data)[..n];
    assert u[12 + Up4(n)..] == rest;
  }

  lemma PropBytes(p: Prop, base: nat, rest: seq<Byte>)
    ensures StructOfProp(p, base) + rest == U32(PROP) + (U32(|p.data|) + (U32(base) + (Padded(p.data) + rest)))
  {
    hide U32, Padded;
  }

  lemma {:induction false} PropsStep(u: seq<Byte>, t: seq<Byte>, p: Prop, mid: seq<Byte>, ps: seq<Prop>,
                                     rest: seq<Byte>)
    requires SkipNops(u) == u && Token(u, PROP) && |u| >= 12 && ParseProp(u, t) == Some(Parsed(p, mid))
    requires ParseProps(mid, t) == Some(Parsed(ps, rest))
    ensures ParseProps(u, t) == Some(Parsed([p] + ps, rest))
  {
    hide SkipNops, ParseProp;
  }

  lemma PropsStop(rest: seq<Byte>, t: seq<Byte>, tok: nat)
    requires Token(rest, tok) && tok != NOP && tok != PROP
    ensures ParseProps(rest, t) == Some(Parsed([], rest))
  {
  }

  lemma {:induction false} PropsSplit(props: seq<Prop>, base: nat, rest: seq<Byte>)
    requires |props| > 0
    ensures var b := base + |NameBytes(props[0].name)|;
            && StructOfProps(props, base) + rest == StructOfProp(props[0], base) + (StructOfProps(props[1..], b) + rest)
            && StringsOfProps(props) == NameBytes(props[0].name) + StringsOfProps(props[1..])
            && [props[0]] + props[1..] == props
  {
    hide StructOfProp, NameBytes;
  }

  lemma {:induction false} ParsePropsOk(props: seq<Prop>, base: nat, rest: seq<Byte>, t: seq<Byte>, tok: nat)
    requires WfProps(props) && base + |StringsOfProps(props)| < LIMIT && At(t, base, StringsOfProps(props))
    requires Token(rest, tok) && tok != NOP && tok != PROP
    ensures ParseProps(StructOfProps(props, base) + rest, t) == Some(Parsed(props, rest))
    decreases |props|
  {
    hide ParseProps, ParseProp, SkipNops, StructOfProp, Padded, NameBytes, StringsOfProps, Token, At;
    if |props| == 0 {
      assert StructOfProps(props, base) + rest == rest;
      PropsStop(rest, t, tok);
    } else {
      var p, b := props[0], base + |NameBytes(props[0].name)|;
      var more := StructOfProps(props[1..], b) + rest;
      PropsSplit(props, base, rest);
      AtSplit(t, base, NameBytes(p.name), StringsOfProps(props[1..]));
      ParsePropOk(p, base, more, t);
      ParsePropsOk(props[1..], b, rest, t, tok);
      PropsStep(StructOfProp(p, base) + more, t, p, more, props[1..], rest);
    }
  }

  lemma BeginOk(name: seq<Byte>, more: seq<Byte>)
    requires NulFree(name)
    ensures var u := U32(BEGIN_NODE) + (NameBytes(name) + more);
            && Token(u, BEGIN_NODE) && SkipNops(u) == u && FindNul(u[4..]) == |name| && 4 + |name| < |u|
            && u[4..4 + |name|] == name && 4 + Up4(|name| + 1) <= |u| && u[4 + Up4(|name| + 1)..] == more
  {
    var u := U32(BEGIN_NODE) + (NameBytes(name) + more);
    TokenHere(BEGIN_NODE, NameBytes(name) + more);
    assert At(u[4..], 0, NameBytes(name)) by { assert u[4..][0..|NameBytes(name)|] == NameBytes(name); }
    NameAt(u[4..], 0, name);
    assert u[4..][0..] == u[4..];
    assert u[4..4 + |name|] == u[4..][..|name|];
  }

  lemma Regroup(a: seq<Byte>, b: seq<Byte>, c: seq<Byte>, d: seq<Byte>, e: seq<Byte>, rest: seq<Byte>)
    ensures (a + b + c + d + e) + rest == a + (b + (c + (d + (e + rest))))
  {
    assert (a + b + c + d + e) + rest == (a + b + c + d) + (e + rest);
    assert (a + b + c + d) + (e + rest) == (a + b + c) + (d + (e + rest));
    assert (a + b + c) + (d + (e + rest)) == (a + b) + (c + (d + (e + rest)));
  }

  // The parts of a node, in order
  lemma {:induction false} StartsNode(n: Node, base: nat, rest: seq<Byte>)
    ensures StructOf(n, base) + rest == U32(BEGIN_NODE) + (NameBytes(n.name) + (StructOfProps(n.props, base)
              + (StructOfAll(n.kids, base + |StringsOfProps(n.props)|) + (U32(END_NODE) + rest))))
  {
    hide U32, NameBytes, StructOfProps, StructOfAll, StringsOfProps;
    Regroup(U32(BEGIN_NODE), NameBytes(n.name), StructOfProps(n.props, base),
            StructOfAll(n.kids, base + |StringsOfProps(n.props)|), U32(END_NODE), rest);
  }

  lemma {:induction false} NodeStep(u: seq<Byte>, t: seq<Byte>, name: seq<Byte>, s1: seq<Byte>, ps: seq<Prop>,
                                    s2: seq<Byte>, ks: seq<Node>, s3: seq<Byte>)
    requires Token(u, BEGIN_NODE) && SkipNops(u) == u && FindNul(u[4..]) == |name| && 4 + |name| < |u|
    requires 4 + Up4(|name| + 1) <= |u| && u[4..4 + |name|] == name && u[4 + Up4(|name| + 1)..] == s1
    requires ParseProps(s1, t) == Some(Parsed(ps, s2)) && ParseKids(s2, t) == Some(Parsed(ks, s3))
    requires Token(s3, END_NODE)
    ensures ParseNode(u, t) == Some(Parsed(Node(name, ps, ks), s3[4..]))
  {
    hide SkipNops, FindNul, ParseProps, ParseKids, Up4;
  }

  lemma {:induction false} ParseNodeOk(n: Node, base: nat, rest: seq<Byte>, t: seq<Byte>)
    requires Wf(n) && base + |StringsOf(n)| < LIMIT && At(t, base, StringsOf(n))
    ensures ParseNode(StructOf(n, base) + rest, t) == Some(Parsed(n, rest))
    decreases n, 1
  {
    hide ParseNode, ParseProps, ParseKids, SkipNops, FindNul, U32, Get32, Up4, NameBytes, StructOf, StructOfProps,
         StructOfAll,
         StringsOfProps, StringsOfAll, Token, At;
    var kidsBase := base + |StringsOfProps(n.props)|;
    var last := U32(END_NODE) + rest;
    var kids := StructOfAll(n.kids, kidsBase) + last;
    var props := StructOfProps(n.props, base) + kids;
    StartsNode(n, base, rest);
    BeginOk(n.name, props);
    AtSplit(t, base, StringsOfProps(n.props), StringsOfAll(n.kids));
    TokenHere(END_NODE, rest);
    var tok := KidsToken(n.kids, kidsBase, last);
    ParsePropsOk(n.props, base, kids, t, tok);
    ParseKidsOk(n.kids, kidsBase, last, t);
    NodeStep(U32(BEGIN_NODE) + (NameBytes(n.name) + props), t, n.name, props, n.props, kids, n.kids, last);
  }

  // What follows the properties is a child or the end
  lemma {:induction false} KidsToken(kids: seq<Node>, base: nat, last: seq<Byte>) returns (tok: nat)
    requires Token(last, END_NODE)
    ensures Token(StructOfAll(kids, base) + last, tok) && (tok == BEGIN_NODE || tok == END_NODE)
  {
    if |kids| == 0 {
      assert StructOfAll(kids, base) + last == last;
      tok := END_NODE;
    } else {
      var more := StructOfAll(kids[1..], base + |StringsOf(kids[0])|) + last;
      KidsSplit(kids, base, last);
      KidToken(kids[0], base, more);
      tok := BEGIN_NODE;
    }
  }

  lemma {:induction false} KidToken(n: Node, base: nat, more: seq<Byte>)
    ensures Token(StructOf(n, base) + more, BEGIN_NODE)
    ensures SkipNops(StructOf(n, base) + more) == StructOf(n, base) + more
  {
    StartsNode(n, base, more);
    TokenHere(BEGIN_NODE, NameBytes(n.name) + (StructOfProps(n.props, base)
              + (StructOfAll(n.kids, base + |StringsOfProps(n.props)|) + (U32(END_NODE) + more))));
  }

  lemma {:induction false} KidsStep(u: seq<Byte>, t: seq<Byte>, n: Node, mid: seq<Byte>, ks: seq<Node>, rest: seq<Byte>)
    requires SkipNops(u) == u && Token(u, BEGIN_NODE) && ParseNode(u, t) == Some(Parsed(n, mid))
    requires ParseKids(mid, t) == Some(Parsed(ks, rest))
    ensures ParseKids(u, t) == Some(Parsed([n] + ks, rest))
  {
    hide SkipNops, ParseNode;
  }

  lemma KidsStop(last: seq<Byte>, t: seq<Byte>)
    requires Token(last, END_NODE)
    ensures ParseKids(last, t) == Some(Parsed([], last))
  {
  }

  lemma {:induction false} KidsSplit(kids: seq<Node>, base: nat, last: seq<Byte>)
    requires |kids| > 0
    ensures StructOfAll(kids, base) + last
              == StructOf(kids[0], base) + (StructOfAll(kids[1..], base + |StringsOf(kids[0])|) + last)
    ensures StringsOfAll(kids) == StringsOf(kids[0]) + StringsOfAll(kids[1..])
    ensures [kids[0]] + kids[1..] == kids
  {
    hide StructOf, StringsOf;
  }

  lemma {:induction false} ParseKidsOk(kids: seq<Node>, base: nat, last: seq<Byte>, t: seq<Byte>)
    requires WfAll(kids) && base + |StringsOfAll(kids)| < LIMIT && At(t, base, StringsOfAll(kids))
    requires Token(last, END_NODE)
    ensures ParseKids(StructOfAll(kids, base) + last, t) == Some(Parsed(kids, last))
    decreases kids, 0
  {
    hide ParseKids, ParseNode, SkipNops, StructOf, StringsOf, StringsOfAll, Token, At;
    if |kids| == 0 {
      assert StructOfAll(kids, base) + last == last;
      KidsStop(last, t);
    } else {
      var b := base + |StringsOf(kids[0])|;
      var more := StructOfAll(kids[1..], b) + last;
      KidsSplit(kids, base, last);
      AtSplit(t, base, StringsOf(kids[0]), StringsOfAll(kids[1..]));
      KidToken(kids[0], base, more);
      ParseNodeOk(kids[0], base, more, t);
      ParseKidsOk(kids[1..], b, last, t);
      KidsStep(StructOf(kids[0], base) + more, t, kids[0], more, kids[1..], last);
    }
  }

  /** Parsing the bytes of a tree gives the tree back. */
  lemma {:induction false} RoundTrip(n: Node)
    requires Wf(n) && |Blob(n)| < LIMIT
    ensures Parse(Blob(n)) == Some(n)
  {
    hide Blob, StructBlock, StringsOf, StructOf, Field, ParseNode, Parse, SkipNops, U32, Zeros, Token, At, Wf;
    var s, t := StructBlock(n), StringsOf(n);
    HeaderFields(n);
    BlobParts(n);
    ParseNodeOk(n, 0, U32(END), t);
    EndToken();
    ParseBlocks(Blob(n), s, t, n);
  }

  lemma EndToken()
    ensures Token(U32(END), END) && SkipNops(U32(END)) == U32(END)
  {
    TokenHere(END, []);
    assert U32(END) + [] == U32(END);
  }

  lemma {:induction false} BlobParts(n: Node)
    ensures var b, s, t := Blob(n), StructBlock(n), StringsOf(n);
            && |b| == 56 + |s| + |t| && b[40..56] == Zeros(16)
            && b[56..56 + |s|] == s && b[56 + |s|..56 + |s| + |t|] == t
            && s == StructOf(n, 0) + U32(END) && At(t, 0, t)
  {
    hide Numbers, Zeros, StringsOf, StructOf, U32;
    assert StringsOf(n)[0..0 + |StringsOf(n)|] == StringsOf(n);
  }

  lemma {:induction false} ParseBlocks(b: seq<Byte>, s: seq<Byte>, t: seq<Byte>, n: Node)
    requires |b| == 56 + |s| + |t| && b[40..56] == Zeros(16) && b[56..56 + |s|] == s && b[56 + |s|..56 + |s| + |t|] == t
    requires Field(b, 0) == 0xD00DFEED && Field(b, 4) == |b| && Field(b, 8) == 56 && Field(b, 12) == 56 + |s|
    requires Field(b, 16) == 40 && Field(b, 20) == 17 && Field(b, 24) == 16
    requires Field(b, 32) == |t| && Field(b, 36) == |s|
    requires ParseNode(s, t) == Some(Parsed(n, U32(END))) && SkipNops(U32(END)) == U32(END) && Token(U32(END), END)
    ensures Parse(b) == Some(n)
  {
    hide Field, ParseNode, SkipNops, U32, Get32, Zeros;
  }

  lemma {:induction false} HeaderFields(n: Node)
    requires |Blob(n)| < LIMIT
    ensures var b := Blob(n);
            && Field(b, 0) == 0xD00DFEED && Field(b, 4) == |b| && Field(b, 8) == 56
            && Field(b, 12) == 56 + |StructBlock(n)|
            && Field(b, 16) == 40 && Field(b, 20) == 17 && Field(b, 24) == 16 && Field(b, 32) == |StringsOf(n)|
            && Field(b, 36) == |StructBlock(n)|
  {
    hide StructBlock, StringsOf, U32, Get32, Numbers, Field;
    var b, ws := Blob(n), Fields(n);
    forall i | 0 <= i < 10 && ws[i] < LIMIT ensures Field(b, 4 * i) == ws[i] {
      NumberAt(ws, i);
      assert b[4 * i..4 * i + 4] == Numbers(ws)[4 * i..4 * i + 4];
      FieldAt(b, 4 * i, ws[i]);
    }
    assert Field(b, 4 * 0) == ws[0] && Field(b, 4 * 1) == ws[1] && Field(b, 4 * 2) == ws[2] && Field(b, 4 * 3) == ws[3]
        && Field(b, 4 * 4) == ws[4] && Field(b, 4 * 5) == ws[5] && Field(b, 4 * 6) == ws[6] && Field(b, 4 * 8) == ws[8]
        && Field(b, 4 * 9) == ws[9];
  }

  lemma {:induction false} NumberAt(ws: seq<nat>, i: nat)
    requires i < |ws|
    ensures Numbers(ws)[4 * i..4 * i + 4] == U32(ws[i])
  {
    hide U32;
    if i > 0 {
      NumberAt(ws[1..], i - 1);
      assert Numbers(ws)[4 * i..4 * i + 4] == Numbers(ws[1..])[4 * (i - 1)..4 * (i - 1) + 4];
    }
  }

  /** The 32-bit size field is right exactly for blobs below 4 GiB, so the format has no blob for a larger tree. */
  lemma {:induction false} SizeFieldExact(n: Node)
    ensures |Blob(n)| >= 40 && (Field(Blob(n), 4) == |Blob(n)| <==> |Blob(n)| < LIMIT)
  {
    hide StructBlock, StringsOf, Numbers, Fields, Zeros;
    if |Blob(n)| < LIMIT { HeaderFields(n); }
  }

  lemma FieldAt(b: seq<Byte>, at: nat, v: nat)
    requires at + 4 <= |b| && b[at..at + 4] == U32(v) && v < LIMIT
    ensures Field(b, at) == v
  {
    U32Value(v);
    assert b[at..] == b[at..at + 4] + b[at + 4..];
    Get32Prefix(U32(v), b[at + 4..]);
  }
}
