/** 64-bit words as natural numbers, with the bitwise operations that CSR instructions use. */
module Words {
  import opened Powers

  const TWO64: nat := 0x1_0000_0000_0000_0000
  const TWO32: nat := 0x1_0000_0000
  const PAGE: nat := 0x1000

  type Byte = x: nat | x < 0x100

  type Word = x: nat | x < 0x1_0000_0000_0000_0000

  function Wrap(x: int): Word { x % TWO64 }

  lemma WrapAdd(x: int, y: int)
    ensures Wrap(Wrap(x) + y) == Wrap(x + y)
  {
    var q := x / TWO64;
    assert x == q * TWO64 + Wrap(x);
    assert (x + y) % TWO64 == (Wrap(x) + y) % TWO64;
  }

  // Bit by bit on the low `k` bits: a OR b, and a AND NOT b
  function Or(a: nat, b: nat, k: nat): (r: nat)
    ensures r < Pow2(k)
  {
    if k == 0 then 0 else 2 * Or(a / 2, b / 2, k - 1) + (if a % 2 == 1 || b % 2 == 1 then 1 else 0)
  }

  function AndNot(a: nat, b: nat, k: nat): (r: nat)
    ensures r < Pow2(k)
  {
    if k == 0 then 0 else 2 * AndNot(a / 2, b / 2, k - 1) + (if a % 2 == 1 && b % 2 == 0 then 1 else 0)
  }

  // Positions of the one bits
  function Ones(w: Word): set<nat> { set i: nat | i < 64 && BitOf(w, i) }

  predicate BitOf(w: nat, i: nat) { w / Pow2(i) % 2 == 1 }

  lemma HalfBit(x: nat, c: nat, i: nat)
    requires c < 2
    ensures BitOf(2 * x + c, 0) == (c == 1) && BitOf(2 * x + c, i + 1) == BitOf(x, i)
  {
    HalfQuotient(x, c, Pow2(i));
    DivModUnique(2 * x + c, 1, 2 * x + c, 0);
  }

  lemma HalfQuotient(x: nat, c: nat, m: nat)
    requires c < 2 && m > 0
    ensures (2 * x + c) / (2 * m) == x / m
  {
    var q, r := x / m, x % m;
    assert q * (2 * m) == 2 * (q * m) by { MulCommute(q, 2 * m); MulAssoc(2, m, q); MulCommute(m, q); }
    DivModUnique(2 * x + c, 2 * m, q, 2 * r + c);
  }

  /** Bit by bit, the two operations are what their names say, and nothing is left above the width. */
  lemma {:induction false} OpBits(a: nat, b: nat, k: nat, i: nat)
    ensures BitOf(Or(a, b, k), i) <==> i < k && (BitOf(a, i) || BitOf(b, i))
    ensures BitOf(AndNot(a, b, k), i) <==> i < k && BitOf(a, i) && !BitOf(b, i)
    decreases k
  {
    hide BitOf;
    if k == 0 {
      ZeroBits(i);
    } else {
      HalfBit(a / 2, a % 2, if i == 0 then 0 else i - 1);
      HalfBit(b / 2, b % 2, if i == 0 then 0 else i - 1);
      HalfBit(Or(a / 2, b / 2, k - 1), Or(a, b, k) % 2, if i == 0 then 0 else i - 1);
      HalfBit(AndNot(a / 2, b / 2, k - 1), AndNot(a, b, k) % 2, if i == 0 then 0 else i - 1);
      if i > 0 { OpBits(a / 2, b / 2, k - 1, i - 1); }
    }
  }

  // A word made of `h` above bit k and `x` below it
  lemma {:induction false} SplitBits(h: nat, x: nat, k: nat, i: nat)
    requires x < Pow2(k)
    ensures BitOf(h * Pow2(k) + x, i) <==> if i < k then BitOf(x, i) else BitOf(h, i - k)
    decreases k
  {
    hide BitOf;
    if k > 0 {
      var p := Pow2(k - 1);
      var y := h * p + x / 2;
      assert h * Pow2(k) + x == 2 * y + x % 2 by { MulAssoc(h, 2, p); MulCommute(h, 2); MulAssoc(2, h, p); }
      HalfBit(y, x % 2, if i == 0 then 0 else i - 1);
      HalfBit(x / 2, x % 2, if i == 0 then 0 else i - 1);
      if i > 0 { SplitBits(h, x / 2, k - 1, i - 1); }
    }
  }

  lemma ZeroBits(i: nat)
    ensures !BitOf(0, i)
  {
    DivModUnique(0, Pow2(i), 0, 0);
  }

  lemma {:induction false} SingleBit(k: nat, i: nat)
    ensures BitOf(Pow2(k), i) <==> i == k
    decreases k
  {
    hide BitOf;
    var j := if i == 0 then 0 else i - 1;
    if k == 0 {
      HalfBit(0, 1, j);
      ZeroBits(j);
    } else {
      HalfBit(Pow2(k - 1), 0, j);
      if i > 0 { SingleBit(k - 1, j); }
    }
  }

  lemma OnesOfPower(k: nat, w: Word)
    requires k < 64 && w == Pow2(k)
    ensures Ones(w) == {k}
  {
    hide BitOf, Pow2;
    forall i: nat ensures BitOf(w, i) <==> i == k { SingleBit(k, i); }
  }

  lemma OnesOfZero()
    ensures Ones(0) == {}
  {
    hide BitOf;
    forall i: nat ensures !BitOf(0, i) { ZeroBits(i); }
  }

  lemma Pow2One()
    ensures Pow2(1) == 2
  {
  }

  lemma Width64()
    ensures Pow2(64) == TWO64 && Pow2(32) == TWO32
  {
    hide Pow2;
    Pow2One();
    Pow2Add(1, 1);
    Pow2Add(2, 2);
    Pow2Add(4, 4);
    Pow2Add(8, 8);
    Pow2Add(16, 16);
    Pow2Add(32, 32);
  }
}
