/**
 * What the rounded operations mean, said on values: the result is a float nearest to the exact sum,
 * product or quotient, with the tie broken as the mode says; single and double precision put 1.0 and
 * infinity where IEEE 754-2008 does; special operands follow its sections 6.1, 6.2 and 7.2.
 */
module FloatMeaning {
  import opened Floats
  import opened Powers
  import opened Rounding
  import opened SpecialOperands
  import opened TiesAway

  function Apart(x: nat, y: nat): nat { if x <= y then y - x else x - y }

  // The float `u` is nearest to num / den, both sides multiplied by den
  ghost predicate IsNearest(f: Format, num: nat, den: nat, u: nat) {
    forall v: nat {:trigger f.Val(v)} :: Apart(num, den * f.Val(u)) <= Apart(num, den * f.Val(v))
  }

  lemma NearestOnGrid(f: Format, num: nat, den: nat, u: nat)
    requires den > 0
    ensures IsNearest(f, num, den, u) <==> FloatGrid(f, den).Nearest(2 * num, u)
  {
    hide Format.Val;
    var g := FloatGrid(f, den);
    forall v: nat ensures g.Distance(2 * num, v) == 2 * Apart(num, den * f.Val(v)) {}
    if g.Nearest(2 * num, u) {
      forall v: nat ensures Apart(num, den * f.Val(u)) <= Apart(num, den * f.Val(v)) {
        assert g.Distance(2 * num, u) <= g.Distance(2 * num, v);
      }
    }
  }

  /** Nearest-even rounding of num / den. */
  lemma EvenIsNearest(f: Format, num: nat, den: nat, v: nat)
    requires den > 0
    ensures IsNearest(f, num, den, Even(f, num, den))
    ensures IsNearest(f, num, den, v) && v != Even(f, num, den) ==> Even(f, num, den) % 2 == 0
  {
    hide Format.Val, IsNearest;
    FloatGridValid(f, den);
    RoundEvenMeaning(FloatGrid(f, den), 2 * num, v);
    NearestOnGrid(f, num, den, v);
    NearestOnGrid(f, num, den, Even(f, num, den));
  }

  /** Ties-away rounding of num / den. */
  lemma AwayIsNearest(f: Format, num: nat, den: nat, v: nat)
    requires den > 0
    ensures IsNearest(f, num, den, Away(f, num, den))
    ensures IsNearest(f, num, den, v) ==> v <= Away(f, num, den)
  {
    hide Format.Val, IsNearest;
    FloatGridValid(f, den);
    RoundAwayMeaning(FloatGrid(f, den), 2 * num, v);
    NearestOnGrid(f, num, den, v);
    NearestOnGrid(f, num, den, Away(f, num, den));
  }

  // ---------------------------------------------------------------- operations

  /** The two quotients are nearest to the exact one: in units of 2^-k, Val(a) * 2^k / Val(b). */
  lemma QuotientIsNearest(f: Format, a: nat, b: nat, v: nat)
    requires b > 0
    ensures IsNearest(f, f.Val(a) * Pow2(f.k), f.Val(b), EvenQuotient(f, a, b))
    ensures IsNearest(f, f.Val(a) * Pow2(f.k), f.Val(b), v) ==> v <= AwayQuotient(f, a, b)
    ensures IsNearest(f, f.Val(a) * Pow2(f.k), f.Val(b), AwayQuotient(f, a, b))
    ensures IsNearest(f, f.Val(a) * Pow2(f.k), f.Val(b), v) && v != EvenQuotient(f, a, b) ==>
              EvenQuotient(f, a, b) % 2 == 0
  {
    hide Format.Val, IsNearest, Even, Away, Pow2;
    ValPositive(f, b);
    EvenIsNearest(f, f.Val(a) * Pow2(f.k), f.Val(b), v);
    AwayIsNearest(f, f.Val(a) * Pow2(f.k), f.Val(b), v);
  }

  /** The two products are nearest to the exact one: in units of 2^-k, Val(a) * Val(b) / 2^k. */
  lemma ProductIsNearest(f: Format, a: nat, b: nat, v: nat)
    ensures IsNearest(f, f.Val(a) * f.Val(b), Pow2(f.k), EvenProduct(f, a, b))
    ensures IsNearest(f, f.Val(a) * f.Val(b), Pow2(f.k), AwayProduct(f, a, b))
    ensures IsNearest(f, f.Val(a) * f.Val(b), Pow2(f.k), v) ==> v <= AwayProduct(f, a, b)
    ensures IsNearest(f, f.Val(a) * f.Val(b), Pow2(f.k), v) && v != EvenProduct(f, a, b) ==>
              EvenProduct(f, a, b) % 2 == 0
  {
    hide Format.Val, IsNearest, Even, Away, Pow2;
    EvenIsNearest(f, f.Val(a) * f.Val(b), Pow2(f.k), v);
    AwayIsNearest(f, f.Val(a) * f.Val(b), Pow2(f.k), v);
  }

  // ---------------------------------------------------------------- formats

  /** Patterns as IEEE 754 has them: exponent field e and fraction t are worth t or, with the hidden bit,
      (2^frac + t) * 2^(e - 1), in units of the least subnormal. */
  lemma PatternValue(f: Format, e: nat, t: nat)
    requires t < Pow2(f.frac)
    ensures f.Val(e * Pow2(f.frac) + t) == if e == 0 then t else (Pow2(f.frac) + t) * Pow2(e - 1)
  {
    hide Pow2;
    var h := Pow2(f.frac);
    var u := e * h + t;
    if e == 0 {
      SignificandBound(f, u);
      assert Pow2(0) == 1 by { PowZero(); }
    } else {
      MulMonotone(1, e, h);
      Fields(f, u);
      DivModUnique(u, h, e, t);
    }
  }

  lemma PowZero()
    ensures Pow2(0) == 1
  {
  }

  /** In single precision 1.0 is 0x3F800000 and infinity 0x7F800000, in double precision 0x3FF0000000000000 and
      0x7FF0000000000000. */
  lemma FormatPatterns()
    ensures var f := Binary32(); f.Val(0x3F80_0000) == f.One() && f.inf == 0x7F80_0000
    ensures var d := Binary64(); d.Val(0x3FF0_0000_0000_0000) == d.One() && d.inf == 0x7FF0_0000_0000_0000
  {
    hide Pow2, Format.Val;
    FractionWeights();
    var f, d := Binary32(), Binary64();
    PatternValue(f, 127, 0);
    PatternValue(d, 1023, 0);
    Pow2Add(23, 126);
    Pow2Add(52, 1022);
  }

  lemma FractionWeights()
    ensures Pow2(23) == 0x80_0000 && Pow2(52) == 0x10_0000_0000_0000
  {
    hide Pow2;
    assert Pow2(1) == 2 by { PowOne(); }
    Pow2Add(1, 1);
    Pow2Add(2, 2);
    Pow2Add(4, 4);
    Pow2Add(8, 8);
    Pow2Add(16, 4);
    Pow2Add(20, 2);
    Pow2Add(22, 1);
    Pow2Add(16, 16);
    Pow2Add(32, 20);
  }

  lemma PowOne()
    ensures Pow2(1) == 2
  {
  }

  // ---------------------------------------------------------------- special operands

  /** The test on the result is that of its exponent field: everything but zeros and subnormals passes. */
  lemma ExponentTest(f: Format, n: Datum)
    ensures ExponentSet(f, n) <==> n.Finite? ==> n.x.mag / Pow2(f.frac) != 0
  {
    if n.Finite? {
      var h := Pow2(f.frac);
      if n.x.mag < h { DivModUnique(n.x.mag, h, 0, n.x.mag); } else { AtLeastOne(n.x.mag, h); }
    }
  }

  lemma AtLeastOne(x: nat, h: nat)
    requires x >= h > 0
    ensures x / h >= 1
  {
    DivModUnique(x - h, h, (x - h) / h, (x - h) % h);
    assert x == ((x - h) / h + 1) * h + (x - h) % h;
    DivModUnique(x, h, (x - h) / h + 1, (x - h) % h);
  }

  predicate IsZero(d: Datum) { d.Finite? && d.x.mag == 0 }

  predicate Minus(d: Datum) { (d.Finite? && d.x.neg) || (d.Infinite? && d.neg) }

  /** Quotients of special operands, in both modes. */
  lemma QuotientRules(f: Format, a: Datum, b: Datum, away: bool)
    ensures var q := Quotient(f, a, b, away);
            && (a.NaN? || b.NaN? || (a.Infinite? && b.Infinite?) || (IsZero(a) && IsZero(b)) <==> q.NaN?)
            && (!q.NaN? ==> Minus(q) == (Minus(a) != Minus(b)))
            && (!q.NaN? && (a.Infinite? || IsZero(b)) ==> q.Infinite?)
            && (!q.NaN? && b.Infinite? ==> IsZero(q))
            && (a.Finite? && b.Finite? && b.x.mag > 0 ==>
                  var u := if away then AwayQuotient(f, a.x.mag, b.x.mag) else EvenQuotient(f, a.x.mag, b.x.mag);
                  if u < f.inf then q.Finite? && q.x.mag == u else q.Infinite?)
  {
    hide EvenQuotient, AwayQuotient;
  }

  /** Products of special operands, in both modes. */
  lemma ProductRules(f: Format, a: Datum, b: Datum, away: bool)
    ensures var p := Product(f, a, b, away);
            && (a.NaN? || b.NaN? || (a.Infinite? && IsZero(b)) || (IsZero(a) && b.Infinite?) <==> p.NaN?)
            && (!p.NaN? ==> Minus(p) == (Minus(a) != Minus(b)))
            && (!p.NaN? && (a.Infinite? || b.Infinite?) ==> p.Infinite?)
            && (a.Finite? && b.Finite? ==>
                  var u := if away then AwayProduct(f, a.x.mag, b.x.mag) else EvenProduct(f, a.x.mag, b.x.mag);
                  if u < f.inf then p.Finite? && p.x.mag == u else p.Infinite?)
  {
    hide EvenProduct, AwayProduct;
  }
}
