/**
 * The RMM fixups on all data, infinities and NaNs included: quotients and products as sections 6.1,
 * 6.2 and 7.2 of IEEE 754-2008 define them, and the code around the finite fixups. All NaNs are one.
 */
module SpecialOperands {
  import opened Floats
  import opened TiesAway

  datatype Datum = Finite(x: Float) | Infinite(neg: bool) | NaN

  // Finite data have finite patterns
  predicate Proper(f: Format, d: Datum) { d.Finite? ==> d.x.mag < f.inf }

  function Negative(d: Datum): bool {
    match d
    case Finite(x) => x.neg
    case Infinite(neg) => neg
    case NaN => false
  }

  function FromFloat(f: Format, x: Float): Datum { if x.mag < f.inf then Finite(x) else Infinite(x.neg) }

  // a / b, rounded to nearest with ties to even or away from zero
  function Quotient(f: Format, a: Datum, b: Datum, away: bool): Datum {
    var neg := Negative(a) != Negative(b);
    if a.NaN? || b.NaN? || (a.Infinite? && b.Infinite?) then NaN
    else if a.Infinite? then Infinite(neg)
    else if b.Infinite? then Finite(Float(neg, 0))
    else if b.x.mag == 0 then if a.x.mag == 0 then NaN else Infinite(neg)
    else
      var u := if away then AwayQuotient(f, a.x.mag, b.x.mag) else EvenQuotient(f, a.x.mag, b.x.mag);
      FromFloat(f, Float(neg, Clamp(f, u)))
  }

  // a * b
  function Product(f: Format, a: Datum, b: Datum, away: bool): Datum {
    var neg := Negative(a) != Negative(b);
    if a.NaN? || b.NaN? then NaN
    else if a.Infinite? || b.Infinite? then
      if (a.Finite? && a.x.mag == 0) || (b.Finite? && b.x.mag == 0) then NaN else Infinite(neg)
    else
      var u := if away then AwayProduct(f, a.x.mag, b.x.mag) else EvenProduct(f, a.x.mag, b.x.mag);
      FromFloat(f, Float(neg, Clamp(f, u)))
  }

  predicate ExponentSet(f: Format, n: Datum) { n.Finite? ==> n.x.mag >= f.Hidden() }

  // fma(-n, b, a) for a finite n, when a or b is not finite
  function SpecialResidual(n: Float, b: Datum, a: Datum): Datum {
    if a.NaN? || b.NaN? then NaN
    else if b.Infinite? then
      var neg := n.neg == b.neg;
      if n.mag == 0 || (a.Infinite? && a.neg != neg) then NaN else Infinite(neg)
    else a
  }

  // gap * b for a gap of the sign of n, in whatever format, when it is not finite; otherwise some finite datum
  function SpecialGap(n: Float, b: Datum): Datum {
    match b
    case NaN => NaN
    case Infinite(neg) => Infinite(n.neg != neg)
    case Finite(x) => b
  }

  // Comparison of data of which one at least is not finite; a NaN equals nothing
  predicate Equal(x: Datum, y: Datum) { !x.NaN? && x == y }

  // riscv_rmm_div_apply_f32
  function DivFixWide(f: Format, w: Format, n: Datum, a: Datum, b: Datum): Datum
    requires w.k >= f.k
  {
    if ExponentSet(f, n) then n
    else if a.Finite? && b.Finite? then FromFloat(f, RmmDivWide(f, w, n.x, a.x, b.x))
    else if Equal(SpecialResidual(n.x, b, a), SpecialGap(n.x, b)) then FromFloat(f, Float(n.x.neg, n.x.mag + 1))
    else n
  }

  // riscv_rmm_div_apply_f64; scaling keeps infinities and NaNs
  function DivFixScaled(f: Format, n: Datum, a: Datum, b: Datum, e1: nat, e2: nat): Datum {
    if ExponentSet(f, n) then n
    else if a.Finite? && b.Finite? then FromFloat(f, RmmDivScaled(f, n.x, a.x, b.x, e1, e2))
    else if Equal(SpecialResidual(n.x, b, a), SpecialGap(n.x, b)) then FromFloat(f, Float(n.x.neg, n.x.mag + 1))
    else n
  }

  // riscv_rmm_mul_f32; a finite product has finite factors
  function MulFix(f: Format, w: Format, n: Datum, a: Datum, b: Datum): Datum
    requires w.k > f.k
  {
    if n.Finite? && a.Finite? && b.Finite? then FromFloat(f, RmmMulWide(f, w, n.x, a.x, b.x)) else n
  }

  // With two finite operands and a divisor other than zero, n is the pattern the finite theorems speak about
  lemma FiniteQuotient(f: Format, a: Datum, b: Datum, n: Datum)
    requires a.Finite? && b.Finite? && b.x.mag > 0 && n == Quotient(f, a, b, false)
    ensures n.Finite? ==> n.x.mag == Clamp(f, EvenQuotient(f, a.x.mag, b.x.mag)) && SignRule(n.x, a.x, b.x)
    ensures n.Infinite? ==> EvenQuotient(f, a.x.mag, b.x.mag) >= f.inf && n.neg == (a.x.neg != b.x.neg)
    ensures !n.NaN?
  {
    hide EvenQuotient, AwayQuotient;
  }

  // A nearest-even quotient that overflows, or is normal, is what ties-away gives
  lemma LargeQuotient(f: Format, a: Datum, b: Datum, n: Datum)
    requires f.Valid() && a.Finite? && b.Finite? && b.x.mag > 0 && n == Quotient(f, a, b, false) && ExponentSet(f, n)
    ensures Quotient(f, a, b, true) == n
  {
    hide Even, Away, Format.Val, Format.One;
    NormalQuotientRoundsSame(f, a.x.mag, b.x.mag);
    assert f.inf >= f.Hidden();
  }

  /** fdiv.s on all data: the ties-away quotient, with zeros, infinities and NaNs as they come. */
  lemma DivideWideTotal(f: Format, w: Format, n: Datum, a: Datum, b: Datum)
    requires Widens(f, w) && Proper(f, a) && Proper(f, b) && n == Quotient(f, a, b, false)
    ensures DivFixWide(f, w, n, a, b) == Quotient(f, a, b, true)
  {
    hide EvenQuotient, AwayQuotient, RmmDivWide, Widens, Format.Valid;
    WidensParts(f, w);
    if a.Finite? && b.Finite? && b.x.mag > 0 {
      FiniteQuotient(f, a, b, n);
      if ExponentSet(f, n) {
        LargeQuotient(f, a, b, n);
      } else {
        RmmDivWideCorrect(f, w, n.x, a.x, b.x);
      }
    }
  }

  lemma WidensParts(f: Format, w: Format)
    requires Widens(f, w)
    ensures f.Valid() && w.k > f.k && w.k >= 2 * f.k && f.Hidden() >= 1
  {
  }

  /** fdiv.d on all data. */
  lemma DivideScaledTotal(f: Format, n: Datum, a: Datum, b: Datum, e1: nat, e2: nat)
    requires f.Valid() && e1 + e2 == f.k + 1 && Proper(f, a) && Proper(f, b) && n == Quotient(f, a, b, false)
    ensures DivFixScaled(f, n, a, b, e1, e2) == Quotient(f, a, b, true)
  {
    hide EvenQuotient, AwayQuotient, RmmDivScaled;
    if a.Finite? && b.Finite? && b.x.mag > 0 {
      FiniteQuotient(f, a, b, n);
      if ExponentSet(f, n) {
        LargeQuotient(f, a, b, n);
      } else {
        RmmDivScaledCorrect(f, n.x, a.x, b.x, e1, e2);
      }
    }
  }

  /** fmul.s on all data. */
  lemma MultiplyTotal(f: Format, w: Format, n: Datum, a: Datum, b: Datum)
    requires Widens(f, w) && Proper(f, a) && Proper(f, b) && n == Product(f, a, b, false)
    ensures MulFix(f, w, n, a, b) == Product(f, a, b, true)
  {
    hide EvenProduct, AwayProduct, RmmMulWide, Widens, Format.Valid;
    WidensParts(f, w);
    if a.Finite? && b.Finite? {
      var m := Float(a.x.neg != b.x.neg, Clamp(f, EvenProduct(f, a.x.mag, b.x.mag)));
      RmmMulWideCorrect(f, w, m, a.x, b.x);
      OverflowStays(f, w, m, a.x, b.x);
    }
  }

  // The fixup returns an infinite pattern as it is
  lemma OverflowStays(f: Format, w: Format, m: Float, a: Float, b: Float)
    requires w.k > f.k
    ensures m.mag >= f.inf ==> RmmMulWide(f, w, m, a, b) == m
  {
    hide MulWide, MidWide, RoundWide;
  }
}
