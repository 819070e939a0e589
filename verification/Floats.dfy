/**
 * Binary floating-point formats with symbolic precision (section 3.3 of IEEE 754-2008).
 *
 * A finite magnitude is its bit pattern without the sign, a natural number `u`: the exponent
 * field is `u / h` and the fraction `u % h`, where `h` is the weight of the hidden bit. All
 * values are counted in units of the smallest subnormal 2^-k, so every finite float is a natural.
 * The magnitude `inf` stands for infinity: it is the pattern following the largest finite float.
 */
module Floats {
  import opened Powers

  // `frac` fraction bits, that is precision frac + 1; the unit is 2^-k
  datatype Format = Format(frac: nat, k: nat, inf: nat) {
    // The largest finite float has an odd significand and there is a normal binade
    ghost predicate Valid() {
      && frac >= 1
      && inf % 2 == 0
      && inf >= 2 * Hidden()
    }

    // Weight of the hidden bit
    function Hidden(): nat { Pow2(frac) }

    // Units per 1.0
    function One(): (r: nat)
      ensures r >= 1
    {
      Pow2(k)
    }

    // Significand with the hidden bit, and its exponent, of the pattern `u`. Each further step of
    // the exponent field adds Hidden() to the pattern and doubles the weight of the significand.
    function Significand(u: nat): nat {
      if u < 2 * Hidden() then u else Significand(u - Hidden())
    }

    function Scale(u: nat): nat {
      if u < 2 * Hidden() then 0 else Scale(u - Hidden()) + 1
    }

    // The magnitude encoded by a bit pattern, in units of the smallest subnormal
    function Val(u: nat): nat
    {
      Significand(u) * Pow2(Scale(u))
    }

    // Distance to the next pattern
    function Gap(u: nat): (g: nat)
      ensures g >= 1
    {
      Pow2(Scale(u))
    }
  }

  lemma {:induction false} SignificandBound(f: Format, u: nat)
    ensures f.Significand(u) < Pow2(f.frac + 1) == 2 * f.Hidden()
    ensures u >= f.Hidden() ==> f.Significand(u) >= f.Hidden()
    ensures u < 2 * f.Hidden() ==> f.Significand(u) == u && f.Scale(u) == 0
  {
    if u >= 2 * f.Hidden() { SignificandBound(f, u - f.Hidden()); }
  }

  /** The field layout: a normal pattern has exponent field Scale + 1 and the rest is the fraction. */
  lemma {:induction false} Fields(f: Format, u: nat)
    requires u >= f.Hidden()
    ensures f.Significand(u) >= f.Hidden()
    ensures u / f.Hidden() == f.Scale(u) + 1
    ensures u % f.Hidden() == f.Significand(u) - f.Hidden()
  {
    SignificandBound(f, u);
    FieldSum(f, u);
    DivModUnique(u, f.Hidden(), f.Scale(u) + 1, f.Significand(u) - f.Hidden());
  }

  lemma {:induction false} FieldSum(f: Format, u: nat)
    requires u >= f.Hidden()
    ensures u == (f.Scale(u) + 1) * f.Hidden() + f.Significand(u) - f.Hidden()
  {
    if u >= 2 * f.Hidden() {
      FieldSum(f, u - f.Hidden());
      assert (f.Scale(u) + 1) * f.Hidden() == f.Scale(u) * f.Hidden() + f.Hidden();
    }
  }

  /** Adding one to the pattern steps to the adjacent float, also across binades. */
  lemma {:induction false} NextVal(f: Format, u: nat)
    ensures f.Val(u + 1) == f.Val(u) + f.Gap(u)
  {
    var h := f.Hidden();
    if u + 1 == 2 * h {
      assert f.Significand(u + 1) == f.Significand(h) == h;
      assert f.Scale(u + 1) == f.Scale(h) + 1 == 1;
      assert Pow2(1) == 2;
    } else if u >= 2 * h {
      NextVal(f, u - h);
      DoubleVal(f, u - h);
      DoubleVal(f, u - h + 1);
    }
  }

  /** One step of the exponent field doubles the value. */
  lemma DoubleVal(f: Format, u: nat)
    requires u >= f.Hidden()
    ensures f.Val(u + f.Hidden()) == 2 * f.Val(u)
    ensures f.Gap(u + f.Hidden()) == 2 * f.Gap(u)
  {
    assert f.Significand(u) * (2 * Pow2(f.Scale(u))) == 2 * f.Val(u);
  }

  lemma {:induction false} ValMonotone(f: Format, u: nat, v: nat)
    requires u < v
    ensures f.Val(u) < f.Val(v)
    decreases v - u
  {
    NextVal(f, v - 1);
    if u < v - 1 {
      ValMonotone(f, u, v - 1);
    }
  }

  lemma ValInjective(f: Format, u: nat, v: nat)
    requires f.Val(u) == f.Val(v)
    ensures u == v
  {
    if u < v { ValMonotone(f, u, v); } else if v < u { ValMonotone(f, v, u); }
  }

  lemma ZeroVal(f: Format)
    ensures f.Val(0) == 0
  {
    SignificandBound(f, 0);
  }

  /** The value of `u` and the midpoint above it, as an integer times a power of two. */
  lemma MidpointShape(f: Format, u: nat)
    ensures f.Val(u) + f.Val(u + 1) == (2 * f.Significand(u) + 1) * Pow2(f.Scale(u))
  {
    NextVal(f, u);
    TwiceAndOne(f.Significand(u), f.Gap(u));
  }

  lemma TwiceAndOne(s: nat, g: nat)
    ensures s * g + (s * g + g) == (2 * s + 1) * g
  {
  }

  lemma {:induction false} ScaleMonotone(f: Format, u: nat, v: nat)
    requires u <= v
    ensures f.Scale(u) <= f.Scale(v)
  {
    if u >= 2 * f.Hidden() { ScaleMonotone(f, u - f.Hidden(), v - f.Hidden()); }
  }

  /** Subnormals and the first binade are evenly spaced. */
  lemma SmallVal(f: Format, u: nat)
    requires u < 2 * f.Hidden()
    ensures f.Val(u) == u && f.Gap(u) == 1
  {
    SignificandBound(f, u);
  }

  /** Any integer below 2^p times a power of two is a float. */
  lemma {:induction false} Representable(f: Format, s: nat, j: nat) returns (u: nat)
    requires s < Pow2(f.frac + 1)
    ensures f.Val(u) == s * Pow2(j)
    ensures s >= f.Hidden() ==> u >= f.Hidden()
    decreases j
  {
    hide Format.Val;
    if j == 0 {
      u := s;
      SmallVal(f, s);
    } else if s >= f.Hidden() {
      u := Representable(f, s, j - 1);
      DoubleVal(f, u);
      u := u + f.Hidden();
      MulAssoc(s, 2, Pow2(j - 1));
    } else {
      u := Representable(f, 2 * s, j - 1);
      MulAssoc(s, 2, Pow2(j - 1));
    }
  }
}
