/**
 * RMM (ties to max magnitude) arithmetic synthesised from round-to-nearest-even plus a fixup.
 * Host operations are taken as correctly rounded; the error-free transforms as returning the
 * exact error. Every statement is for an arbitrary precision and exponent range.
 */
module TiesAway {
  import opened Powers
  import opened Floats
  import opened Rounding

  // Sign and magnitude bits of a finite or infinite float; NaNs are not represented
  datatype Float = Float(neg: bool, mag: nat)

  // The floats of `f` as a grid for the rational x = num / den, on the scale 2 * num
  function FloatGrid(f: Format, den: nat): Grid {
    Grid((u: nat) => 2 * (den * f.Val(u)), (u: nat) => den * f.Val(u) + den * f.Val(u + 1))
  }

  lemma FloatGridValid(f: Format, den: nat)
    requires den > 0
    ensures FloatGrid(f, den).Valid() && FloatGrid(f, den).Linear()
  {
    hide Format.Val, Pow2;
    var g := FloatGrid(f, den);
    ZeroVal(f);
    assert g.at(0) == 2 * (den * f.Val(0));
    forall u: nat {:trigger g.mid(u)}
      ensures g.at(u) < g.mid(u) < g.at(u + 1) && 2 * g.mid(u) == g.at(u) + g.at(u + 1)
    {
      var x, y := f.Val(u), f.Val(u + 1);
      assert x < y by { NextVal(f, u); }
      MulStrict(x, y, den);
      assert g.at(u) == 2 * (den * x) && g.mid(u) == den * x + den * y && g.at(u + 1) == 2 * (den * y);
    }
  }

  function Even(f: Format, num: nat, den: nat): nat
    requires den > 0
  {
    FloatGridValid(f, den);
    FloatGrid(f, den).RoundEven(2 * num)
  }

  function Away(f: Format, num: nat, den: nat): nat
    requires den > 0
  {
    FloatGridValid(f, den);
    FloatGrid(f, den).RoundAway(2 * num)
  }

  // num / den is the midpoint just above the float `n`
  predicate TieAbove(f: Format, num: nat, den: nat, n: nat) {
    2 * num == den * f.Val(n) + den * f.Val(n + 1)
  }

  lemma EvenAway(f: Format, num: nat, den: nat)
    requires den > 0
    ensures var n := Even(f, num, den);
            && Away(f, num, den) == (if TieAbove(f, num, den, n) then n + 1 else n)
            && (TieAbove(f, num, den, n) ==> n % 2 == 0)
            && 2 * num <= den * f.Val(n) + den * f.Val(n + 1)
            && (n > 0 ==> den * f.Val(n - 1) + den * f.Val(n) <= 2 * num)
  {
    hide Format.Val, Pow2;
    FloatGridValid(f, den);
    AwayFromEven(FloatGrid(f, den), 2 * num);
  }

  lemma EvenExact(f: Format, num: nat, den: nat, u: nat)
    requires den > 0
    requires num == den * f.Val(u)
    ensures Even(f, num, den) == u
  {
    FloatGridValid(f, den);
    RoundExact(FloatGrid(f, den), u);
  }

  function Signed(f: Format, x: Float): int {
    if x.neg then -(f.Val(x.mag) as int) else f.Val(x.mag)
  }

  function Magnitude(x: int): nat {
    if x < 0 then -x else x
  }

  function Clamp(f: Format, u: nat): nat {
    if u < f.inf then u else f.inf
  }

  // A correctly rounded host operation whose exact result is num / den
  function RoundFloat(f: Format, num: int, den: nat): Float
    requires den > 0
  {
    Float(num < 0, Clamp(f, Even(f, Magnitude(num), den)))
  }

  // `n` is the nearest-even result of an operation whose exact result is num / den
  ghost predicate IsEvenResult(f: Format, n: Float, num: int, den: nat)
    requires den > 0
  {
    n.mag == Clamp(f, Even(f, Magnitude(num), den)) && (num != 0 ==> n.neg == (num < 0))
  }

  // The ties-away result of the same operation
  function AwayResult(f: Format, n: Float, num: int, den: nat): Float
    requires den > 0
  {
    Float(n.neg, Clamp(f, Away(f, Magnitude(num), den)))
  }

  // ---------------------------------------------------------------- fadd, fsub

  function Sub(f: Format, x: Float, y: Float): Float {
    if x.mag >= f.inf then x else RoundFloat(f, Signed(f, x) - Signed(f, y), 1)
  }

  function Twice(f: Format, x: Float): Float {
    RoundFloat(f, 2 * Signed(f, x), 1)
  }

  // riscv_rmm_apply: step outward by one pattern iff 2 * err is exactly the gap
  function RmmApply(f: Format, n: Float, err: Float): Float {
    if err.mag == 0 || n.neg != err.neg then n
    else
      var away := Float(n.neg, n.mag + 1);
      if Twice(f, err) == Sub(f, away, n) then away else n
  }

  /** Doubling a float is exact. */
  lemma Doubled(f: Format, v: nat) returns (u: nat)
    ensures f.Val(u) == 2 * f.Val(v)
  {
    var s, j := f.Significand(v), f.Scale(v);
    assert s < Pow2(f.frac + 1) by { SignificandBound(f, v); }
    u := Representable(f, s, j + 1);
    assert s * Pow2(j + 1) == 2 * (s * Pow2(j));
  }

  lemma RoundFloatExact(f: Format, x: int, u: nat)
    requires Magnitude(x) == f.Val(u)
    ensures RoundFloat(f, x, 1) == Float(x < 0, Clamp(f, u))
  {
    EvenExact(f, Magnitude(x), 1, u);
  }

  /** The gap above a finite float is itself a finite float. */
  lemma GapCode(f: Format, n: nat) returns (g: nat)
    requires f.Valid() && n < f.inf
    ensures f.Val(g) == f.Gap(n) && g < f.inf
  {
    hide Format.Val;
    assert 1 < Pow2(f.frac + 1) by { Pow2Grows(f.frac + 1); }
    g := Representable(f, 1, f.Scale(n));
    if n + 1 == f.inf {
      GapBelowInf(f, n);
      CodeOrder(f, n, g);
    } else {
      NextVal(f, n);
      CodeOrder(f, g, n + 1);
    }
  }

  lemma CodeOrder(f: Format, u: nat, v: nat)
    ensures u <= v <==> f.Val(u) <= f.Val(v)
  {
    if u < v { ValMonotone(f, u, v); } else if v < u { ValMonotone(f, v, u); }
  }

  lemma GapBelowInf(f: Format, n: nat)
    requires f.Valid() && n + 1 == f.inf
    ensures f.Gap(n) < f.Val(n)
  {
    var h := f.Hidden();
    assert n >= h && h >= 2 by { assert h == 2 * Pow2(f.frac - 1); }
    SignificandBound(f, n);
    MulMonotone(2, f.Significand(n), f.Gap(n));
  }

  /**
   * fadd/fsub: with the exact error, the fixup turns the nearest-even result into the ties-away
   * result. Covers both signs, zeros, subnormals, binade boundaries and the largest finite float.
   */
  lemma RmmApplyCorrect(f: Format, n: Float, err: Float, x: int)
    requires f.Valid()
    requires IsEvenResult(f, n, x, 1) && n.mag < f.inf
    requires x == Signed(f, n) + Signed(f, err)
    ensures RmmApply(f, n, err) == AwayResult(f, n, x, 1)
  {
    hide Format.Val, Format.Gap, Even, Away, Pow2;
    var m := Magnitude(x);
    EvenAway(f, m, 1);
    NextVal(f, n.mag);
    ZeroVal(f);
    assert Even(f, m, 1) == n.mag;
    if err.mag == 0 || n.neg != err.neg {
      assert !TieAbove(f, m, 1, n.mag);
    } else {
      CodeOrder(f, err.mag, 0);
      var u := Doubled(f, err.mag);
      var g := GapCode(f, n.mag);
      RoundFloatExact(f, 2 * Signed(f, err), u);
      CodeOrder(f, u, g);
      CodeOrder(f, g, u);
      if n.mag + 1 < f.inf {
        RoundFloatExact(f, Signed(f, Float(n.neg, n.mag + 1)) - Signed(f, n), g);
      }
    }
  }

  /** The add wrapper: non-finite results are returned as they are. */
  function RmmAdd(f: Format, n: Float, err: Float): Float {
    if n.mag >= f.inf then n else RmmApply(f, n, err)
  }

  lemma RmmAddCorrect(f: Format, n: Float, err: Float, x: int)
    requires f.Valid()
    requires IsEvenResult(f, n, x, 1)
    requires n.mag < f.inf ==> x == Signed(f, n) + Signed(f, err)
    ensures RmmAdd(f, n, err) == AwayResult(f, n, x, 1)
  {
    if n.mag < f.inf { RmmApplyCorrect(f, n, err, x); } else { EvenAway(f, Magnitude(x), 1); }
  }

  // ---------------------------------------------------------------- fdiv

  /** A quotient whose nearest-even result is normal is never a midpoint (odd-part argument). */
  lemma NormalQuotientNoTie(f: Format, a: nat, b: nat, n: nat)
    requires b > 0
    requires n >= f.Hidden()
    ensures f.Val(b) > 0
    ensures !TieAbove(f, f.Val(a) * f.One(), f.Val(b), n)
  {
    hide *;
    assert f.Val(b) > 0 by { ValPositive(f, b); }
    var odd, j := 2 * f.Significand(n) + 1, f.Scale(n);
    assert odd > Pow2(f.frac + 1) by { SignificandBound(f, n); }
    QuotientTie(f, a, f.Val(b), odd, j);
    TieShape(f, f.Val(a) * f.One(), f.Val(b), n);
  }

  // The quotient of two floats, rounded in either mode
  function EvenQuotient(f: Format, a: nat, b: nat): nat
    requires b > 0
  {
    ValPositive(f, b);
    Even(f, f.Val(a) * f.One(), f.Val(b))
  }

  function AwayQuotient(f: Format, a: nat, b: nat): nat
    requires b > 0
  {
    ValPositive(f, b);
    Away(f, f.Val(a) * f.One(), f.Val(b))
  }

  /** fdiv with a nonzero exponent field in the nearest-even result needs no fixup. */
  lemma NormalQuotientRoundsSame(f: Format, a: nat, b: nat)
    requires b > 0
    ensures f.Val(b) > 0
    ensures var num := f.Val(a) * f.One();
            Even(f, num, f.Val(b)) >= f.Hidden() ==> Away(f, num, f.Val(b)) == Even(f, num, f.Val(b))
  {
    hide *;
    ValPositive(f, b);
    var num := f.Val(a) * f.One();
    EvenAway(f, num, f.Val(b));
    if Even(f, num, f.Val(b)) >= f.Hidden() {
      NormalQuotientNoTie(f, a, b, Even(f, num, f.Val(b)));
    }
  }

  lemma ValPositive(f: Format, u: nat)
    ensures f.Val(u) > 0 <==> u > 0
  {
    hide Format.Val;
    ZeroVal(f);
    CodeOrder(f, u, 0);
  }

  lemma TieShape(f: Format, num: nat, den: nat, n: nat)
    ensures TieAbove(f, num, den, n) <==> 2 * num == den * ((2 * f.Significand(n) + 1) * Pow2(f.Scale(n)))
  {
    hide Format.Val, Format.Scale, Format.Significand, Pow2;
    MidpointShape(f, n);
    Distribute(den, f.Val(n), f.Val(n + 1));
  }

  lemma QuotientTie(f: Format, a: nat, vb: nat, odd: nat, j: nat)
    requires vb > 0 && odd % 2 == 1 && odd > Pow2(f.frac + 1)
    ensures 2 * (f.Val(a) * f.One()) != vb * (odd * Pow2(j))
  {
    hide Format.Scale, Format.Significand, Pow2;
    var s, i := f.Significand(a), f.Scale(a);
    var c := vb * Pow2(j);
    assert vb * (odd * Pow2(j)) == odd * c by {
      MulAssoc(vb, odd, Pow2(j));
      MulCommute(vb, odd);
      MulAssoc(odd, vb, Pow2(j));
    }
    assert 2 * (f.Val(a) * f.One()) == s * Pow2(i + f.k + 1) by { PowersTogether(s, i, f.k); }
    if odd * c == s * Pow2(i + f.k + 1) {
      OddFactorBound(odd, c, s, i + f.k + 1) by { MulPositive(vb, Pow2(j)); }
      SignificandBound(f, a);
    }
  }

  lemma OddFactorBound(odd: nat, c: nat, x: nat, k: nat)
    requires odd % 2 == 1 && c > 0
    requires odd * c == x * Pow2(k)
    ensures odd <= x
  {
    var d := OddFactor(odd, c, x, k);
    MulPositive(odd, c);
    if d == 0 {
      assert false;
    }
    MulMonotone(1, d, odd);
  }

  lemma PowersTogether(s: nat, i: nat, k: nat)
    ensures 2 * (s * Pow2(i) * Pow2(k)) == s * Pow2(i + k + 1)
  {
    hide Pow2;
    PowStep(i + k);
    Pow2Add(i, k);
    var x, y := Pow2(i), Pow2(k);
    MulAssoc(s, x, y);
    TwiceProduct(s, x * y);
  }

  lemma TwiceProduct(s: nat, p: nat)
    ensures 2 * (s * p) == s * (2 * p)
  {
    MulAssoc(s, 2, p);
    MulAssoc(2, s, p);
    MulCommute(s, 2);
  }

  /** A float divided by a power of two that divides it is a float. */
  lemma ExactQuotient(f: Format, b: nat, d: nat, m: nat) returns (v: nat)
    requires f.Val(b) == d * Pow2(m)
    ensures f.Val(v) == d
  {
    var s, j := f.Significand(b), f.Scale(b);
    SignificandBound(f, b);
    if m <= j {
      Pow2Split(m, j);
      MulAssoc(s, Pow2(j - m), Pow2(m));
      CancelEqual(d, s * Pow2(j - m), Pow2(m));
      v := Representable(f, s, j - m);
    } else {
      Pow2Split(j, m);
      MulAssoc(d, Pow2(m - j), Pow2(j));
      CancelEqual(s, d * Pow2(m - j), Pow2(j));
      MulMonotone(1, Pow2(m - j), d);
      v := Representable(f, d, 0);
    }
  }

  /** On a tie the residual is exact: the divisor is a multiple of twice the unit. */
  lemma TieResidual(f: Format, a: nat, b: nat, n: nat, rn: nat)
    requires 2 * rn == f.Val(b)
    requires (2 * n + 1) * f.Val(b) == f.Val(a) * Pow2(f.k + 1)
    ensures 2 * (f.One() * f.Val(Even(f, rn, f.One()))) == f.Val(b)
  {
    hide Format.Val, Even;
    var odd, vb := 2 * n + 1, f.Val(b);
    var d := OddFactor(odd, vb, f.Val(a), f.k + 1);
    MulAssoc(odd, d, Pow2(f.k + 1));
    MulCommute(odd, vb);
    MulCommute(odd, d * Pow2(f.k + 1));
    CancelEqual(vb, d * Pow2(f.k + 1), odd);
    var v := ExactQuotient(f, b, d, f.k + 1);
    MulAssoc(d, 2, f.One());
    MulCommute(d, f.One());
    EvenExact(f, rn, f.One(), v);
  }

  /** An integer multiple of the ulp of `r` that does not exceed it is a float. */
  lemma CommonScale(f: Format, a: nat, r: nat, n: nat, t: nat) returns (v: nat)
    requires r <= a
    requires f.Val(a) == 2 * n * f.Val(r) + t && t <= f.Val(r)
    ensures f.Val(v) == t
  {
    hide Format.Scale, Format.Significand, Pow2;
    var j, sa, sr := f.Scale(r), f.Significand(a), f.Significand(r);
    ScaleMonotone(f, r, a);
    Pow2Split(j, f.Scale(a));
    var x := sa * Pow2(f.Scale(a) - j);
    MulAssoc(sa, Pow2(f.Scale(a) - j), Pow2(j));
    MulAssoc(2 * n, sr, Pow2(j));
    CommonFactor(x, 2 * n * sr, sr, Pow2(j), t);
    SignificandBound(f, r);
    v := Representable(f, x - 2 * n * sr, j);
  }

  lemma CommonFactor(x: nat, y: nat, z: nat, p: nat, t: nat)
    requires p > 0
    requires x * p == y * p + t && t <= z * p
    ensures y <= x && x - y <= z && (x - y) * p == t
  {
    CancelFactor(y, x, p);
    assert (x - y) * p == x * p - y * p;
    CancelFactor(x - y, z, p);
  }

  /** Conversely, if the rounded residual passes the test then nothing was rounded. */
  lemma TestResidual(f: Format, a: nat, b: nat, n: nat, rn: nat)
    requires f.Val(a) * f.One() == n * f.Val(b) + rn
    requires 2 * rn <= f.Val(b)
    requires n > 0 ==> f.Val(b) <= 2 * (f.Val(a) * f.One())
    requires 2 * (f.One() * f.Val(Even(f, rn, f.One()))) == f.Val(b)
    ensures 2 * rn == f.Val(b)
  {
    hide Format.Val, Even, Format.One, Pow2;
    var r, k := Even(f, rn, f.One()), f.One();
    var va, vr := f.Val(a), f.Val(r);
    MulCommute(k, vr);
    MulAssoc(2 * n, vr, k);
    assert n * f.Val(b) == 2 * n * (vr * k);
    assert va * k == (2 * n * vr) * k + rn;
    CancelFactor(2 * n * vr, va, k);
    var t := va - 2 * n * vr;
    assert rn == t * k;
    CancelFactor(t, vr, k);
    var v;
    if n == 0 {
      v := a;
    } else {
      CancelFactor(vr, va, k);
      CodeOrder(f, r, a);
      v := CommonScale(f, a, r, n, t);
    }
    MulCommute(k, t);
    EvenExact(f, rn, k, v);
  }

  lemma EvenBound(f: Format, num: nat, den: nat, u: nat)
    requires den > 0 && num <= den * f.Val(u)
    ensures Even(f, num, den) <= u
  {
    hide Format.Val, Even, Away;
    var n := Even(f, num, den);
    EvenAway(f, num, den);
    if n > u {
      CodeOrder(f, u, n - 1);
      CodeOrder(f, n, u);
      MulMonotone(f.Val(u), f.Val(n - 1), den);
      MulStrict(f.Val(u), f.Val(n), den);
      assert false;
    }
  }

  // fma(-n, b, a), rounded once
  function Residual(f: Format, n: Float, a: Float, b: Float): Float {
    RoundFloat(f, Signed(f, a) * f.One() - Signed(f, n) * Signed(f, b), f.One())
  }

  // The sign of an IEEE quotient or product, zeros included
  predicate SignRule(n: Float, a: Float, b: Float) {
    n.neg == (a.neg != b.neg)
  }

  /** What the rounded residual says about a zero or subnormal quotient. */
  lemma ResidualMeaning(f: Format, n: Float, a: Float, b: Float)
    requires f.Valid() && SignRule(n, a, b)
    requires a.mag < f.inf && 0 < b.mag < f.inf
    requires f.Val(b.mag) > 0 && n.mag == Even(f, f.Val(a.mag) * f.One(), f.Val(b.mag)) < f.Hidden()
    ensures var rho := Residual(f, n, a, b);
            && rho.mag < f.inf
            && (TieAbove(f, f.Val(a.mag) * f.One(), f.Val(b.mag), n.mag) <==>
                rho.neg == a.neg && 2 * (f.One() * f.Val(rho.mag)) == f.Val(b.mag))
  {
    hide Format.Val, Even, Away, Format.One, Pow2;
    var va, vb, k := f.Val(a.mag), f.Val(b.mag), f.One();
    SmallVal(f, n.mag);
    SmallVal(f, n.mag + 1);
    EvenAway(f, va * k, vb);
    MulCommute(vb, n.mag);
    Distribute(vb, n.mag, 1);
    SignedProduct(va, n.mag, vb, k, a.neg, b.neg);
    var x := va * k - n.mag * vb;
    assert 2 * x <= vb && -vb <= 2 * x by { Neighbours(f, va * k, vb, n.mag); }
    var m := Magnitude(x);
    MulMonotone(1, k, vb);
    EvenBound(f, m, k, b.mag);
    assert f.Val(n.mag) == n.mag;
    if x >= 0 {
      if 2 * x == vb {
        SubnormalTie(f, va, vb, n.mag, x);
        TieResidual(f, a.mag, b.mag, n.mag, x);
      } else if 2 * (k * f.Val(Even(f, m, k))) == vb {
        if n.mag > 0 { assert vb <= 2 * (va * k) by { Neighbours(f, va * k, vb, n.mag); MulMonotone(1, n.mag, vb); } }
        TestResidual(f, a.mag, b.mag, n.mag, x);
      }
    }
  }

  lemma Neighbours(f: Format, num: nat, den: nat, n: nat)
    requires den > 0 && n == Even(f, num, den) < f.Hidden()
    ensures 2 * num <= 2 * (n * den) + den
    ensures 2 * (n * den) <= 2 * num + den
  {
    hide Format.Val, Even, Away, Pow2;
    EvenAway(f, num, den);
    SmallVal(f, n);
    SmallVal(f, n + 1);
    Distribute(den, n, 1);
    MulCommute(den, n);
    if n > 0 {
      SmallVal(f, n - 1);
      Distribute(den, n - 1, 1);
    }
  }

  lemma SubnormalTie(f: Format, va: nat, vb: nat, n: nat, x: nat)
    requires va * f.One() == n * vb + x && 2 * x == vb
    ensures (2 * n + 1) * vb == va * Pow2(f.k + 1)
  {
    hide Pow2;
    assert Pow2(f.k + 1) == 2 * f.One() by { PowStep(f.k); }
    MulAssoc(va, 2, f.One());
    MulAssoc(2, n, vb);
    assert (2 * n + 1) * vb == 2 * n * vb + vb;
  }

  lemma PowStep(k: nat)
    ensures Pow2(k + 1) == 2 * Pow2(k)
  {
  }

  lemma SignedProduct(va: nat, vn: nat, vb: nat, k: nat, aneg: bool, bneg: bool)
    ensures var sa := if aneg then -(va as int) else va;
            var sn := if aneg != bneg then -(vn as int) else vn;
            var sb := if bneg then -(vb as int) else vb;
            sa * k - sn * sb == if aneg then -(va * k - vn * vb) else va * k - vn * vb
  {
  }

  // ---------------------------------------------------------------- the wider format

  // `w` holds every product, midpoint and doubled value of `f` exactly
  ghost predicate Widens(f: Format, w: Format) {
    && f.Valid() && w.Valid()
    && w.frac + 1 >= 2 * (f.frac + 1)
    && w.k >= 2 * f.k && w.k > f.k
    && 2 * f.Val(f.inf) * Pow2(w.k - f.k) < w.Val(w.inf)
    && f.Val(f.inf) * f.Val(f.inf) * Pow2(w.k - 2 * f.k) < w.Val(w.inf)
  }

  // fpu_fcvt_f32_to_f64, as a value in units of `w`
  function Widen(f: Format, w: Format, x: Float): int
    requires w.k >= f.k
  {
    Signed(f, x) * Pow2(w.k - f.k)
  }

  // The value of a correctly rounded operation in `w` whose exact result is num / den
  function RoundWide(w: Format, num: int, den: nat): int
    requires den > 0
  {
    Signed(w, RoundFloat(w, num, den))
  }

  function Negate(neg: bool, v: nat): int {
    if neg then -(v as int) else v
  }

  /** A wide operation whose exact result is a wide float is exact. */
  lemma WideExact(w: Format, num: int, den: nat, neg: bool, v: nat, u: nat)
    requires den > 0 && w.Val(u) == v && v < w.Val(w.inf)
    requires num == Negate(neg, den * v)
    ensures RoundWide(w, num, den) == Negate(neg, v)
  {
    hide Format.Val, Even, Pow2;
    CodeOrder(w, w.inf, u);
    EvenExact(w, Magnitude(num), den, u);
    if v > 0 { MulPositive(den, v); }
  }

  // The product of two magnitudes of `f`, in units of `w`
  function WideProduct(f: Format, w: Format, x: nat, y: nat): nat
    requires w.k >= 2 * f.k
  {
    x * y * Pow2(w.k - 2 * f.k)
  }

  // fpu_mul64 of two widened operands
  function MulWide(f: Format, w: Format, a: Float, b: Float): int
    requires w.k >= f.k
  {
    RoundWide(w, Widen(f, w, a) * Widen(f, w, b), w.One())
  }

  // riscv_rmm_div_apply_f32: the tie test is evaluated in the wider format
  function RmmDivWide(f: Format, w: Format, n: Float, a: Float, b: Float): Float
    requires w.k >= f.k
  {
    if n.mag >= f.Hidden() then n
    else
      var rho := Residual(f, n, a, b);
      var away := Float(n.neg, n.mag + 1);
      var gap := Sub(f, away, n);
      var twoRho := RoundWide(w, Widen(f, w, rho) + Widen(f, w, rho), 1);
      var gapB := MulWide(f, w, gap, b);
      if twoRho == gapB then away else n
  }

  lemma SubnormalGap(f: Format, n: Float)
    requires f.Valid() && n.mag < f.Hidden()
    ensures Sub(f, Float(n.neg, n.mag + 1), n) == Float(n.neg, 1)
  {
    hide Format.Val, Pow2, Even;
    assert f.Hidden() >= 1;
    SmallVal(f, n.mag);
    SmallVal(f, n.mag + 1);
    SmallVal(f, 1);
    RoundFloatExact(f, Negate(n.neg, 1), 1);
  }

  lemma TwoRhoExact(f: Format, w: Format, rho: Float)
    requires Widens(f, w) && rho.mag < f.inf
    ensures RoundWide(w, Widen(f, w, rho) + Widen(f, w, rho), 1)
              == Negate(rho.neg, 2 * f.Val(rho.mag) * Pow2(w.k - f.k))
  {
    hide Format.Val, Pow2, RoundWide, Widen, Negate, Widens;
    var u := TwoRhoCode(f, w, rho.mag);
    TwiceWiden(f, w, rho);
    var x := 2 * f.Val(rho.mag) * Pow2(w.k - f.k);
    OneTimes(x);
    WideExact(w, Widen(f, w, rho) + Widen(f, w, rho), 1, rho.neg, x, u);
  }

  // Twice a widened float is a wide float
  lemma TwoRhoCode(f: Format, w: Format, r: nat) returns (u: nat)
    requires Widens(f, w) && r < f.inf
    ensures w.Val(u) == 2 * f.Val(r) * Pow2(w.k - f.k) < w.Val(w.inf) && w.k > f.k
  {
    hide Format.Scale, Format.Significand, Pow2;
    var v, s, i, d := f.Val(r), f.Significand(r), f.Scale(r), w.k - f.k;
    assert s < Pow2(w.frac + 1) by { SignificandBound(f, r); Pow2Monotone(f.frac + 1, w.frac + 1); }
    assert 2 * v * Pow2(d) == s * Pow2(i + d + 1) by { PowersTogether(s, i, d); MulAssoc(2, v, Pow2(d)); }
    assert 2 * v * Pow2(d) < w.Val(w.inf) by {
      CodeOrder(f, r, f.inf);
      MulMonotone(2 * v, 2 * f.Val(f.inf), Pow2(d));
    }
    u := Representable(w, s, i + d + 1);
  }

  lemma TwiceWiden(f: Format, w: Format, x: Float)
    requires w.k >= f.k
    ensures Widen(f, w, x) + Widen(f, w, x) == Negate(x.neg, 2 * f.Val(x.mag) * Pow2(w.k - f.k))
  {
    hide Format.Val, Pow2;
    var v, p := f.Val(x.mag), Pow2(w.k - f.k);
    SignedScale(v, p, x.neg);
    MulAssoc(2, v, p);
  }

  lemma FourFactors(a: nat, x: nat, b: nat, y: nat)
    ensures (a * x) * (b * y) == (a * b) * (x * y)
  {
    MulAssoc(a * x, b, y);
    MulAssoc(a, x, b);
    MulCommute(x, b);
    MulAssoc(a, b, x);
    MulAssoc(a * b, x, y);
  }

  lemma ScaleSquared(f: Format, w: Format)
    requires w.k >= 2 * f.k
    ensures Pow2(w.k - f.k) * Pow2(w.k - f.k) == w.One() * Pow2(w.k - 2 * f.k)
  {
    Pow2Add(w.k - f.k, w.k - f.k);
    Pow2Add(w.k, w.k - 2 * f.k);
  }

  /** The product of two floats of `f` is exact in `w`. */
  lemma ProductExact(f: Format, w: Format, a: Float, b: Float)
    requires w.k >= 2 * f.k && Widens(f, w) && a.mag < f.inf && b.mag < f.inf
    ensures MulWide(f, w, a, b) == Negate(a.neg != b.neg, WideProduct(f, w, f.Val(a.mag), f.Val(b.mag)))
  {
    hide Format.Val, Pow2, RoundWide, Widen, Widens, WideProduct;
    var v := WideProduct(f, w, f.Val(a.mag), f.Val(b.mag));
    var u := ProductCode(f, w, a.mag, b.mag);
    assert v < w.Val(w.inf) by { ProductRange(f, w, a.mag, b.mag); }
    ProductValue(f, w, a, b);
    WideExact(w, Widen(f, w, a) * Widen(f, w, b), w.One(), a.neg != b.neg, v, u);
  }

  lemma ProductCode(f: Format, w: Format, a: nat, b: nat) returns (u: nat)
    requires w.k >= 2 * f.k && Widens(f, w)
    ensures w.Val(u) == WideProduct(f, w, f.Val(a), f.Val(b))
  {
    hide Format.Val, Pow2;
    var s, j := ProductShape(f, a, b, w.k - 2 * f.k);
    assert s < Pow2(w.frac + 1) by { Pow2Monotone(2 * (f.frac + 1), w.frac + 1); }
    u := Representable(w, s, j);
  }

  lemma ProductRange(f: Format, w: Format, a: nat, b: nat)
    requires Widens(f, w) && a < f.inf && b < f.inf
    ensures WideProduct(f, w, f.Val(a), f.Val(b)) < w.Val(w.inf)
  {
    hide Format.Val, Pow2;
    CodeOrder(f, a, f.inf);
    CodeOrder(f, b, f.inf);
    MulBoth(f.Val(a), f.Val(f.inf), f.Val(b), f.Val(f.inf));
    MulMonotone(f.Val(a) * f.Val(b), f.Val(f.inf) * f.Val(f.inf), Pow2(w.k - 2 * f.k));
  }

  lemma ProductValue(f: Format, w: Format, a: Float, b: Float)
    requires w.k >= 2 * f.k
    ensures Widen(f, w, a) * Widen(f, w, b)
            == Negate(a.neg != b.neg, w.One() * WideProduct(f, w, f.Val(a.mag), f.Val(b.mag)))
  {
    hide Format.Val, Pow2, WideProduct, Format.One;
    var va, vb, d := f.Val(a.mag), f.Val(b.mag), Pow2(w.k - f.k);
    assert Widen(f, w, a) == Negate(a.neg, va * d) by { SignedScale(va, d, a.neg); }
    assert Widen(f, w, b) == Negate(b.neg, vb * d) by { SignedScale(vb, d, b.neg); }
    assert (va * d) * (vb * d) == w.One() * WideProduct(f, w, va, vb) by { ProductUnits(f, w, va, vb); }
    SignedFactors(va * d, vb * d, a.neg, b.neg);
  }

  lemma ProductUnits(f: Format, w: Format, va: nat, vb: nat)
    requires w.k >= 2 * f.k
    ensures (va * Pow2(w.k - f.k)) * (vb * Pow2(w.k - f.k)) == w.One() * WideProduct(f, w, va, vb)
  {
    hide Pow2;
    var d, e := Pow2(w.k - f.k), Pow2(w.k - 2 * f.k);
    FourFactors(va, d, vb, d);
    ScaleSquared(f, w);
    var v := va * vb;
    assert v * (w.One() * e) == w.One() * (v * e) by {
      MulAssoc(v, w.One(), e);
      MulCommute(v, w.One());
      MulAssoc(w.One(), v, e);
    }
  }

  lemma SignedScale(v: nat, d: nat, neg: bool)
    ensures Negate(neg, v) * d == Negate(neg, v * d)
  {
  }

  lemma MulBoth(a: nat, a': nat, b: nat, b': nat)
    requires a <= a' && b <= b'
    ensures a * b <= a' * b'
  {
    MulMonotone(a, a', b);
    MulMonotone(b, b', a');
    MulCommute(a', b);
    MulCommute(a', b');
  }

  lemma SignedFactors(x: nat, y: nat, xneg: bool, yneg: bool)
    ensures Negate(xneg, x) * Negate(yneg, y) == Negate(xneg != yneg, x * y)
  {
  }

  lemma ProductShape(f: Format, a: nat, b: nat, e: nat) returns (s: nat, j: nat)
    ensures f.Val(a) * f.Val(b) * Pow2(e) == s * Pow2(j)
    ensures s < Pow2(2 * (f.frac + 1))
  {
    hide Format.Scale, Format.Significand, Pow2;
    var sa, ia, sb, ib := f.Significand(a), f.Scale(a), f.Significand(b), f.Scale(b);
    s, j := sa * sb, ia + ib + e;
    assert f.Val(a) * f.Val(b) == s * Pow2(ia + ib) by {
      FourFactors(sa, Pow2(ia), sb, Pow2(ib));
      Pow2Add(ia, ib);
    }
    assert s * Pow2(ia + ib) * Pow2(e) == s * Pow2(j) by {
      Pow2Add(ia + ib, e);
      MulAssoc(s, Pow2(ia + ib), Pow2(e));
    }
    assert s < Pow2(2 * (f.frac + 1)) by {
      SignificandBound(f, a);
      SignificandBound(f, b);
      Pow2Add(f.frac + 1, f.frac + 1);
      BelowSquare(sa, sb, Pow2(f.frac + 1));
    }
  }

  lemma BelowSquare(x: nat, y: nat, p: nat)
    requires x < p && y < p
    ensures x * y < p * p
  {
    MulBoth(x, p, y, p - 1);
    Distribute(p, p - 1, 1);
  }

  /**
   * fdiv.s: for every quotient of finite floats the code returns the ties-away result, normal,
   * subnormal, zero or infinite, although the residual itself may have been rounded.
   */
  lemma RmmDivWideCorrect(f: Format, w: Format, n: Float, a: Float, b: Float)
    requires Widens(f, w) && SignRule(n, a, b)
    requires a.mag < f.inf && 0 < b.mag < f.inf
    requires n.mag == Clamp(f, EvenQuotient(f, a.mag, b.mag))
    ensures RmmDivWide(f, w, n, a, b) == Float(n.neg, Clamp(f, AwayQuotient(f, a.mag, b.mag)))
  {
    hide Format.Val, Even, Away, Pow2, RoundWide, MulWide, Widen, Residual, Sub, Format.One;
    var va, vb := f.Val(a.mag), f.Val(b.mag);
    ValPositive(f, b.mag);
    EvenAway(f, va * f.One(), vb);
    if n.mag >= f.Hidden() {
      NormalQuotientNoTie(f, a.mag, b.mag, Even(f, va * f.One(), vb));
    } else {
      var rho := Residual(f, n, a, b);
      ResidualMeaning(f, n, a, b);
      SubnormalGap(f, n);
      var gap := Float(n.neg, 1);
      TwoRhoExact(f, w, rho);
      SmallVal(f, 1);
      ProductExact(f, w, gap, b);
      ScaledTest(f, w, f.Val(rho.mag), vb);
      assert vb * Pow2(w.k - 2 * f.k) > 0 by { MulPositive(vb, Pow2(w.k - 2 * f.k)); }
    }
  }

  lemma ScaledTest(f: Format, w: Format, r: nat, v: nat)
    requires w.k >= 2 * f.k
    ensures 2 * r * Pow2(w.k - f.k) == v * Pow2(w.k - 2 * f.k) <==> 2 * (f.One() * r) == v
  {
    var e := Pow2(w.k - 2 * f.k);
    Pow2Add(f.k, w.k - 2 * f.k);
    MulAssoc(2 * r, f.One(), e);
    MulCommute(f.One(), r);
    MulAssoc(2, r, f.One());
    if 2 * r * f.One() * e == v * e { CancelEqual(2 * r * f.One(), v, e); }
  }

  // ---------------------------------------------------------------- fmul.s

  // n + (away - n) * 0.5, evaluated in the wider format
  function MidWide(f: Format, w: Format, n: Float): int
    requires w.k > f.k
  {
    var dn := Widen(f, w, n);
    var diff := RoundWide(w, Widen(f, w, Float(n.neg, n.mag + 1)) - dn, 1);
    RoundWide(w, dn + RoundWide(w, diff * Pow2(w.k - 1), w.One()), 1)
  }

  // riscv_rmm_mul_f32; with an infinite `away` the midpoint is infinite and the test fails
  function RmmMulWide(f: Format, w: Format, n: Float, a: Float, b: Float): Float
    requires w.k > f.k
  {
    if n.mag >= f.inf || n.mag + 1 == f.inf then n
    else if RoundWide(w, MulWide(f, w, a, b) - MidWide(f, w, n), 1) == 0 then Float(n.neg, n.mag + 1)
    else n
  }

  /** A difference of floats rounds to zero only if it is zero (gradual underflow). */
  lemma ZeroTest(w: Format, d: int)
    requires w.inf > 0
    ensures RoundWide(w, d, 1) == 0 <==> d == 0
  {
    hide Format.Val, Even, Away;
    var u := Even(w, Magnitude(d), 1);
    EvenAway(w, Magnitude(d), 1);
    ZeroVal(w);
    SmallVal(w, 0);
    SmallVal(w, 1);
    ValPositive(w, Clamp(w, u));
    if d == 0 { EvenBound(w, 0, 1, 0); }
  }

  lemma PowerExact(f: Format, w: Format, n: nat, d: nat)
    requires Widens(f, w) && n + 1 < f.inf && d <= w.k - f.k
    ensures f.Gap(n) * Pow2(d) < w.Val(w.inf)
    ensures exists u :: w.Val(u) == f.Gap(n) * Pow2(d)
  {
    hide Format.Val;
    var g := GapCode(f, n);
    CodeOrder(f, g, f.inf);
    Pow2Monotone(d, w.k - f.k);
    MulBoth(f.Gap(n), 2 * f.Val(f.inf), Pow2(d), Pow2(w.k - f.k));
    Pow2Grows(w.frac + 1);
    var u := Representable(w, 1, f.Scale(n) + d);
    Pow2Add(f.Scale(n), d);
    assert w.Val(u) == f.Gap(n) * Pow2(d);
  }

  /** The widened midpoint is exact. */
  lemma MidWideExact(f: Format, w: Format, n: Float)
    requires w.k > f.k && Widens(f, w) && n.mag + 1 < f.inf
    ensures MidWide(f, w, n) == Negate(n.neg, (f.Val(n.mag) + f.Val(n.mag + 1)) * Pow2(w.k - f.k - 1))
  {
    hide Format.Val, Format.Gap, Pow2, RoundWide, Widens, Negate, Widen;
    var v, g, d := f.Val(n.mag), f.Gap(n.mag), w.k - f.k;
    NextVal(f, n.mag);
    var dn := Widen(f, w, n);
    GapWideExact(f, w, n);
    HalfWideExact(f, w, n);
    var m := (v + f.Val(n.mag + 1)) * Pow2(d - 1);
    assert dn + Negate(n.neg, g * Pow2(d - 1)) == Negate(n.neg, m) by { WidenIs(f, w, n); HalfStep(v, g, d, n.neg); }
    var u3 := MidCode(f, w, n.mag);
    OneTimes(m);
    WideExact(w, dn + Negate(n.neg, g * Pow2(d - 1)), 1, n.neg, m, u3);
  }

  lemma OneTimes(m: nat)
    ensures 1 * m == m
  {
  }

  lemma WidenIs(f: Format, w: Format, n: Float)
    requires w.k >= f.k
    ensures Widen(f, w, n) == Negate(n.neg, f.Val(n.mag)) * Pow2(w.k - f.k)
  {
  }

  // The widened gap is exact
  lemma GapWideExact(f: Format, w: Format, n: Float)
    requires w.k > f.k && Widens(f, w) && n.mag + 1 < f.inf
    ensures RoundWide(w, Widen(f, w, Float(n.neg, n.mag + 1)) - Widen(f, w, n), 1)
              == Negate(n.neg, f.Gap(n.mag) * Pow2(w.k - f.k))
  {
    hide Format.Val, Format.Gap, Pow2, RoundWide, Widens, Negate, Widen;
    var g, d := f.Gap(n.mag), w.k - f.k;
    PowerExact(f, w, n.mag, d);
    var u1 :| w.Val(u1) == g * Pow2(d);
    WidenStep(f, w, n);
    OneTimes(g * Pow2(d));
    WideExact(w, Widen(f, w, Float(n.neg, n.mag + 1)) - Widen(f, w, n), 1, n.neg, g * Pow2(d), u1);
  }

  // Half of it too
  lemma HalfWideExact(f: Format, w: Format, n: Float)
    requires w.k > f.k && Widens(f, w) && n.mag + 1 < f.inf
    ensures RoundWide(w, Negate(n.neg, f.Gap(n.mag) * Pow2(w.k - f.k)) * Pow2(w.k - 1), w.One())
              == Negate(n.neg, f.Gap(n.mag) * Pow2(w.k - f.k - 1))
  {
    hide Format.Val, Format.Gap, Pow2, RoundWide, Widens, Negate, Widen;
    var g, d := f.Gap(n.mag), w.k - f.k;
    PowerExact(f, w, n.mag, d - 1);
    var u2 :| w.Val(u2) == g * Pow2(d - 1);
    HalveUnits(w, g, d, n.neg);
    WideExact(w, Negate(n.neg, g * Pow2(d)) * Pow2(w.k - 1), w.One(), n.neg, g * Pow2(d - 1), u2);
  }

  lemma WidenStep(f: Format, w: Format, n: Float)
    requires w.k >= f.k
    ensures Widen(f, w, Float(n.neg, n.mag + 1)) - Widen(f, w, n) == Negate(n.neg, f.Gap(n.mag) * Pow2(w.k - f.k))
  {
    hide Format.Val, Format.Gap, Pow2;
    var d := Pow2(w.k - f.k);
    NextVal(f, n.mag);
    SignedScale(f.Val(n.mag), d, n.neg);
    SignedScale(f.Val(n.mag + 1), d, n.neg);
    Distribute(d, f.Val(n.mag), f.Gap(n.mag));
    MulCommute(d, f.Val(n.mag));
    MulCommute(d, f.Gap(n.mag));
    MulCommute(d, f.Val(n.mag + 1));
  }

  lemma HalveUnits(w: Format, g: nat, d: nat, neg: bool)
    requires d > 0 && w.k > 0
    ensures Negate(neg, g * Pow2(d)) * Pow2(w.k - 1) == Negate(neg, w.One() * (g * Pow2(d - 1)))
  {
    var x, y := g * Pow2(d - 1), Pow2(w.k - 1);
    assert g * Pow2(d) == 2 * x by { MulAssoc(g, 2, Pow2(d - 1)); }
    assert w.One() == 2 * y;
    SignedScale(2 * x, y, neg);
    assert (2 * x) * y == (2 * y) * x by { MulAssoc(2, x, y); MulCommute(x, y); MulAssoc(2, y, x); }
  }

  lemma HalfStep(v: nat, g: nat, d: nat, neg: bool)
    requires d > 0
    ensures Negate(neg, v) * Pow2(d) + Negate(neg, g * Pow2(d - 1)) == Negate(neg, (v + (v + g)) * Pow2(d - 1))
  {
    var p := Pow2(d - 1);
    SignedScale(v, 2 * p, neg);
    assert v * (2 * p) == 2 * v * p by { MulAssoc(v, 2, p); }
    assert (v + (v + g)) * p == 2 * v * p + g * p by {
      MulCommute(2 * v + g, p);
      Distribute(p, 2 * v, g);
      MulCommute(p, 2 * v);
      MulCommute(p, g);
    }
  }

  lemma MidCode(f: Format, w: Format, n: nat) returns (u: nat)
    requires w.k > f.k && Widens(f, w) && n + 1 < f.inf
    ensures w.Val(u) == (f.Val(n) + f.Val(n + 1)) * Pow2(w.k - f.k - 1) < w.Val(w.inf)
  {
    hide Format.Val, Format.Scale, Format.Significand, Pow2;
    var s, j, e := 2 * f.Significand(n) + 1, f.Scale(n), w.k - f.k - 1;
    assert s < Pow2(w.frac + 1) by {
      SignificandBound(f, n);
      PowStep(f.frac + 1);
      Pow2Monotone(f.frac + 2, w.frac + 1);
    }
    u := Representable(w, s, j + e);
    MidpointShape(f, n);
    Pow2Add(j, e);
    MulAssoc(s, Pow2(j), Pow2(e));
    CodeOrder(f, n, f.inf);
    CodeOrder(f, n + 1, f.inf);
    Pow2Monotone(e, w.k - f.k);
    MulBoth(f.Val(n) + f.Val(n + 1), 2 * f.Val(f.inf), Pow2(e), Pow2(w.k - f.k));
  }

  // The product of two floats, rounded in either mode
  function EvenProduct(f: Format, a: nat, b: nat): nat { Even(f, ValProduct(f, a, b), f.One()) }
  function AwayProduct(f: Format, a: nat, b: nat): nat { Away(f, ValProduct(f, a, b), f.One()) }

  function ValProduct(f: Format, a: nat, b: nat): nat {
    var x, y := f.Val(a), f.Val(b);
    x * y
  }

  /** fmul.s: the widened test is exact, so the code returns the ties-away product. */
  lemma RmmMulWideCorrect(f: Format, w: Format, n: Float, a: Float, b: Float)
    requires w.k > f.k && w.k >= 2 * f.k && Widens(f, w) && SignRule(n, a, b)
    requires a.mag < f.inf && b.mag < f.inf
    requires n.mag == Clamp(f, EvenProduct(f, a.mag, b.mag))
    ensures RmmMulWide(f, w, n, a, b) == Float(n.neg, Clamp(f, AwayProduct(f, a.mag, b.mag)))
  {
    hide Format.Val, Even, Away, Pow2, RoundWide, MulWide, MidWide, Format.One, WideProduct, TieAbove, SignRule;
    var num := ValProduct(f, a.mag, b.mag);
    EvenAway(f, num, f.One());
    if n.mag + 1 < f.inf {
      ZeroTest(w, MulWide(f, w, a, b) - MidWide(f, w, n));
      MidpointIsTie(f, w, n, a, b, num);
    }
  }

  // The widened product meets the widened midpoint exactly in a tie
  lemma MidpointIsTie(f: Format, w: Format, n: Float, a: Float, b: Float, num: nat)
    requires w.k > f.k && w.k >= 2 * f.k && Widens(f, w) && SignRule(n, a, b)
    requires a.mag < f.inf && b.mag < f.inf && n.mag + 1 < f.inf && num == ValProduct(f, a.mag, b.mag)
    ensures MulWide(f, w, a, b) - MidWide(f, w, n) == 0 <==> TieAbove(f, num, f.One(), n.mag)
  {
    hide Format.Val, Pow2, RoundWide, MulWide, MidWide, Format.One, WideProduct;
    ProductExact(f, w, a, b);
    MidWideExact(f, w, n);
    MidpointTest(f, w, f.Val(a.mag), f.Val(b.mag), f.Val(n.mag), f.Val(n.mag + 1));
  }

  lemma MidpointTest(f: Format, w: Format, va: nat, vb: nat, x: nat, y: nat)
    requires w.k > f.k && w.k >= 2 * f.k
    ensures WideProduct(f, w, va, vb) == (x + y) * Pow2(w.k - f.k - 1)
            <==> 2 * (va * vb) == f.One() * x + f.One() * y
  {
    hide Pow2;
    var v, s, e, h, k := va * vb, x + y, Pow2(w.k - 2 * f.k), Pow2(w.k - f.k - 1), f.One();
    assert 2 * h == k * e by { PowStep(w.k - f.k - 1); Pow2Add(f.k, w.k - 2 * f.k); }
    assert k * x + k * y == s * k by { Distribute(k, x, y); MulCommute(k, s); }
    assert (s * k) * e == 2 * (s * h) by { MulAssoc(s, k, e); MulAssoc(s, 2, h); }
    assert (2 * v) * e == 2 * (v * e) by { MulAssoc(2, v, e); }
    if v * e == s * h { CancelEqual(2 * v, s * k, e); }
  }

  // ---------------------------------------------------------------- fdiv.d

  // Multiplication by 2^e in the same format; an infinity stays one
  function ScaleUp(f: Format, x: Float, e: nat): Float {
    if x.mag >= f.inf then x else RoundFloat(f, Signed(f, x) * Pow2(e), 1)
  }

  // riscv_rmm_div_apply_f64: no wider format, so rho * 2^(k+1) is compared with +-b in two steps
  function RmmDivScaled(f: Format, n: Float, a: Float, b: Float, e1: nat, e2: nat): Float {
    if n.mag >= f.Hidden() then n
    else
      var rho := Residual(f, n, a, b);
      var away := Float(n.neg, n.mag + 1);
      var gap := Sub(f, away, n);
      var target := if gap.neg then Float(!b.neg, b.mag) else b;
      if ScaleUp(f, ScaleUp(f, rho, e1), e2) == target then away else n
  }

  /** Scaling by a power of two is exact up to overflow. */
  lemma ScaleUpExact(f: Format, x: Float, e: nat) returns (u: nat)
    requires x.mag < f.inf
    ensures f.Val(u) == f.Val(x.mag) * Pow2(e)
    ensures ScaleUp(f, x, e) == Float(x.neg && x.mag > 0, Clamp(f, u))
  {
    hide Format.Scale, Format.Significand, Pow2, Even;
    var s, j := f.Significand(x.mag), f.Scale(x.mag);
    SignificandBound(f, x.mag);
    u := Representable(f, s, j + e);
    Pow2Add(j, e);
    MulAssoc(s, Pow2(j), Pow2(e));
    SignedScale(f.Val(x.mag), Pow2(e), x.neg);
    ValPositive(f, x.mag);
    if x.mag > 0 { MulPositive(f.Val(x.mag), Pow2(e)); }
    RoundFloatExact(f, Signed(f, x) * Pow2(e), u);
  }

  lemma ScaledTwice(f: Format, x: Float, e1: nat, e2: nat, b: nat)
    requires x.mag < f.inf && 0 < b < f.inf
    ensures var y := ScaleUp(f, ScaleUp(f, x, e1), e2);
            && (y.mag == b <==> f.Val(x.mag) * Pow2(e1 + e2) == f.Val(b))
            && (y.mag == b ==> y.neg == x.neg)
  {
    hide Format.Val, Pow2, ScaleUp;
    var u := ScaleUpExact(f, x, e1);
    Pow2Add(e1, e2);
    MulAssoc(f.Val(x.mag), Pow2(e1), Pow2(e2));
    ValPositive(f, x.mag);
    ValPositive(f, u);
    ValPositive(f, b);
    if u < f.inf {
      var v := ScaleUpExact(f, Float(x.neg && x.mag > 0, u), e2);
      if f.Val(v) == f.Val(b) { ValInjective(f, v, b); }
      if x.mag == 0 { assert f.Val(x.mag) * Pow2(e1) == 0; }
      if u == 0 { assert f.Val(u) * Pow2(e2) == 0; ValPositive(f, v); }
    } else {
      InfStays(f, Float(x.neg && x.mag > 0, f.inf), e2);
      CodeOrder(f, u, b);
      MulMonotone(1, Pow2(e2), f.Val(u));
    }
  }

  lemma InfStays(f: Format, x: Float, e: nat)
    requires x.mag >= f.inf
    ensures ScaleUp(f, x, e) == x
  {
  }

  /** fdiv.d: the same theorem for the test that needs no wider format. */
  lemma RmmDivScaledCorrect(f: Format, n: Float, a: Float, b: Float, e1: nat, e2: nat)
    requires f.Valid() && SignRule(n, a, b) && e1 + e2 == f.k + 1
    requires a.mag < f.inf && 0 < b.mag < f.inf
    requires n.mag == Clamp(f, EvenQuotient(f, a.mag, b.mag))
    ensures RmmDivScaled(f, n, a, b, e1, e2) == Float(n.neg, Clamp(f, AwayQuotient(f, a.mag, b.mag)))
  {
    hide Format.Val, Even, Away, Pow2, ScaleUp, Residual, Sub, Format.One;
    var va, vb := f.Val(a.mag), f.Val(b.mag);
    ValPositive(f, b.mag);
    EvenAway(f, va * f.One(), vb);
    if n.mag >= f.Hidden() {
      NormalQuotientNoTie(f, a.mag, b.mag, Even(f, va * f.One(), vb));
    } else {
      var rho := Residual(f, n, a, b);
      ResidualMeaning(f, n, a, b);
      SubnormalGap(f, n);
      ScaledTwice(f, rho, e1, e2, b.mag);
      assert f.Val(rho.mag) * Pow2(e1 + e2) == 2 * (f.One() * f.Val(rho.mag)) by { TwiceOne(f, f.Val(rho.mag)); }
    }
  }

  lemma TwiceOne(f: Format, r: nat)
    ensures r * Pow2(f.k + 1) == 2 * (f.One() * r)
  {
    MulAssoc(r, 2, Pow2(f.k));
    MulCommute(r, Pow2(f.k));
  }

  // ---------------------------------------------------------------- fsqrt

  // The floats as a grid for the square root of x, on the scale of 4 * x
  function RootGrid(f: Format): Grid {
    Grid((u: nat) => (2 * f.Val(u)) * (2 * f.Val(u)), (u: nat) => (f.Val(u) + f.Val(u + 1)) * (f.Val(u) + f.Val(u + 1)))
  }

  lemma RootGridValid(f: Format)
    ensures RootGrid(f).Valid()
  {
    hide Format.Val, Format.Gap;
    var g := RootGrid(f);
    ZeroVal(f);
    assert g.at(0) == (2 * f.Val(0)) * (2 * f.Val(0));
    forall u: nat {:trigger g.mid(u)}
      ensures g.at(u) < g.mid(u) < g.at(u + 1)
    {
      var x, y := f.Val(u), f.Val(u + 1);
      assert x < y by { NextVal(f, u); }
      SquareStrict(2 * x, x + y);
      SquareStrict(x + y, 2 * y);
      assert g.at(u) == (2 * x) * (2 * x) && g.mid(u) == (x + y) * (x + y) && g.at(u + 1) == (2 * y) * (2 * y);
    }
  }

  lemma SquareStrict(x: nat, y: nat)
    requires x < y
    ensures x * x < y * y
  {
    MulBoth(x, y, x, x);
    MulStrict(x, y, y);
    MulCommute(y, x);
  }

  /** Every square root, of any float in any format, rounds the same in both modes. */
  lemma SqrtNeedsNoFixup(f: Format, a: nat)
    ensures RootGrid(f).Valid()
    ensures var x := 4 * (f.Val(a) * f.One()); RootGrid(f).RoundEven(x) == RootGrid(f).RoundAway(x)
  {
    hide Format.Val, Pow2, Format.One;
    RootGridValid(f);
    var g, x := RootGrid(f), 4 * (f.Val(a) * f.One());
    AwayFromEven(g, x);
    var n := g.RoundEven(x);
    assert g.mid(n) == (f.Val(n) + f.Val(n + 1)) * (f.Val(n) + f.Val(n + 1));
    RootNotMidpoint(f, a, n);
  }

  lemma RootNotMidpoint(f: Format, a: nat, n: nat)
    ensures 4 * (f.Val(a) * f.One()) != (f.Val(n) + f.Val(n + 1)) * (f.Val(n) + f.Val(n + 1))
  {
    hide Format.Val, Pow2, Format.One;
    var m := f.Val(n) + f.Val(n + 1);
    if n < f.Hidden() {
      SmallVal(f, n);
      SmallVal(f, n + 1);
      ProductOfOdds(m, m);
    } else {
      RootTooWide(f, a, n);
    }
  }

  lemma FourTimes(f: Format, a: nat)
    ensures 4 * (f.Val(a) * f.One()) == f.Significand(a) * Pow2(f.Scale(a) + f.k + 2)
  {
    hide Format.Scale, Format.Significand, Pow2;
    var s, i := f.Significand(a), f.Scale(a);
    PowersTogether(s, i, f.k);
    PowStep(i + f.k + 1);
    TwiceProduct(s, Pow2(i + f.k + 1));
  }

  lemma RootTooWide(f: Format, a: nat, n: nat)
    requires n >= f.Hidden()
    ensures 4 * (f.Val(a) * f.One()) != (f.Val(n) + f.Val(n + 1)) * (f.Val(n) + f.Val(n + 1))
  {
    hide *;
    var s, i := f.Significand(a), f.Scale(a);
    var odd, p := 2 * f.Significand(n) + 1, Pow2(f.Scale(n));
    MidpointShape(f, n);
    FourFactors(odd, p, odd, p);
    ProductOfOdds(odd, odd);
    FourTimes(f, a);
    SignificandBound(f, a);
    SignificandBound(f, n);
    MulMonotone(1, odd, odd);
    MulPositive(p, p);
    if (odd * odd) * (p * p) == s * Pow2(i + f.k + 2) {
      OddFactorBound(odd * odd, p * p, s, i + f.k + 2);
    }
  }

  // ---------------------------------------------------------------- binary32 and binary64

  // A format with `e` as the all-ones exponent field
  function Ieee(frac: nat, k: nat, e: nat): Format {
    Format(frac, k, e * Pow2(frac))
  }

  function Binary32(): Format { Ieee(23, 149, 255) }

  function Binary64(): Format { Ieee(52, 1074, 2047) }

  lemma {:induction false} InfVal(f: Format, e: nat, u: nat)
    requires e >= 1 && u == e * f.Hidden()
    ensures f.Val(u) == Pow2(f.frac + e - 1)
    decreases e
  {
    hide Format.Val, Pow2;
    if e == 1 {
      SmallVal(f, u);
    } else {
      Distribute(f.Hidden(), e - 1, 1);
      MulCommute(f.Hidden(), e);
      MulCommute(f.Hidden(), e - 1);
      var v := (e - 1) * f.Hidden();
      MulMonotone(1, e - 1, f.Hidden());
      InfVal(f, e - 1, v);
      DoubleVal(f, v);
      PowStep(f.frac + e - 2);
    }
  }

  lemma IeeeWidens(p: nat, k: nat, e: nat, p': nat, k': nat, e': nat)
    requires 1 <= p && 2 <= e && 1 <= p' && 2 <= e'
    requires p' + 1 >= 2 * (p + 1) && k' >= 2 * k && k' > k
    requires p + e + (k' - k) < p' + e' - 1
    requires 2 * (p + e - 1) + (k' - 2 * k) < p' + e' - 1
    ensures Widens(Ieee(p, k, e), Ieee(p', k', e'))
  {
    var f, w := Ieee(p, k, e), Ieee(p', k', e');
    IeeeValid(p, k, e);
    IeeeValid(p', k', e');
    hide Format.Val, Pow2;
    InfVal(f, e, f.inf);
    InfVal(w, e', w.inf);
    var x := Pow2(p + e - 1);
    assert 2 * x * Pow2(k' - k) == Pow2(p + e + (k' - k)) by { PowStep(p + e - 1); Pow2Add(p + e, k' - k); }
    assert x * x * Pow2(k' - 2 * k) == Pow2(2 * (p + e - 1) + (k' - 2 * k)) by {
      Pow2Add(p + e - 1, p + e - 1);
      Pow2Add(2 * (p + e - 1), k' - 2 * k);
    }
    Pow2Strict(p + e + (k' - k), p' + e' - 1);
    Pow2Strict(2 * (p + e - 1) + (k' - 2 * k), p' + e' - 1);
  }

  lemma IeeeValid(p: nat, k: nat, e: nat)
    requires 1 <= p && 2 <= e
    ensures Ieee(p, k, e).Valid()
  {
    MulMonotone(2, e, Pow2(p));
    MulAssoc(e, 2, Pow2(p - 1));
    MulCommute(e, 2);
    MulAssoc(2, e, Pow2(p - 1));
  }

  lemma Pow2Strict(a: nat, b: nat)
    requires a < b
    ensures Pow2(a) < Pow2(b)
  {
    Pow2Monotone(a + 1, b);
  }

  /** Double precision is wide enough for every single-precision test above. */
  lemma SingleInDouble()
    ensures Widens(Binary32(), Binary64())
  {
    hide Pow2;
    IeeeWidens(23, 149, 255, 52, 1074, 2047);
  }
}
