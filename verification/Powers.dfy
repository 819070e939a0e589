/** Powers of two, and the one number-theoretic fact the rounding proofs rest on. */
module Powers {

  function Pow2(k: nat): (r: nat)
    ensures r >= 1
  {
    if k == 0 then 1 else 2 * Pow2(k - 1)
  }

  lemma {:induction false} Pow2Add(a: nat, b: nat)
    ensures Pow2(a + b) == Pow2(a) * Pow2(b)
  {
    if a > 0 {
      Pow2Add(a - 1, b);
      assert Pow2(a) * Pow2(b) == 2 * (Pow2(a - 1) * Pow2(b));
    }
  }

  ghost predicate PowerOfTwo(n: nat) { exists k: nat :: n == Pow2(k) }

  // The largest power of two that is not above x
  function FloorPow2(x: nat): (r: nat)
    requires x > 0
    ensures PowerOfTwo(r) && r <= x < 2 * r
  {
    assert Pow2(0) == 1;
    if x == 1 then 1
    else
      DoublePow2(FloorPow2(x / 2));
      2 * FloorPow2(x / 2)
  }

  lemma DoublePow2(n: nat)
    requires PowerOfTwo(n)
    ensures PowerOfTwo(2 * n)
  {
    var k: nat :| n == Pow2(k);
    assert 2 * n == Pow2(k + 1);
  }

  lemma {:induction false} Pow2Monotone(a: nat, b: nat)
    requires a <= b
    ensures Pow2(a) <= Pow2(b)
    decreases b - a
  {
    if a < b {
      Pow2Monotone(a + 1, b);
    }
  }

  lemma {:induction false} Pow2Grows(k: nat)
    ensures k < Pow2(k)
  {
    if k > 0 { Pow2Grows(k - 1); }
  }

  /** An odd factor of a product with a power of two divides the other factor. */
  lemma {:induction false} OddFactor(odd: nat, c: nat, x: nat, k: nat) returns (d: nat)
    requires odd % 2 == 1
    requires odd * c == x * Pow2(k)
    ensures x == odd * d
  {
    if k == 0 {
      d := c;
    } else {
      assert x * Pow2(k) == 2 * (x * Pow2(k - 1));
      if c % 2 == 1 {
        ProductOfOdds(odd, c);
        assert false;
      }
      var half := c / 2;
      assert odd * c == 2 * (odd * half) by { assert c == 2 * half; }
      d := OddFactor(odd, half, x, k - 1);
    }
  }

  lemma ProductOfOdds(a: nat, b: nat)
    requires a % 2 == 1 && b % 2 == 1
    ensures (a * b) % 2 == 1
  {
    var i, j := a / 2, b / 2;
    assert a * b == 2 * (2 * i * j + i + j) + 1 by {
      assert a == 2 * i + 1 && b == 2 * j + 1;
    }
  }

  lemma MulAssoc(a: nat, b: nat, c: nat)
    ensures a * (b * c) == (a * b) * c
  {
  }

  lemma MulCommute(a: nat, b: nat)
    ensures a * b == b * a
  {
  }

  lemma MulPositive(a: nat, b: nat)
    requires a > 0 && b > 0
    ensures a * b > 0
  {
  }

  lemma MulMonotone(a: nat, b: nat, c: nat)
    requires a <= b
    ensures a * c <= b * c
  {
  }

  lemma MulStrict(a: nat, b: nat, c: nat)
    requires a < b && c > 0
    ensures a * c < b * c
  {
  }

  /** Euclidean quotient and remainder are the only such pair. */
  lemma DivModUnique(x: nat, d: nat, q: nat, r: nat)
    requires d > 0 && r < d
    requires x == q * d + r
    ensures x / d == q && x % d == r
  {
    var q', r' := x / d, x % d;
    assert x == q' * d + r';
    if q' < q {
      MulMonotone(q' + 1, q, d);
    } else if q < q' {
      MulMonotone(q + 1, q', d);
    }
  }

  lemma Distribute(a: nat, b: nat, c: nat)
    ensures a * (b + c) == a * b + a * c
  {
  }

  lemma CancelFactor(a: nat, b: nat, c: nat)
    requires c > 0 && a * c <= b * c
    ensures a <= b
  {
    if b < a { MulStrict(b, a, c); }
  }

  lemma CancelEqual(a: nat, b: nat, c: nat)
    requires c > 0 && a * c == b * c
    ensures a == b
  {
    CancelFactor(a, b, c);
    CancelFactor(b, a, c);
  }

  lemma Pow2Split(a: nat, b: nat)
    requires a <= b
    ensures Pow2(b) == Pow2(b - a) * Pow2(a)
  {
    Pow2Add(b - a, a);
  }

  lemma ModMod(x: nat, b: nat, n: nat)
    requires b > 0 && n > 0
    ensures b * n > 0 && x % (b * n) % b == x % b
  {
    MulPositive(b, n);
    var a := b * n;
    var h, r := x / a, x % a;
    var q, t := r / b, r % b;
    assert h * a == (h * n) * b by { MulCommute(b, n); MulAssoc(h, n, b); }
    assert (h * n + q) * b == (h * n) * b + q * b by {
      MulCommute(h * n + q, b);
      Distribute(b, h * n, q);
      MulCommute(b, h * n);
      MulCommute(b, q);
    }
    DivModUnique(x, b, h * n + q, t);
  }
}
