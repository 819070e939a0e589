/**
 * Round-to-nearest onto a grid of representable values, in the two tie-breaking directions of
 * section 4.3.1 of IEEE 754-2008. A grid lists, on one common integer scale, where each bit
 * pattern lies and where the midpoint above it lies.
 */
module Rounding {
  datatype Grid = Grid(at: nat -> nat, mid: nat -> nat) {
    ghost predicate Valid() {
      && at(0) == 0
      && forall u: nat {:trigger mid(u)} :: at(u) < mid(u) < at(u + 1)
    }

    // Midpoints are arithmetic means
    ghost predicate Linear() {
      forall u: nat {:trigger mid(u)} :: 2 * mid(u) == at(u) + at(u + 1)
    }

    // Largest pattern from `u` on that does not exceed x
    function DownFrom(x: nat, u: nat): (r: nat)
      requires Valid() && at(u) <= x
      ensures at(r) <= x < at(r + 1)
      decreases x - at(u)
    {
      if at(u + 1) <= x then
        assert at(u) < mid(u) < at(u + 1);
        DownFrom(x, u + 1)
      else u
    }

    function Down(x: nat): (r: nat)
      requires Valid()
      ensures at(r) <= x < at(r + 1)
    {
      DownFrom(x, 0)
    }

    // roundTiesToEven
    function RoundEven(x: nat): nat
      requires Valid()
    {
      var u := Down(x);
      if x < mid(u) || (x == mid(u) && u % 2 == 0) then u else u + 1
    }

    // roundTiesToAway
    function RoundAway(x: nat): nat
      requires Valid()
    {
      var u := Down(x);
      if x < mid(u) then u else u + 1
    }

    function Distance(x: nat, u: nat): nat {
      if at(u) <= x then x - at(u) else at(u) - x
    }

    // `u` is a representable value nearest to x
    ghost predicate Nearest(x: nat, u: nat) {
      forall v: nat :: Distance(x, u) <= Distance(x, v)
    }
  }

  lemma {:induction false} Increasing(g: Grid, u: nat, v: nat)
    requires g.Valid()
    requires u < v
    ensures g.at(u) < g.at(v)
    decreases v - u
  {
    assert g.at(u) < g.mid(u) < g.at(u + 1);
    if u + 1 < v { Increasing(g, u + 1, v); }
  }

  lemma DownUnique(g: Grid, x: nat, u: nat)
    requires g.Valid()
    requires g.at(u) <= x < g.at(u + 1)
    ensures g.Down(x) == u
  {
    var d := g.Down(x);
    if d < u {
      if d + 1 < u { Increasing(g, d + 1, u); }
    } else if u < d {
      if u + 1 < d { Increasing(g, u + 1, d); }
    }
  }

  /** The values nearest to x are the lower neighbour, the upper one, or both on a tie. */
  lemma NearestNeighbours(g: Grid, x: nat, v: nat)
    requires g.Valid() && g.Linear()
    ensures var u := g.Down(x);
            g.Nearest(x, v) <==> (v == u && x <= g.mid(u)) || (v == u + 1 && x >= g.mid(u))
  {
    var u := g.Down(x);
    assert 2 * g.mid(u) == g.at(u) + g.at(u + 1);
    forall w: nat
      ensures w < u ==> g.Distance(x, u) < g.Distance(x, w)
      ensures w > u + 1 ==> g.Distance(x, u + 1) < g.Distance(x, w)
    {
      if w < u { Increasing(g, w, u); } else if w > u + 1 { Increasing(g, u + 1, w); }
    }
    if g.Nearest(x, v) {
      assert g.Distance(x, v) <= g.Distance(x, u);
      assert g.Distance(x, v) <= g.Distance(x, u + 1);
    }
  }

  /** RoundEven is nearest, and even whenever two values are equally near. */
  lemma RoundEvenMeaning(g: Grid, x: nat, v: nat)
    requires g.Valid() && g.Linear()
    ensures g.Nearest(x, g.RoundEven(x))
    ensures g.Nearest(x, v) && v != g.RoundEven(x) ==> g.RoundEven(x) % 2 == 0
  {
    NearestNeighbours(g, x, g.RoundEven(x));
    NearestNeighbours(g, x, v);
  }

  /** RoundAway is the larger of the nearest values. */
  lemma RoundAwayMeaning(g: Grid, x: nat, v: nat)
    requires g.Valid() && g.Linear()
    ensures g.Nearest(x, g.RoundAway(x))
    ensures g.Nearest(x, v) ==> v <= g.RoundAway(x)
  {
    NearestNeighbours(g, x, g.RoundAway(x));
    NearestNeighbours(g, x, v);
  }

  /** The two modes differ on a tie above the even result and nowhere else. */
  lemma AwayFromEven(g: Grid, x: nat)
    requires g.Valid()
    ensures var n := g.RoundEven(x);
            && g.RoundAway(x) == (if x == g.mid(n) then n + 1 else n)
            && (x == g.mid(n) ==> n % 2 == 0)
            && x <= g.mid(n)
            && (n > 0 ==> g.mid(n - 1) <= x)
  {
    var u, n := g.Down(x), g.RoundEven(x);
    assert g.at(n) < g.mid(n) < g.at(n + 1);
    if n > 0 { assert g.at(n - 1) < g.mid(n - 1) < g.at(n); }
  }

  /** A value on the grid is rounded to itself. */
  lemma RoundExact(g: Grid, u: nat)
    requires g.Valid()
    ensures g.RoundEven(g.at(u)) == u
  {
    assert g.at(u) < g.mid(u) < g.at(u + 1);
    DownUnique(g, g.at(u), u);
  }
}
