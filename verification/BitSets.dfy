/** Registers that are bit fields, as the sets of positions of their one bits. */
module BitSets {

  type Bits = set<nat>

  // The 32 positions of a 32-bit register
  const ALL_LINES: Bits := set i: nat | i < 32

  // Position of the highest one bit
  ghost function Highest(b: Bits): (r: nat)
    requires b != {}
    ensures r in b && forall i :: i in b ==> i <= r
  {
    HighestExists(b);
    var r :| r in b && forall i :: i in b ==> i <= r;
    r
  }

  lemma {:induction false} HighestExists(b: Bits)
    requires b != {}
    ensures exists r :: r in b && forall i :: i in b ==> i <= r
    decreases b
  {
    var x :| x in b;
    if b != {x} {
      var c := b - {x};
      HighestExists(c);
      var r :| r in c && forall i :: i in c ==> i <= r;
      var top := if r < x then x else r;
      assert forall i :: i in b ==> i == x || i in c;
      assert top in b;
    } else {
      assert x in b;
    }
  }

  // bit_clz32(bits) ^ 31
  method HighestBit(bits: Bits) returns (r: nat)
    requires bits != {} && bits <= ALL_LINES
    ensures r == Highest(bits)
  {
    r := 31;
    while r !in bits
      invariant forall i :: i in bits ==> i <= r
      decreases r
    {
      assert r > 0 by { var x :| x in bits; assert x <= r && x != r; }
      r := r - 1;
    }
  }
}
