/**
 * Load-reserved and store-conditional, emulated by a compare-and-swap against the value the load
 * saw. Memory is a sequence of 32-bit words; a 64-bit access takes two of them. Each hart has its
 * own, unchanging mapping from virtual addresses to memory.
 */
module LrSc {
  import opened Powers
  import opened Words

  datatype Width = W32 | W64

  type Half = x: nat | x < 0x1_0000_0000

  datatype Cell = Cell(width: Width, at: nat)

  datatype Hart = Hart(lrsc: bool, addr: Word, cas: Word)

  datatype System = System(harts: seq<Hart>, mem: seq<Half>)

  datatype Action =
    | LR(hart: nat, vaddr: Word, cell: Cell)
    | SC(hart: nat, vaddr: Word, cell: Cell, val: Word)
    | Store(hart: nat, cell: Cell, val: Word)   // any other write

  function Modulus(w: Width): nat { if w == W32 then TWO32 else TWO64 }

  // First word number past the cell
  function End(c: Cell): nat { if c.width == W32 then c.at + 1 else c.at + 2 }

  predicate Fits(c: Cell, mem: seq<Half>) { End(c) <= |mem| }

  predicate Apart(c: Cell, d: Cell) { End(c) <= d.at || End(d) <= c.at }

  function Read(mem: seq<Half>, c: Cell): (r: Word)
    requires Fits(c, mem)
    ensures r < Modulus(c.width)
  {
    if c.width == W32 then mem[c.at] else mem[c.at] + TWO32 * mem[c.at + 1]
  }

  function Write(mem: seq<Half>, c: Cell, val: Word): (r: seq<Half>)
    requires Fits(c, mem)
    ensures |r| == |mem| && Fits(c, r)
    ensures Read(r, c) == val % Modulus(c.width)
    ensures forall i :: 0 <= i < |mem| && !(c.at <= i < End(c)) ==> r[i] == mem[i]
  {
    if c.width == W32 then mem[c.at := val % TWO32] else mem[c.at := val % TWO32][c.at + 1 := val / TWO32]
  }

  lemma WriteApart(mem: seq<Half>, c: Cell, d: Cell, val: Word)
    requires Fits(c, mem) && Fits(d, mem) && Apart(c, d)
    ensures Read(Write(mem, c, val), d) == Read(mem, d)
  {
  }

  // The words of a cell: one of 32 bits, or two
  predicate Occupies(c: Cell, i: nat) { i == c.at || (c.width == W64 && i == c.at + 1) }

  /** Cells are apart if and only if they have no word in common, and a cell fits if memory has its words. */
  lemma ApartIff(c: Cell, d: Cell, mem: seq<Half>)
    ensures Apart(c, d) <==> !exists i: nat :: Occupies(c, i) && Occupies(d, i)
    ensures Fits(c, mem) <==> forall i: nat :: Occupies(c, i) ==> i < |mem|
  {
    assert Occupies(c, c.at) && Occupies(d, d.at);
    if c.width == W64 { assert Occupies(c, c.at + 1); }
    if d.width == W64 { assert Occupies(d, d.at + 1); }
  }

  // ------------------------------------------------------------ steps

  predicate Enabled(s: System, a: Action) { a.hart < |s.harts| && Fits(a.cell, s.mem) }

  // The reservation is valid, for this address, and the cell holds the reserved value
  predicate Succeeds(s: System, a: Action)
    requires Enabled(s, a) && a.SC?
  {
    var h := s.harts[a.hart];
    h.lrsc && h.addr == a.vaddr && Read(s.mem, a.cell) == h.cas % Modulus(a.cell.width)
  }

  function Next(s: System, a: Action): (t: System)
    requires Enabled(s, a)
    ensures |t.harts| == |s.harts| && |t.mem| == |s.mem| && Fits(a.cell, t.mem)
  {
    match a
    case LR(h, v, c) => s.(harts := s.harts[h := Hart(true, v, Read(s.mem, c))])
    case SC(h, v, c, val) =>
      System(s.harts[h := s.harts[h].(lrsc := false)], if Succeeds(s, a) then Write(s.mem, c, val) else s.mem)
    case Store(h, c, val) => s.(mem := Write(s.mem, c, val))
  }

  predicate Valid(s: System, run: seq<Action>) { forall i :: 0 <= i < |run| ==> Enabled(s, run[i]) }

  function After(s: System, run: seq<Action>): (t: System)
    requires Valid(s, run)
    ensures |t.harts| == |s.harts| && |t.mem| == |s.mem|
    decreases |run|
  {
    if |run| == 0 then s else var k := |run| - 1; Next(After(s, run[..k]), run[k])
  }

  // ------------------------------------------------------------ one success per reservation

  // How many load-reserveds, and how many successful store-conditionals, hart `h` makes
  function Loads(run: seq<Action>, h: nat): nat {
    if |run| == 0 then 0
    else var k := |run| - 1; Loads(run[..k], h) + (if run[k].LR? && run[k].hart == h then 1 else 0)
  }

  function Wins(s: System, run: seq<Action>, h: nat): nat
    requires Valid(s, run)
    decreases |run|
  {
    if |run| == 0 then 0
    else
      var k := |run| - 1;
      Wins(s, run[..k], h) + (if run[k].SC? && run[k].hart == h && Succeeds(After(s, run[..k]), run[k]) then 1 else 0)
  }

  function Held(s: System, h: nat): nat { if h < |s.harts| && s.harts[h].lrsc then 1 else 0 }

  /** Every load-reserved permits at most one successful store-conditional. */
  lemma {:induction false} OneWinPerLoad(s: System, run: seq<Action>, h: nat)
    requires Valid(s, run)
    ensures Wins(s, run, h) + Held(After(s, run), h) <= Loads(run, h) + Held(s, h)
    decreases |run|
  {
    if |run| > 0 {
      OneWinPerLoad(s, run[..|run| - 1], h);
    }
  }

  // The steps that are load-reserveds, and those that are successful store-conditionals, of hart `h`
  function LoadSteps(run: seq<Action>, h: nat): set<nat> { set i | 0 <= i < |run| && run[i].LR? && run[i].hart == h }

  function WinSteps(s: System, run: seq<Action>, h: nat): set<nat>
    requires Valid(s, run)
  {
    set i | 0 <= i < |run| && run[i].SC? && run[i].hart == h && Succeeds(After(s, run[..i]), run[i])
  }

  /** The counts are the numbers of those steps. */
  lemma {:induction false} CountsAre(s: System, run: seq<Action>, h: nat)
    requires Valid(s, run)
    ensures Loads(run, h) == |LoadSteps(run, h)| && Wins(s, run, h) == |WinSteps(s, run, h)|
    decreases |run|
  {
    hide After, Succeeds, Enabled, LoadSteps, WinSteps;
    if |run| > 0 {
      CountsAre(s, run[..|run| - 1], h);
      StepsSplit(s, run, h);
    } else {
      NoSteps(s, run, h);
    }
  }

  lemma NoSteps(s: System, run: seq<Action>, h: nat)
    requires Valid(s, run) && run == []
    ensures LoadSteps(run, h) == {} && WinSteps(s, run, h) == {}
  {
  }

  lemma StepsSplit(s: System, run: seq<Action>, h: nat)
    requires Valid(s, run) && |run| > 0
    ensures var k := |run| - 1;
            && LoadSteps(run, h) == LoadSteps(run[..k], h) + (if run[k].LR? && run[k].hart == h then {k} else {})
            && WinSteps(s, run, h) == WinSteps(s, run[..k], h)
                 + (if run[k].SC? && run[k].hart == h && Succeeds(After(s, run[..k]), run[k]) then {k} else {})
            && k !in LoadSteps(run[..k], h) && k !in WinSteps(s, run[..k], h)
  {
    hide After, Succeeds;
    var k := |run| - 1;
    forall i | 0 <= i < k ensures run[..k][i] == run[i] && run[..k][..i] == run[..i] {}
  }

  // ------------------------------------------------------------ when a store-conditional succeeds

  // Step j is the latest LR or SC of hart h, and it is an LR
  predicate LatestLr(run: seq<Action>, h: nat, j: nat)
    ensures LatestLr(run, h, j) ==> j < |run| && run[j].LR?
  {
    && j < |run| && run[j].LR? && run[j].hart == h
    && forall i :: j < i < |run| ==> run[i].hart == h ==> run[i].Store?
  }

  /** The reservation of a hart is what its latest LR made it. */
  lemma {:induction false} LatestReserves(s: System, run: seq<Action>, h: nat, j: nat)
    requires Valid(s, run) && h < |s.harts| && LatestLr(run, h, j)
    ensures After(s, run).harts[h] == Hart(true, run[j].vaddr, Read(After(s, run[..j]).mem, run[j].cell))
    decreases |run|
  {
    var k := |run| - 1;
    if j < k {
      LatestReserves(s, run[..k], h, j);
      assert run[..k][..j] == run[..j];
    }
  }

  lemma {:induction false} ReservationStems(s: System, run: seq<Action>, h: nat) returns (j: nat)
    requires Valid(s, run) && h < |s.harts| && !s.harts[h].lrsc
    ensures After(s, run).harts[h].lrsc ==> LatestLr(run, h, j)
    decreases |run|
  {
    j := 0;
    if |run| > 0 {
      var k := |run| - 1;
      j := ReservationStems(s, run[..k], h);
      if run[k].hart == h && run[k].LR? {
        j := k;
      } else if After(s, run).harts[h].lrsc {
        assert forall i :: j < i < k ==> run[..k][i] == run[i];
      }
    }
  }

  /** A store-conditional succeeds only if the hart's latest LR or SC was a load-reserved of the same address, and the
      cell holds at that instant the value this load-reserved returned. */
  lemma WinHoldsReserved(s: System, run: seq<Action>, a: Action) returns (j: nat)
    requires Valid(s, run) && Enabled(s, a) && a.SC? && Succeeds(After(s, run), a)
    requires !s.harts[a.hart].lrsc
    ensures LatestLr(run, a.hart, j) && run[j].vaddr == a.vaddr
    ensures run[j].cell == a.cell ==> Read(After(s, run).mem, a.cell) == Read(After(s, run[..j]).mem, a.cell)
  {
    hide After, Read, LatestLr;
    j := ReservationStems(s, run, a.hart);
    LatestReserves(s, run, a.hart, j);
    if run[j].cell == a.cell { SmallMod(Read(After(s, run[..j]).mem, a.cell), a.cell.width); }
  }

  // The LRs that hart h makes of the address are of the cell
  predicate Reserves(run: seq<Action>, h: nat, vaddr: Word, c: Cell) {
    forall j :: 0 <= j < |run| ==> run[j].LR? && run[j].hart == h && run[j].vaddr == vaddr ==> run[j].cell == c
  }

  // The latest LR or SC of the hart is an LR of that address, step j, and the cell holds what it held then
  predicate Holds(s: System, run: seq<Action>, a: Action, j: nat)
    requires Valid(s, run) && Enabled(s, a) && a.SC?
  {
    && LatestLr(run, a.hart, j) && run[j].vaddr == a.vaddr
    && Read(After(s, run).mem, a.cell) == Read(After(s, run[..j]).mem, a.cell)
  }

  /** Exactly when a store-conditional succeeds. */
  lemma WinsIff(s: System, run: seq<Action>, a: Action)
    requires Valid(s, run) && Enabled(s, a) && a.SC? && !s.harts[a.hart].lrsc && Reserves(run, a.hart, a.vaddr, a.cell)
    ensures Succeeds(After(s, run), a) <==> exists j: nat :: Holds(s, run, a, j)
  {
    hide After, Read, Modulus;
    if Succeeds(After(s, run), a) {
      var j := WinHoldsReserved(s, run, a);
      assert Holds(s, run, a, j);
    } else if j: nat :| Holds(s, run, a, j) {
      LatestReserves(s, run, a.hart, j);
      SmallMod(Read(After(s, run[..j]).mem, a.cell), a.cell.width);
    }
  }

  // Step i writes to the cell
  predicate Touches(s: System, run: seq<Action>, i: nat, c: Cell)
    requires Valid(s, run) && i < |run|
  {
    !Apart(run[i].cell, c) && (run[i].Store? || (run[i].SC? && Succeeds(After(s, run[..i]), run[i])))
  }

  /** A step writes to the cell if it stores to one of its words: any store, or a store-conditional that succeeds. */
  lemma TouchesIff(s: System, run: seq<Action>, i: nat, c: Cell)
    requires Valid(s, run) && i < |run|
    ensures Touches(s, run, i, c) <==>
            && (exists w: nat :: Occupies(run[i].cell, w) && Occupies(c, w))
            && (run[i].Store? || (run[i].SC? && Succeeds(After(s, run[..i]), run[i])))
  {
    hide After, Succeeds, Apart;
    ApartIff(run[i].cell, c, s.mem);
  }

  predicate Untouched(s: System, run: seq<Action>, j: nat, c: Cell)
    requires Valid(s, run)
  {
    forall i :: j <= i < |run| ==> !Touches(s, run, i, c)
  }

  lemma {:induction false} UntouchedKeeps(s: System, run: seq<Action>, j: nat, c: Cell)
    requires Valid(s, run) && j <= |run| && Fits(c, s.mem) && Untouched(s, run, j, c)
    ensures Read(After(s, run).mem, c) == Read(After(s, run[..j]).mem, c)
    decreases |run|
  {
    if j < |run| {
      var k := |run| - 1;
      assert run[..k][..j] == run[..j];
      forall i | j <= i < k ensures !Touches(s, run[..k], i, c) {
        assert run[..k][..i] == run[..i];
        assert !Touches(s, run, i, c);
      }
      UntouchedKeeps(s, run[..k], j, c);
      var t, x := After(s, run[..k]), run[k];
      assert !Touches(s, run, k, c);
      if !x.LR? && Apart(x.cell, c) { WriteApart(t.mem, x.cell, c, x.val); }
    } else {
      assert run[..j] == run;
    }
  }

  /** In particular it succeeds if nothing has written to the cell since the load-reserved. */
  lemma UntouchedWins(s: System, run: seq<Action>, a: Action, j: nat)
    requires Valid(s, run) && Enabled(s, a) && a.SC? && !s.harts[a.hart].lrsc && Reserves(run, a.hart, a.vaddr, a.cell)
    requires LatestLr(run, a.hart, j) && run[j].vaddr == a.vaddr && Untouched(s, run, j, a.cell)
    ensures Succeeds(After(s, run), a)
  {
    hide After, Read, Modulus, Untouched, LatestLr;
    UntouchedKeeps(s, run, j, a.cell);
    assert Holds(s, run, a, j);
    WinsIff(s, run, a);
  }

  // ------------------------------------------------------------ read-modify-write loops

  // What a hart of the protocol does next: any access to the cell is LR, or an SC of f applied to the value it
  // reserved, at the addresses that map to the cell; everything else stays clear of the cell
  predicate Obeys(s: System, a: Action, c: Cell, f: nat -> nat, maps: (nat, Word) -> bool)
    requires Enabled(s, a)
  {
    if a.Store? then Apart(a.cell, c)
    else if maps(a.hart, a.vaddr) then
      var h := s.harts[a.hart];
      a.cell == c && (a.SC? && h.lrsc && h.addr == a.vaddr ==> a.val == f(h.cas))
    else Apart(a.cell, c)
  }

  predicate Protocol(s: System, run: seq<Action>, c: Cell, f: nat -> nat, maps: (nat, Word) -> bool)
    requires Valid(s, run)
    decreases |run|
  {
    |run| > 0 ==>
      var k := |run| - 1;
      Protocol(s, run[..k], c, f, maps) && Obeys(After(s, run[..k]), run[k], c, f, maps)
  }

  // Successful store-conditionals to the cell
  function Updates(s: System, run: seq<Action>, c: Cell): nat
    requires Valid(s, run)
    decreases |run|
  {
    if |run| == 0 then 0
    else
      var k := |run| - 1;
      var won := run[k].SC? && run[k].cell == c && Succeeds(After(s, run[..k]), run[k]);
      Updates(s, run[..k], c) + (if won then 1 else 0)
  }

  function Iterate(f: nat -> nat, n: nat, x: nat): nat {
    if n == 0 then x else f(Iterate(f, n - 1, x))
  }

  // Reservations for the cell hold values of its width
  predicate Sized(s: System, c: Cell, maps: (nat, Word) -> bool) {
    forall h :: 0 <= h < |s.harts| && s.harts[h].lrsc && maps(h, s.harts[h].addr) ==> s.harts[h].cas < Modulus(c.width)
  }

  /** However the harts interleave, and however often they abandon or repeat an attempt, the cell has been taken
      through f exactly once for every successful store-conditional: no update is lost or applied twice. */
  lemma {:induction false} NoLostUpdate(s: System, run: seq<Action>, c: Cell, f: nat -> nat, maps: (nat, Word) -> bool)
    requires Valid(s, run) && Fits(c, s.mem) && Sized(s, c, maps) && Protocol(s, run, c, f, maps)
    requires forall v: nat :: v < Modulus(c.width) ==> f(v) < Modulus(c.width)
    ensures Fits(c, After(s, run).mem) && Sized(After(s, run), c, maps)
    ensures Read(After(s, run).mem, c) == Iterate(f, Updates(s, run, c), Read(s.mem, c))
    decreases |run|
  {
    hide Read, Obeys, Sized, Next, Succeeds, Modulus;
    if |run| > 0 {
      var k := |run| - 1;
      NoLostUpdate(s, run[..k], c, f, maps);
      UpdateStep(After(s, run[..k]), run[k], c, f, maps);
    }
  }

  // One step either leaves the cell alone or is a successful SC that applies f to it
  lemma UpdateStep(s: System, a: Action, c: Cell, f: nat -> nat, maps: (nat, Word) -> bool)
    requires Enabled(s, a) && Fits(c, s.mem) && Sized(s, c, maps) && Obeys(s, a, c, f, maps)
    requires forall v: nat :: v < Modulus(c.width) ==> f(v) < Modulus(c.width)
    ensures Sized(Next(s, a), c, maps)
    ensures Read(Next(s, a).mem, c) ==
      if a.SC? && a.cell == c && Succeeds(s, a) then f(Read(s.mem, c)) else Read(s.mem, c)
  {
    if !a.LR? {
      if Apart(a.cell, c) {
        WriteApart(s.mem, a.cell, c, a.val);
      } else if Succeeds(s, a) {
        SmallMod(s.harts[a.hart].cas, c.width);
        SmallMod(a.val, c.width);
      }
    }
  }

  lemma SmallMod(v: nat, w: Width)
    requires v < Modulus(w)
    ensures v % Modulus(w) == v
  {
  }

  /** Harts that loop over LR, add one, SC make a counter: its value is the initial one plus the number of successful
      SCs, modulo the width. */
  lemma CounterCounts(s: System, run: seq<Action>, c: Cell, maps: (nat, Word) -> bool)
    requires Valid(s, run) && Fits(c, s.mem) && Sized(s, c, maps)
    requires Protocol(s, run, c, Increment(c.width), maps)
    ensures Fits(c, After(s, run).mem)
    ensures Read(After(s, run).mem, c) == (Read(s.mem, c) + Updates(s, run, c)) % Modulus(c.width)
  {
    hide Protocol, After, Updates, Valid, Sized, Read, Iterate;
    NoLostUpdate(s, run, c, Increment(c.width), maps);
    IterateIncrement(c.width, Updates(s, run, c), Read(s.mem, c));
  }

  // The values the cell goes through in its first n updates are all different
  predicate NoRepeat(f: nat -> nat, n: nat, x: nat) {
    forall i, j :: 0 <= i < j <= n ==> Iterate(f, i, x) != Iterate(f, j, x)
  }

  lemma {:induction false} PrefixObeys(s: System, run: seq<Action>, j: nat, c: Cell, f: nat -> nat,
                                       maps: (nat, Word) -> bool)
    requires Valid(s, run) && Protocol(s, run, c, f, maps) && j <= |run|
    ensures Protocol(s, run[..j], c, f, maps) && Updates(s, run[..j], c) <= Updates(s, run, c)
    decreases |run|
  {
    if j < |run| {
      var k := |run| - 1;
      PrefixObeys(s, run[..k], j, c, f, maps);
      assert run[..k][..j] == run[..j];
    } else {
      assert run[..j] == run;
    }
  }

  lemma {:induction false} ProtocolReserves(s: System, run: seq<Action>, h: nat, vaddr: Word, c: Cell,
                                            f: nat -> nat, maps: (nat, Word) -> bool)
    requires Valid(s, run) && Protocol(s, run, c, f, maps) && maps(h, vaddr)
    ensures Reserves(run, h, vaddr, c)
    decreases |run|
  {
    if |run| > 0 {
      var k := |run| - 1;
      ProtocolReserves(s, run[..k], h, vaddr, c, f, maps);
      forall j | 0 <= j < |run| && run[j].LR? && run[j].hart == h && run[j].vaddr == vaddr ensures run[j].cell == c {
        if j < k { assert run[..k][j] == run[j]; }
      }
    }
  }

  /** Where values do not repeat, the comparison by value misses nothing: a store-conditional succeeds if and only if
      no other has updated the cell since the hart's load-reserved. */
  lemma WinsIffFirst(s: System, run: seq<Action>, a: Action, c: Cell, f: nat -> nat, maps: (nat, Word) -> bool)
    requires Valid(s, run) && Fits(c, s.mem) && Sized(s, c, maps) && Protocol(s, run, c, f, maps)
    requires forall v: nat :: v < Modulus(c.width) ==> f(v) < Modulus(c.width)
    requires NoRepeat(f, Updates(s, run, c), Read(s.mem, c))
    requires Enabled(s, a) && a.SC? && a.cell == c && maps(a.hart, a.vaddr) && !s.harts[a.hart].lrsc
    ensures Succeeds(After(s, run), a) <==>
            exists j: nat :: First(s, run, a, j)
  {
    hide After, Read, Modulus, Protocol, Updates, LatestLr, Sized, Obeys, Holds, First, NoRepeat, Succeeds, Iterate;
    ProtocolReserves(s, run, a.hart, a.vaddr, c, f, maps);
    WinsIff(s, run, a);
    forall j: nat ensures First(s, run, a, j) <==> Holds(s, run, a, j) { FirstHolds(s, run, a, j, c, f, maps); }
  }

  // The latest LR or SC of the hart is an LR of that address, step j, and the cell has had no update since
  predicate First(s: System, run: seq<Action>, a: Action, j: nat)
    requires Valid(s, run) && a.SC?
  {
    LatestLr(run, a.hart, j) && run[j].vaddr == a.vaddr && Updates(s, run[..j], a.cell) == Updates(s, run, a.cell)
  }

  lemma FirstHolds(s: System, run: seq<Action>, a: Action, j: nat, c: Cell, f: nat -> nat, maps: (nat, Word) -> bool)
    requires Valid(s, run) && Fits(c, s.mem) && Sized(s, c, maps) && Protocol(s, run, c, f, maps)
    requires forall v: nat :: v < Modulus(c.width) ==> f(v) < Modulus(c.width)
    requires NoRepeat(f, Updates(s, run, c), Read(s.mem, c)) && Enabled(s, a) && a.SC? && a.cell == c
    ensures First(s, run, a, j) <==> Holds(s, run, a, j)
  {
    hide After, Read, Modulus, Protocol, Updates, LatestLr, Sized, Obeys, NoRepeat, Iterate;
    if j < |run| { SameValueSameCount(s, run, j, c, f, maps); }
  }

  lemma SameValueSameCount(s: System, run: seq<Action>, j: nat, c: Cell, f: nat -> nat, maps: (nat, Word) -> bool)
    requires Valid(s, run) && Fits(c, s.mem) && Sized(s, c, maps) && Protocol(s, run, c, f, maps) && j < |run|
    requires forall v: nat :: v < Modulus(c.width) ==> f(v) < Modulus(c.width)
    requires NoRepeat(f, Updates(s, run, c), Read(s.mem, c))
    ensures Valid(s, run[..j])
    ensures Updates(s, run[..j], c) == Updates(s, run, c)
            <==> Read(After(s, run[..j]).mem, c) == Read(After(s, run).mem, c)
  {
    hide After, Read, Modulus, Protocol, Updates, Sized, Iterate;
    PrefixObeys(s, run, j, c, f, maps);
    NoLostUpdate(s, run, c, f, maps);
    NoLostUpdate(s, run[..j], c, f, maps);
  }

  /** A counter that has not wrapped is such a cell. */
  lemma CounterNoRepeat(w: Width, n: nat, x: nat)
    requires x < Modulus(w) && n < Modulus(w)
    ensures NoRepeat(Increment(w), n, x)
  {
    hide Iterate;
    forall i, j | 0 <= i < j <= n ensures Iterate(Increment(w), i, x) != Iterate(Increment(w), j, x) {
      IterateIncrement(w, i, x);
      IterateIncrement(w, j, x);
      DifferentMod(x, i, j, Modulus(w));
    }
  }

  lemma DifferentMod(x: nat, i: nat, j: nat, m: nat)
    requires x < m && i < j < m
    ensures (x + i) % m != (x + j) % m
  {
    if x + i < m { DivModUnique(x + i, m, 0, x + i); } else { DivModUnique(x + i, m, 1, x + i - m); }
    if x + j < m { DivModUnique(x + j, m, 0, x + j); } else { DivModUnique(x + j, m, 1, x + j - m); }
  }

  function Increment(w: Width): nat -> nat { (v: nat) => (v + 1) % Modulus(w) }

  lemma {:induction false} IterateIncrement(w: Width, n: nat, x: nat)
    requires x < Modulus(w)
    ensures Iterate(Increment(w), n, x) == (x + n) % Modulus(w)
  {
    if n > 0 {
      IterateIncrement(w, n - 1, x);
      StepMod(x + (n - 1), Modulus(w));
    }
  }

  lemma StepMod(y: nat, m: nat)
    requires m > 1
    ensures (y % m + 1) % m == (y + 1) % m
  {
    var q, r := y / m, y % m;
    if r + 1 < m {
      DivModUnique(y + 1, m, q, r + 1);
      DivModUnique(r + 1, m, 0, r + 1);
    } else {
      assert (q + 1) * m == q * m + m;
      DivModUnique(y + 1, m, q + 1, 0);
      DivModUnique(m, m, 1, 0);
    }
  }

  /** The comparison is by value only: an SC succeeds although another hart has changed the cell and changed it back. */
  lemma AbaSucceeds()
    ensures var c := Cell(W32, 0);
            var s := System([Hart(false, 0, 0), Hart(false, 0, 0)], [5]);
            var run := [LR(0, 64, c), Store(1, c, 6), Store(1, c, 5)];
            Valid(s, run) && Succeeds(After(s, run), SC(0, 64, c, 7))
  {
    var c := Cell(W32, 0);
    var s := System([Hart(false, 0, 0), Hart(false, 0, 0)], [5]);
    var run := [LR(0, 64, c), Store(1, c, 6), Store(1, c, 5)];
    assert run[..2] == [LR(0, 64, c), Store(1, c, 6)];
    assert run[..2][..1] == [LR(0, 64, c)];
    assert run[..2][..1][..0] == [];
    var one := Next(s, run[0]);
    assert After(s, run[..2][..1]) == one;
    var two := Next(one, run[1]);
    assert After(s, run[..2]) == two;
  }

  // ------------------------------------------------------------ the instructions

  class Memory {
    var words: seq<Half>

    // atomic_load_uint32_le, atomic_load_uint64_le
    method Load(c: Cell) returns (v: Word)
      requires Fits(c, words)
      ensures v == Read(words, c)
    {
      if c.width == W32 { v := words[c.at]; } else { v := words[c.at] + TWO32 * words[c.at + 1]; }
    }

    // atomic_cas_uint32_le, atomic_cas_uint64_le
    method CompareAndSwap(c: Cell, expected: Word, val: Word) returns (ok: bool)
      requires Fits(c, words)
      modifies this
      ensures ok == (Read(old(words), c) == expected % Modulus(c.width))
      ensures words == if ok then Write(old(words), c, val) else old(words)
    {
      var now := Load(c);
      ok := now == expected % Modulus(c.width);
      if ok {
        words := words[c.at := val % TWO32];
        if c.width == W64 { words := words[c.at + 1 := val / TWO32]; }
      }
    }
  }

  class Core {
    var lrsc: bool
    var addr: Word
    var cas: Word

    ghost function View(): Hart
      reads this
    {
      Hart(lrsc, addr, cas)
    }

    method LoadReserved(mem: Memory, vaddr: Word, cell: Cell, ghost s: System, ghost me: nat) returns (rd: Word)
      requires me < |s.harts| && s.harts[me] == View() && s.mem == mem.words && Fits(cell, s.mem)
      modifies this
      ensures var t := Next(s, LR(me, vaddr, cell)); View() == t.harts[me] && mem.words == t.mem
      ensures rd == Read(s.mem, cell)
    {
      lrsc := true;
      addr := vaddr;
      cas := mem.Load(cell);
      rd := cas;
    }

    method StoreConditional(mem: Memory, vaddr: Word, cell: Cell, val: Word, ghost s: System, ghost me: nat)
      returns (rd: Word)
      requires me < |s.harts| && s.harts[me] == View() && s.mem == mem.words && Fits(cell, s.mem)
      modifies this, mem
      ensures var t := Next(s, SC(me, vaddr, cell, val)); View() == t.harts[me] && mem.words == t.mem
      ensures rd == if Succeeds(s, SC(me, vaddr, cell, val)) then 0 else 1
    {
      var ok := lrsc && addr == vaddr;
      if ok { ok := mem.CompareAndSwap(cell, cas, val); }
      rd := if ok then 0 else 1;
      lrsc := false;
    }
  }
}
