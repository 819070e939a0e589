/**
 * Placement of memory-mapped devices: the overlap test, the search for a free zone, attaching and
 * removing devices, and finding the device behind a physical address. All address arithmetic wraps
 * at 64 bits, as in the source.
 */
module MmioPlacement {
  import opened Options
  import opened Powers
  import opened Words

  datatype Region = Region(addr: Word, size: Word)

  datatype Device = Device(handle: nat, region: Region, minOp: Byte, maxOp: Byte)

  datatype Layout = Layout(ram: Region, devs: seq<Device>)

  function End(r: Region): Word { Wrap(r.addr + r.size) }

  predicate Overlap(a: Region, b: Region) { a.addr < End(b) && b.addr < End(a) }

  // First page boundary at or after the end of the region
  function Past(r: Region): Word { Wrap(r.addr + r.size + 0xFFF) / 0x1000 * 0x1000 }

  predicate Holds(r: Region, p: Word) { r.addr <= p < End(r) }

  /** Where nothing wraps and nothing is empty, the test says exactly that the two regions share an address. */
  lemma OverlapMeaning(a: Region, b: Region)
    requires a.addr + a.size < TWO64 && b.addr + b.size < TWO64 && a.size > 0 && b.size > 0
    ensures Overlap(a, b) <==> exists p: Word :: Holds(a, p) && Holds(b, p)
  {
    if Overlap(a, b) {
      var p: Word := if a.addr < b.addr then b.addr else a.addr;
      assert Holds(a, p) && Holds(b, p);
    }
  }

  /** An empty region still counts as overlapped when it lies strictly inside the other one. */
  lemma EmptyRegionBlocks(a: Region, b: Region)
    requires a.addr + a.size < TWO64 && b.size == 0
    ensures Overlap(a, b) <==> a.addr < b.addr < a.addr + a.size
  {
  }

  // ------------------------------------------------------------ the search

  // The first region the candidate overlaps: RAM, then devices in order
  function Hit(m: Layout, c: Region): (h: Option<Region>)
    ensures h.Some? ==> Overlap(c, h.value)
    ensures h.None? <==> Free(m, c)
  {
    if Overlap(c, m.ram) then Some(m.ram) else HitDevice(m.devs, c, 0)
  }

  function HitDevice(devs: seq<Device>, c: Region, i: nat): (h: Option<Region>)
    requires i <= |devs|
    ensures h.Some? ==> Overlap(c, h.value)
    ensures h.None? <==> forall j :: i <= j < |devs| ==> !Overlap(c, devs[j].region)
    decreases |devs| - i
  {
    if i == |devs| then None
    else if Overlap(c, devs[i].region) then Some(devs[i].region)
    else HitDevice(devs, c, i + 1)
  }

  predicate Free(m: Layout, c: Region) {
    !Overlap(c, m.ram) && forall j :: 0 <= j < |m.devs| ==> !Overlap(c, m.devs[j].region)
  }

  // Moving past an overlapped region goes up, or falls back to address 0
  lemma PastRises(c: Region, r: Region)
    requires Overlap(c, r)
    ensures Past(r) % 0x1000 == 0
    ensures if End(r) + 0xFFF < TWO64 then c.addr < End(r) <= Past(r) < End(r) + 0x1000 else Past(r) == 0
  {
    WrapShift(r.addr + r.size);
    PageUp(Wrap(End(r) + 0xFFF));
    hide Wrap;
    assert End(r) + 0xFFF < TWO64 ==> Wrap(End(r) + 0xFFF) == End(r) + 0xFFF by { SmallWrap(End(r) + 0xFFF); }
  }

  lemma SmallWrap(x: nat)
    ensures Wrap(x) == if x < TWO64 then x else if x < 2 * TWO64 then x - TWO64 else Wrap(x)
  {
  }

  lemma WrapShift(t: nat)
    ensures Wrap(t + 0xFFF) == Wrap(Wrap(t) + 0xFFF)
    ensures Wrap(t) + 0xFFF >= TWO64 ==> Wrap(t + 0xFFF) < 0x1000
  {
    var q := t / TWO64;
    assert t == q * TWO64 + Wrap(t);
    assert t + 0xFFF == q * TWO64 + (Wrap(t) + 0xFFF);
  }

  // Rounding down to a page boundary
  lemma PageUp(x: nat)
    ensures x / 0x1000 * 0x1000 % 0x1000 == 0 && x - 0x1000 < x / 0x1000 * 0x1000 <= x
    ensures x < 0x1000 ==> x / 0x1000 * 0x1000 == 0
  {
  }

  // A page boundary below the one past `e`, or below the top when that one wraps, is below `e`
  lemma BoundaryBelow(c: Word, e: Word, n: Word)
    requires c % 0x1000 == 0 && n % 0x1000 == 0
    requires if e + 0xFFF < TWO64 then c < n < e + 0x1000 else true
    ensures c < e
  {
    var k := c / 0x1000;
    assert c == 0x1000 * k;
    if e + 0xFFF < TWO64 {
      var j := n / 0x1000;
      assert n == 0x1000 * j;
    } else {
      assert c <= TWO64 - 0x1000;
    }
  }

  // The address after one restart of the search
  function Restarted(m: Layout, a: Word, size: Word): Word {
    var h := Hit(m, Region(a, size));
    if h.None? then a else Past(h.value)
  }

  // Where the search arrives while it only goes up; None if it falls back to 0
  function Ascend(m: Layout, a: Word, size: Word): Option<Word>
    decreases TWO64 - a
  {
    var n := Restarted(m, a, size);
    if Free(m, Region(a, size)) then Some(a) else if n <= a then None else Ascend(m, n, size)
  }

  // An address the search considers from `a` on, and whose zone does not wrap
  predicate Candidate(a: Word, size: Word, c: Word) { a <= c && (c == a || c % 0x1000 == 0) && c + size < TWO64 }

  // No candidate between an address and the one the next restart moves to is free
  lemma SkipsOccupied(m: Layout, a: Word, size: Word, c: Word)
    requires !Free(m, Region(a, size)) && Candidate(a, size, c)
    requires a < Restarted(m, a, size) ==> c < Restarted(m, a, size)
    ensures !Free(m, Region(c, size))
  {
    var r := Hit(m, Region(a, size)).value;
    PastRises(Region(a, size), r);
    hide Past;
    if c != a { BoundaryBelow(c, End(r), Past(r)); }
    assert Overlap(Region(c, size), r) by {
      SmallWrap(a + size);
      SmallWrap(c + size);
      hide Wrap;
    }
    if !Overlap(Region(a, size), m.ram) { var i := HitIndex(m.devs, Region(a, size), 0); }
  }

  lemma {:induction false} HitIndex(devs: seq<Device>, c: Region, i: nat) returns (j: nat)
    requires i <= |devs| && HitDevice(devs, c, i).Some?
    ensures j < |devs| && devs[j].region == HitDevice(devs, c, i).value
    decreases |devs| - i
  {
    if Overlap(c, devs[i].region) { j := i; } else { j := HitIndex(devs, c, i + 1); }
  }

  /** The ascending search returns the least free candidate, and fails only if there is none. */
  lemma {:induction false} AscendLeast(m: Layout, a: Word, size: Word)
    ensures var y := Ascend(m, a, size);
            && (y.Some? ==> a <= y.value && Free(m, Region(y.value, size)) && (y.value == a || y.value % 0x1000 == 0))
            && forall c: Word :: Candidate(a, size, c) && Free(m, Region(c, size)) ==> y.Some? && y.value <= c
    decreases TWO64 - a
  {
    if !Free(m, Region(a, size)) {
      var r, n := Hit(m, Region(a, size)).value, Restarted(m, a, size);
      PastRises(Region(a, size), r);
      if a < n { AscendLeast(m, n, size); }
      forall c: Word | Candidate(a, size, c) && Free(m, Region(c, size))
        ensures a < n && Candidate(n, size, c)
      {
        if a < n ==> c < n { SkipsOccupied(m, a, size, c); assert false; }
      }
    }
  }

  // ------------------------------------------------------------ termination

  // Regions the search can still be moved past from `a` on
  function Ahead(m: Layout, a: Word): nat { AheadDevices(m.devs, a) + (if a < End(m.ram) then 1 else 0) }

  function AheadDevices(devs: seq<Device>, a: Word): nat {
    if |devs| == 0 then 0
    else AheadDevices(devs[..|devs| - 1], a) + (if a < End(devs[|devs| - 1].region) then 1 else 0)
  }

  lemma {:induction false} AheadShrinks(devs: seq<Device>, a: Word, n: Word)
    requires a <= n
    ensures AheadDevices(devs, n) <= AheadDevices(devs, a) <= |devs|
    ensures (exists j :: 0 <= j < |devs| && a < End(devs[j].region) <= n)
            ==> AheadDevices(devs, n) < AheadDevices(devs, a)
  {
    if |devs| > 0 {
      var k := |devs| - 1;
      AheadShrinks(devs[..k], a, n);
      if j :| 0 <= j < |devs| && a < End(devs[j].region) <= n && j < k {
        assert devs[..k][j] == devs[j];
      }
    }
  }

  // Number of restarts while going up
  function Restarts(m: Layout, a: Word, size: Word): nat
    decreases TWO64 - a
  {
    var n := Restarted(m, a, size);
    if Free(m, Region(a, size)) || n <= a then 0 else 1 + Restarts(m, n, size)
  }

  /** Every restart retires a region for good, so there are at most as many restarts as regions. */
  lemma {:induction false} RestartsBounded(m: Layout, a: Word, size: Word)
    ensures Restarts(m, a, size) <= Ahead(m, a) <= |m.devs| + 1
    decreases TWO64 - a
  {
    var c, n := Region(a, size), Restarted(m, a, size);
    AheadShrinks(m.devs, a, a);
    if !Free(m, c) && a < n {
      var r := Hit(m, c).value;
      PastRises(c, r);
      AheadShrinks(m.devs, a, n);
      if !Overlap(c, m.ram) { var j := HitIndex(m.devs, c, 0); }
      RestartsBounded(m, n, size);
    }
  }

  // No region ends so near the top that the page boundary past it wraps
  predicate Roomy(m: Layout) {
    End(m.ram) + 0xFFF < TWO64 && forall j :: 0 <= j < |m.devs| ==> End(m.devs[j].region) + 0xFFF < TWO64
  }

  /** Absent such a wrap, the search goes up until it finds a free zone. */
  lemma {:induction false} RoomySettles(m: Layout, a: Word, size: Word)
    requires Roomy(m)
    ensures Ascend(m, a, size).Some?
    decreases TWO64 - a
  {
    var c := Region(a, size);
    if !Free(m, c) {
      if !Overlap(c, m.ram) { var j := HitIndex(m.devs, c, 0); }
      PastRises(c, Hit(m, c).value);
      RoomySettles(m, Restarted(m, a, size), size);
    }
  }

  // The search stops: going up from the request, or after falling back to 0
  predicate Settles(m: Layout, a: Word, size: Word) { Ascend(m, a, size).Some? || Ascend(m, 0, size).Some? }

  function Settled(m: Layout, a: Word, size: Word): Word
    requires Settles(m, a, size)
  {
    if Ascend(m, a, size).Some? then Ascend(m, a, size).value else Ascend(m, 0, size).value
  }

  /** One restart goes past RAM if the zone overlaps it, and otherwise past the first device that it overlaps. */
  lemma RestartedIs(m: Layout, a: Word, size: Word)
    ensures var c, n := Region(a, size), Restarted(m, a, size);
            if Overlap(c, m.ram) then n == Past(m.ram)
            else if exists i :: 0 <= i < |m.devs| && Overlap(c, m.devs[i].region) then
              exists i :: 0 <= i < |m.devs| && Overlap(c, m.devs[i].region) && n == Past(m.devs[i].region)
                          && forall j :: 0 <= j < i ==> !Overlap(c, m.devs[j].region)
            else n == a
  {
    hide Overlap, Past;
    FirstHit(m.devs, Region(a, size), 0);
  }

  lemma {:induction false} FirstHit(devs: seq<Device>, c: Region, i: nat)
    requires i <= |devs|
    ensures var h := HitDevice(devs, c, i);
            h.Some? ==> exists k :: i <= k < |devs| && h.value == devs[k].region && Overlap(c, devs[k].region)
                                    && forall j :: i <= j < k ==> !Overlap(c, devs[j].region)
    decreases |devs| - i
  {
    hide Overlap;
    if i < |devs| && !Overlap(c, devs[i].region) { FirstHit(devs, c, i + 1); }
  }

  // The address after `n` restarts
  function Iterated(m: Layout, a: Word, size: Word, n: nat): Word {
    if n == 0 then a else Restarted(m, Iterated(m, a, size, n - 1), size)
  }

  lemma {:induction false} StaysLost(m: Layout, a: Word, size: Word, n: nat)
    requires !Settles(m, a, size)
    ensures Ascend(m, Iterated(m, a, size, n), size).None?
  {
    if n > 0 {
      StaysLost(m, a, size, n - 1);
      var x := Iterated(m, a, size, n - 1);
      PastRises(Region(x, size), Hit(m, Region(x, size)).value);
    }
  }

  /** The search reaches a free zone after some number of restarts if and only if it settles. */
  lemma StopsIffSettles(m: Layout, a: Word, size: Word)
    ensures Settles(m, a, size) <==> exists n: nat :: Free(m, Region(Iterated(m, a, size, n), size))
  {
    if Settles(m, a, size) {
      var n := Reaches(m, a, size);
      if Ascend(m, a, size).None? {
        var k := Reaches(m, 0, size);
        IteratedAdd(m, a, size, n, k);
      }
    } else {
      forall n: nat ensures !Free(m, Region(Iterated(m, a, size, n), size)) { StaysLost(m, a, size, n); }
    }
  }

  /** What the search settles on is the first free zone that its restarts come to. */
  lemma SettledIsFirst(m: Layout, a: Word, size: Word) returns (n: nat)
    requires Settles(m, a, size)
    ensures Settled(m, a, size) == Iterated(m, a, size, n) && Free(m, Region(Iterated(m, a, size, n), size))
    ensures forall k: nat :: k < n ==> !Free(m, Region(Iterated(m, a, size, k), size))
  {
    hide Free, Iterated, Restarted, Ascend;
    n := Reaches(m, a, size);
    if Ascend(m, a, size).None? {
      var n' := Reaches(m, 0, size);
      IteratedAdd(m, a, size, n, n');
      forall k: nat | k < n + n' ensures !Free(m, Region(Iterated(m, a, size, k), size)) {
        if k >= n { IteratedAdd(m, a, size, n, k - n); }
      }
      n := n + n';
    }
  }

  // Going up, the zones before the last are taken
  lemma {:induction false} Reaches(m: Layout, a: Word, size: Word) returns (n: nat)
    ensures Iterated(m, a, size, n) == if Ascend(m, a, size).Some? then Ascend(m, a, size).value else 0
    ensures Ascend(m, a, size).Some? ==> Free(m, Region(Iterated(m, a, size, n), size))
    ensures forall k: nat :: k < n ==> !Free(m, Region(Iterated(m, a, size, k), size))
    decreases TWO64 - a
  {
    hide Free, Restarted;
    n := 0;
    if !Free(m, Region(a, size)) {
      var b := Restarted(m, a, size);
      RestartRises(m, a, size);
      assert Iterated(m, a, size, 0) == a;
      assert Iterated(m, a, size, 1) == b;
      if a < b {
        var k := Reaches(m, b, size);
        IteratedAdd(m, a, size, 1, k);
        forall i: nat | i < 1 + k ensures !Free(m, Region(Iterated(m, a, size, i), size)) {
          if i > 0 { IteratedAdd(m, a, size, 1, i - 1); }
        }
        n := 1 + k;
      } else {
        n := 1;
      }
    }
  }

  lemma RestartRises(m: Layout, a: Word, size: Word)
    requires !Free(m, Region(a, size))
    ensures var b := Restarted(m, a, size); a < b || b == 0
  {
    PastRises(Region(a, size), Hit(m, Region(a, size)).value);
  }

  lemma {:induction false} IteratedAdd(m: Layout, a: Word, size: Word, n: nat, k: nat)
    ensures Iterated(m, a, size, n + k) == Iterated(m, Iterated(m, a, size, n), size, k)
  {
    hide Restarted;
    if k > 0 {
      IteratedAdd(m, a, size, n, k - 1);
      assert n + k - 1 == n + (k - 1);
    }
  }

  // A page boundary with room for the zone
  predicate FreeBoundary(m: Layout, size: Word, c: Word) {
    c % 0x1000 == 0 && c + size < TWO64 && Free(m, Region(c, size))
  }

  /** The search stops whenever some page boundary has room, wherever it starts. */
  lemma RoomSettles(m: Layout, a: Word, size: Word, c: Word)
    requires FreeBoundary(m, size, c)
    ensures Settles(m, a, size)
  {
    hide Free, Ascend;
    AscendLeast(m, 0, size);
    assert Candidate(0, size, c);
  }

  // Moving past any region leaves room below the top; a region too near the top sends the search to 0
  predicate LandsBelowTop(m: Layout, size: Word) {
    Past(m.ram) + size < TWO64 && forall j :: 0 <= j < |m.devs| ==> Past(m.devs[j].region) + size < TWO64
  }

  // No zone that runs past the top counts as free
  ghost predicate NoZonePastTop(m: Layout, size: Word) {
    forall c: Word :: c % 0x1000 == 0 && c + size >= TWO64 ==> !Free(m, Region(c, size))
  }

  lemma {:induction false} LandingBelowTop(m: Layout, a: Word, size: Word)
    requires LandsBelowTop(m, size) && Ascend(m, a, size).Some?
    ensures var y := Ascend(m, a, size).value;
            Free(m, Region(y, size)) && (y == a || (y % 0x1000 == 0 && y + size < TWO64))
    decreases TWO64 - a
  {
    var c := Region(a, size);
    if !Free(m, c) {
      if !Overlap(c, m.ram) { var j := HitIndex(m.devs, c, 0); }
      PastRises(c, Hit(m, c).value);
      hide Past, Overlap;
      LandingBelowTop(m, Restarted(m, a, size), size);
    }
  }

  // Where the ascent from `a` ends, other than at `a` itself
  lemma LandingHasRoom(m: Layout, a: Word, size: Word)
    requires (LandsBelowTop(m, size) || NoZonePastTop(m, size)) && Ascend(m, a, size).Some?
    ensures var y := Ascend(m, a, size).value; Free(m, Region(y, size)) && (y == a || FreeBoundary(m, size, y))
  {
    hide Free, Ascend, LandsBelowTop;
    if LandsBelowTop(m, size) { LandingBelowTop(m, a, size); } else { AscendLeast(m, a, size); }
  }

  /** On a layout where moving past a region never lands within `size` of the top, or where no zone that runs past
      the top counts as free, the search stops if and only if the request is free or some page boundary has room. */
  lemma StopsIffRoom(m: Layout, a: Word, size: Word)
    requires LandsBelowTop(m, size) || NoZonePastTop(m, size)
    ensures (exists n: nat :: Free(m, Region(Iterated(m, a, size, n), size))) <==>
            Free(m, Region(a, size)) || exists c: Word :: FreeBoundary(m, size, c)
  {
    hide Free, Ascend, Iterated, LandsBelowTop, NoZonePastTop;
    StopsIffSettles(m, a, size);
    if Ascend(m, a, size).Some? {
      LandingHasRoom(m, a, size);
    } else if Ascend(m, 0, size).Some? {
      LandingHasRoom(m, 0, size);
      assert FreeBoundary(m, size, Ascend(m, 0, size).value);
    }
    if c: Word :| FreeBoundary(m, size, c) { RoomSettles(m, a, size, c); }
    if Free(m, Region(a, size)) { FreeSettles(m, a, size); }
  }

  lemma FreeSettles(m: Layout, a: Word, size: Word)
    requires Free(m, Region(a, size))
    ensures Settles(m, a, size)
  {
  }

  /** With memory full to the last byte but one, the search runs round for ever. */
  lemma SearchCanCycle()
    ensures !Settles(Layout(Region(0, 0x1000), [Device(0, Region(0x1000, 0xFFFF_FFFF_FFFF_EFFF), 1, 8)]), 0, 0x1000)
  {
    var m := Layout(Region(0, 0x1000), [Device(0, Region(0x1000, 0xFFFF_FFFF_FFFF_EFFF), 1, 8)]);
    assert Restarted(m, 0, 0x1000) == 0x1000;
    assert Overlap(Region(0x1000, 0x1000), m.devs[0].region);
    assert HitDevice(m.devs, Region(0x1000, 0x1000), 0) == Some(m.devs[0].region);
    assert Restarted(m, 0x1000, 0x1000) == 0;
    assert Ascend(m, 0x1000, 0x1000).None?;
  }

  // ------------------------------------------------------------ the machine

  // Nonempty devices overlap neither each other nor RAM
  predicate Disjoint(m: Layout) {
    && (forall i, j :: 0 <= i < j < |m.devs| && m.devs[i].region.size > 0 && m.devs[j].region.size > 0
          ==> !Overlap(m.devs[i].region, m.devs[j].region))
    && forall i :: 0 <= i < |m.devs| && m.devs[i].region.size > 0 ==> !Overlap(m.devs[i].region, m.ram)
  }

  /** At most one device holds a physical address. */
  lemma UniqueMatch(m: Layout, p: Word, i: nat, j: nat)
    requires Disjoint(m) && i < |m.devs| && j < |m.devs| && Holds(m.devs[i].region, p) && Holds(m.devs[j].region, p)
    ensures i == j
  {
    if i < j {
      assert Overlap(m.devs[i].region, m.devs[j].region);
    } else if j < i {
      assert Overlap(m.devs[j].region, m.devs[i].region);
    }
  }

  /** No device holds an address of RAM. */
  lemma RamIsApart(m: Layout, p: Word, i: nat)
    requires Disjoint(m) && i < |m.devs| && m.ram.addr + m.ram.size < TWO64 && Holds(m.ram, p)
    ensures !Holds(m.devs[i].region, p)
  {
  }

  lemma AllUnique(m: Layout)
    requires Disjoint(m)
    ensures forall p: Word, i, j | 0 <= i < |m.devs| && 0 <= j < |m.devs| ::
              Holds(m.devs[i].region, p) && Holds(m.devs[j].region, p) ==> i == j
  {
    forall p: Word, i, j | 0 <= i < |m.devs| && 0 <= j < |m.devs|
                           && Holds(m.devs[i].region, p) && Holds(m.devs[j].region, p)
      ensures i == j
    {
      UniqueMatch(m, p, i, j);
    }
  }

  // The device list without one handle
  function Without(devs: seq<Device>, handle: nat): seq<Device> {
    if |devs| == 0 then []
    else
      var k := |devs| - 1;
      Without(devs[..k], handle) + (if devs[k].handle == handle then [] else [devs[k]])
  }

  /** Removing a handle leaves exactly the devices with other handles, in their order. */
  lemma {:induction false} WithoutKeeps(devs: seq<Device>, handle: nat) returns (at: seq<nat>)
    ensures |at| == |Without(devs, handle)|
    ensures forall i :: 0 <= i < |at| ==> at[i] < |devs| && Without(devs, handle)[i] == devs[at[i]]
    ensures forall i, j :: 0 <= i < j < |at| ==> at[i] < at[j]
    ensures forall k :: 0 <= k < |devs| ==> (k in at <==> devs[k].handle != handle)
  {
    at := [];
    if |devs| > 0 {
      var k := |devs| - 1;
      at := WithoutKeeps(devs[..k], handle);
      if devs[k].handle != handle { at := at + [k]; }
    }
  }

  lemma RemoveKeepsDisjoint(m: Layout, handle: nat)
    requires Disjoint(m)
    ensures Disjoint(m.(devs := Without(m.devs, handle)))
  {
    var at := WithoutKeeps(m.devs, handle);
  }

  datatype Event = Attached(dev: Device) | Removed(handle: nat)

  // bit_next_pow2 in the field's eight bits: hosts with a bit-scan instruction go down to a power of two, others go up
  function NextPow2(x: Byte, up: bool): Byte
    requires x > 0
  {
    var p := FloorPow2(x);
    if p == x || !up then p else 2 * p % 0x100
  }

  // Operation sizes are made powers of two, by default 1 and 8
  function Normalised(dev: Device, up: bool): Device {
    dev.(minOp := if dev.minOp == 0 then 1 else NextPow2(dev.minOp, up),
         maxOp := if dev.maxOp == 0 then 8 else NextPow2(dev.maxOp, up))
  }

  /** A device that is let in has operation sizes that are powers of two, the smaller at most 8, unless a host that
      goes up was given a smaller size above 128, which becomes 0. */
  lemma AcceptedSizes(m: Layout, dev: Device, up: bool)
    requires Accepted(m, Normalised(dev, up))
    ensures var d := Normalised(dev, up);
            d.minOp <= 8 && d.minOp <= d.maxOp
            && if up && dev.minOp > 128 then d.minOp == 0 else PowerOfTwo(d.minOp) && PowerOfTwo(d.maxOp)
  {
    assert Pow2(0) == 1;
    assert Pow2(3) == 8 by { assert Pow2(1) == 2; assert Pow2(2) == 4; }
    var d := Normalised(dev, up);
    if dev.minOp > 0 { NextIsPower(dev.minOp, up); }
    if dev.maxOp > 0 { NextIsPower(dev.maxOp, up); }
  }

  /** Sizes left at 0 become 1 and 8. Others become the largest power of two that is not above, or on hosts that go up
      the smallest that is not below, which is 0 in eight bits when it would be 256. */
  lemma NormalisedIs(dev: Device, up: bool)
    ensures var d := Normalised(dev, up);
            && d == dev.(minOp := d.minOp, maxOp := d.maxOp)
            && Rounded(dev.minOp, d.minOp, 1, up) && Rounded(dev.maxOp, d.maxOp, 8, up)
  {
    if dev.minOp > 0 { NextIsNearest(dev.minOp, up); }
    if dev.maxOp > 0 { NextIsNearest(dev.maxOp, up); }
  }

  ghost predicate Rounded(x: Byte, p: Byte, default: Byte, up: bool) {
    if x == 0 then p == default
    else if up && x > 128 then p == 0
    else PowerOfTwo(p) && if up then p < 2 * x && x <= p else p <= x < 2 * p
  }

  lemma NextIsNearest(x: Byte, up: bool)
    requires x > 0
    ensures Rounded(x, NextPow2(x, up), 0, up)
  {
    hide FloorPow2, PowerOfTwo;
    NextIsPower(x, up);
    SmallPower(FloorPow2(x));
  }

  lemma NextIsPower(x: Byte, up: bool)
    requires x > 0
    ensures if up && x > 128 then NextPow2(x, up) == 0 else NextPow2(x, up) > 0 && PowerOfTwo(NextPow2(x, up))
  {
    hide FloorPow2, PowerOfTwo;
    var p := FloorPow2(x);
    DoublePow2(p);
    SmallPower(p);
  }

  // The powers of two below 256
  lemma SmallPower(p: nat)
    requires PowerOfTwo(p) && p < 256
    ensures p == 128 || p <= 64
  {
    var k: nat :| p == Pow2(k);
    assert Pow2(6) == 64 by { Pow2Add(3, 3); assert Pow2(3) == 8 by { assert Pow2(1) == 2; assert Pow2(2) == 4; } }
    assert Pow2(7) == 128 && Pow2(8) == 256;
    if k < 7 { Pow2Monotone(k, 6); } else if k > 7 { Pow2Monotone(8, k); }
  }

  predicate Accepted(m: Layout, dev: Device) {
    dev.minOp <= dev.maxOp && dev.minOp <= 8 && (dev.region.size == 0 || Free(m, dev.region))
  }

  function Apply(m: Layout, e: Event): Layout {
    match e
    case Attached(dev) => if Accepted(m, dev) then m.(devs := m.devs + [dev]) else m
    case Removed(handle) => m.(devs := Without(m.devs, handle))
  }

  function ApplyAll(m: Layout, run: seq<Event>): Layout
    decreases |run|
  {
    if |run| == 0 then m else Apply(ApplyAll(m, run[..|run| - 1]), run[|run| - 1])
  }

  /** Any sequence of attaches and removals keeps nonempty devices and RAM disjoint, and every physical address
      has at most one device. */
  lemma {:induction false} RunKeepsDisjoint(m: Layout, run: seq<Event>)
    requires Disjoint(m)
    ensures Disjoint(ApplyAll(m, run))
    ensures var devs := ApplyAll(m, run).devs;
            forall p: Word, i, j | 0 <= i < |devs| && 0 <= j < |devs| ::
              Holds(devs[i].region, p) && Holds(devs[j].region, p) ==> i == j
    decreases |run|
  {
    hide Disjoint, Without, Free;
    if |run| > 0 {
      var k := |run| - 1;
      var was := ApplyAll(m, run[..k]);
      RunKeepsDisjoint(m, run[..k]);
      match run[k] {
        case Attached(dev) => if Accepted(was, dev) { AttachKeepsDisjoint(was, dev); }
        case Removed(handle) => RemoveKeepsDisjoint(was, handle);
      }
    }
    AllUnique(ApplyAll(m, run));
  }

  class Machine {
    var ram: Region
    var devs: seq<Device>

    ghost function View(): Layout
      reads this
    {
      Layout(ram, devs)
    }

    // rvvm_mmio_zone_auto
    method ZoneAuto(addr: Word, size: Word) returns (r: Word)
      requires size > 0 ==> Settles(View(), addr, size)
      ensures r == if size == 0 then addr else Settled(View(), addr, size)
    {
      r := addr;
      if size > 0 {
        ghost var fell := false;
        var freeZone := false;
        while !freeZone
          invariant if fell then Ascend(View(), addr, size).None? && Ascend(View(), r, size) == Ascend(View(), 0, size)
                    else Ascend(View(), r, size) == Ascend(View(), addr, size)
          invariant freeZone ==> Free(View(), Region(r, size))
          decreases !freeZone, !fell, TWO64 - r
        {
          freeZone := true;
          ghost var before := r;
          if Overlap(Region(r, size), ram) {
            PastRises(Region(r, size), ram);
            r := Past(ram);
            freeZone := false;
          } else {
            var i := 0;
            while i < |devs|
              invariant i <= |devs| && freeZone && r == before
              invariant HitDevice(devs, Region(r, size), 0) == HitDevice(devs, Region(r, size), i)
            {
              if Overlap(Region(r, size), devs[i].region) {
                PastRises(Region(r, size), devs[i].region);
                r := Past(devs[i].region);
                freeZone := false;
                break;
              }
              i := i + 1;
            }
          }
          assert r == Restarted(View(), before, size);
          if r < before { fell := true; }
        }
      }
    }

    // rvvm_attach_mmio
    method Attach(desc: Device, up: bool) returns (ok: bool)
      requires desc.region.size > 0 ==> Settles(View(), desc.region.addr, desc.region.size)
      modifies `devs
      ensures var d := Normalised(desc, up);
              && (ok <==> d.minOp <= d.maxOp && d.minOp <= 8 && (d.region.size == 0 || Free(old(View()), d.region)))
              && ram == old(ram) && devs == if ok then old(devs) + [d] else old(devs)
      ensures View() == Apply(old(View()), Attached(Normalised(desc, up)))
    {
      hide NextPow2;
      var dev := Normalised(desc, up);
      if dev.minOp > dev.maxOp || dev.minOp > 8 { return false; }
      var at := ZoneAuto(dev.region.addr, dev.region.size);
      if dev.region.size > 0 { SettledIsRequest(View(), dev.region); }
      if at != dev.region.addr { return false; }
      devs := devs + [dev];
      ok := true;
    }

    // rvvm_remove_mmio
    method Remove(handle: nat)
      modifies `devs
      ensures View() == Apply(old(View()), Removed(handle))
    {
      ghost var all := devs;
      assert all[..|all|] == all;
      var i := |devs|;
      while i > 0
        invariant 0 <= i <= |all| && |devs| >= i && devs[..i] == all[..i]
        invariant Without(all[..i], handle) + devs[i..] == Without(all, handle)
      {
        i := i - 1;
        assert all[..i + 1][..i] == all[..i];
        if devs[i].handle == handle {
          devs := devs[..i] + devs[i + 1..];
        }
      }
      assert all[..0] == [] && devs[0..] == devs;
    }

    // riscv_mmio_scan: the first device that holds the address
    method Scan(p: Word) returns (found: Option<nat>)
      requires Disjoint(View())
      ensures found.None? <==> forall j :: 0 <= j < |devs| ==> !Holds(devs[j].region, p)
      ensures found.Some? ==> forall j :: 0 <= j < |devs| ==> (Holds(devs[j].region, p) <==> j == found.value)
    {
      for i := 0 to |devs|
        invariant forall j :: 0 <= j < i ==> !Holds(devs[j].region, p)
      {
        if devs[i].region.addr <= p && p < End(devs[i].region) {
          forall j | 0 <= j < |devs| && Holds(devs[j].region, p) ensures j == i { UniqueMatch(View(), p, i, j); }
          return Some(i);
        }
      }
      found := None;
    }
  }

  /** The search answers with the request itself exactly when the requested zone is free. */
  lemma SettledIsRequest(m: Layout, c: Region)
    requires Settles(m, c.addr, c.size)
    ensures Settled(m, c.addr, c.size) == c.addr <==> Free(m, c)
  {
    AscendLeast(m, c.addr, c.size);
    AscendLeast(m, 0, c.size);
  }

  lemma AttachKeepsDisjoint(m: Layout, dev: Device)
    requires dev.region.size == 0 || Free(m, dev.region)
    ensures Disjoint(m) ==> Disjoint(m.(devs := m.devs + [dev]))
  {
  }
}
