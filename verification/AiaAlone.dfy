/**
 * The two models of the register file agree: a scan of AiaRun that no sender disturbs, step by step,
 * does what the register file of Aia does at once.
 */
module AiaAlone {
  import opened Aia
  import opened BitSets
  import Run = AiaRun

  // The identities whose bits are set in eight words of 32
  function Flat(a: Array): set<nat> { set id: nat | id < 256 && id % 32 in a[id / 32] }

  // The hart's steps up to the end of the access
  ghost function Alone(s: Run.System): Run.System
    requires Run.Bounded(s)
    decreases Run.Rank(s.loc)
  {
    if s.loc.Free? then s else
      Run.ScanStep(s);
      Alone(Run.HartStep(s))
  }

  lemma AloneStep(s: Run.System)
    requires Run.Bounded(s) && !s.loc.Free?
    ensures Run.Bounded(Run.HartStep(s)) && Alone(s) == Alone(Run.HartStep(s))
  {
    Run.ScanStep(s);
  }

  predicate Within(a: Array) { forall i :: 0 <= i < WORDS ==> a[i] <= ALL_LINES }

  // One word of the two registers
  lemma WordOf(eip: Array, eie: Array, i: nat)
    requires Within(eip) && Within(eie) && i < WORDS
    ensures SameSet(eip[i] * eie[i], Run.InWord(Flat(eip) * Flat(eie), i), i)
  {
    hide Within, Flat;
    var ids := Run.InWord(Flat(eip) * Flat(eie), i);
    forall b: nat ensures b in eip[i] * eie[i] <==> b < 32 && 32 * i + b in ids { WordBit(eip, eie, i, b); }
  }

  // Bits of word i and their identities
  ghost predicate SameSet(bits: Bits, ids: set<nat>, i: nat) {
    && (forall b: nat :: b in bits <==> b < 32 && 32 * i + b in ids)
    && forall id :: id in ids ==> id / 32 == i
  }

  lemma BitOfId(bits: Bits, ids: set<nat>, i: nat, id: nat)
    requires SameSet(bits, ids, i) && id in ids
    ensures id % 32 in bits && id == 32 * i + id % 32
  {
  }

  lemma SameHighest(bits: Bits, ids: set<nat>, i: nat)
    requires SameSet(bits, ids, i)
    ensures bits == {} <==> ids == {}
    ensures bits != {} ==> ids != {} && Highest(ids) == 32 * i + Highest(bits)
  {
    if ids != {} { BitOfId(bits, ids, i, Highest(ids)); }
    if bits != {} { assert 32 * i + Highest(bits) in ids; }
  }

  lemma SameSingle(bits: Bits, ids: set<nat>, i: nat, b: nat)
    requires SameSet(bits, ids, i) && b in bits
    ensures ids == {32 * i + b} <==> bits == {b}
  {
    if ids == {32 * i + b} {
      forall c | c in bits ensures c == b { assert 32 * i + c in ids; }
      assert bits == {b};
    }
    if bits == {b} {
      forall id | id in ids ensures id == 32 * i + b { BitOfId(bits, ids, i, id); }
      assert 32 * i + b in ids;
      assert ids == {32 * i + b};
    }
  }

  lemma WordBit(eip: Array, eie: Array, i: nat, b: nat)
    requires Within(eip) && Within(eie) && i < WORDS
    ensures b in eip[i] * eie[i] <==> b < 32 && 32 * i + b in Run.InWord(Flat(eip) * Flat(eie), i)
  {
    assert b in eip[i] ==> b < 32 by { if b in eip[i] { assert eip[i] <= ALL_LINES; } }
    if b < 32 { assert (32 * i + b) / 32 == i && (32 * i + b) % 32 == b; }
  }

  // Taking one bit out
  lemma FlatWithout(a: Array, i: nat, b: nat)
    requires i < WORDS && b < 32
    ensures Flat(a) - {32 * i + b} == Flat(a[i := a[i] - {b}])
  {
    var c := a[i := a[i] - {b}];
    forall id: nat | id < 256 ensures id % 32 in c[id / 32] <==> id % 32 in a[id / 32] && id != 32 * i + b {
      assert id == 32 * (id / 32) + id % 32;
    }
  }

  lemma ShapeBounded(f: File, eip: Array, line: bool, loc: Run.Loc, n: nat)
    ensures Run.Bounded(Middle(f, eip, line, loc, n))
  {
  }

  // In the middle of a scan, with `n` senders elsewhere
  function Middle(f: File, eip: Array, line: bool, loc: Run.Loc, n: nat): Run.System {
    Run.System(f.delivery, Flat(eip), Flat(f.eie), line, loc, seq(n, _ => Run.Idle))
  }

  // What the scan leaves
  ghost function Left(f: File, claim: bool): File
    requires Wf(f)
  {
    if claim then Claimed(f) else Relined(f)
  }

  ghost predicate Ends(f: File, claim: bool, eip: Array, line: bool, loc: Run.Loc, n: nat)
    requires Wf(f)
  {
    ShapeBounded(f, eip, line, loc, n);
    Alone(Middle(f, eip, line, loc, n)) == Middle(f, Left(f, claim).eip, Left(f, claim).line, Run.Free, n)
  }

  lemma WfWithin(f: File)
    requires Wf(f)
    ensures Within(f.eip) && Within(f.eie)
  {
  }

  lemma AloneFree(f: File, eip: Array, line: bool, n: nat)
    ensures Run.Bounded(Middle(f, eip, line, Run.Free, n))
    ensures Alone(Middle(f, eip, line, Run.Free, n)) == Middle(f, eip, line, Run.Free, n)
  {
    ShapeBounded(f, eip, line, Run.Free, n);
  }

  // The end of the scan, by what it has found
  lemma FileOf(f: File, g: File, claim: bool, ret: nat, eip: Array, line: bool)
    requires Wf(f) && g == (if claim then Clean(f) else f) && f.delivery
    requires ret == Top(g) && ret < 256 && (ret != 0 ==> claim)
    requires var h := if ret == 0 then g else Removed(g, ret);
             eip == h.eip && (line <==> AnyFrom(h, 0))
    ensures Left(f, claim).eip == eip && Left(f, claim).line == line
  {
    hide Top;
    CleanWf(f);
  }

  lemma RaiseEnds(f: File, claim: bool, eip: Array, n: nat)
    requires Wf(f) && Left(f, claim).eip == eip && Left(f, claim).line
    ensures Ends(f, claim, eip, false, Run.Raise, n)
  {
    hide Flat, Left, Wf;
    var s := Middle(f, eip, false, Run.Raise, n);
    ShapeBounded(f, eip, false, Run.Raise, n);
    AloneStep(s);
    AloneFree(f, eip, true, n);
  }

  // From word i on
  lemma {:induction false} ScanEnds(f: File, g: File, claim: bool, i: nat, ret: nat, eip: Array, n: nat)
    requires Wf(f) && f.delivery && i <= WORDS && g == (if claim then Clean(f) else f)
    requires Scanned(f, g, claim, i, ret, eip) && Within(eip)
    ensures Ends(f, claim, eip, false, Run.Scan(claim, i, ret), n)
    decreases WORDS - i, 1
  {
    hide Scanned, Wf, Clean, Top, AnyFrom, Within, Flat, Active, SameSet;
    var s := Middle(f, eip, false, Run.Scan(claim, i, ret), n);
    ShapeBounded(f, eip, false, Run.Scan(claim, i, ret), n);
    AloneStep(s);
    CleanWf(f);
    if i == WORDS {
      ScanDone(f, g, claim, ret, eip);
      FileOf(f, g, claim, ret, eip, false);
      AloneFree(f, eip, false, n);
    } else {
      WfWithin(f);
      WordOf(eip, f.eie, i);
      var bits := eip[i] * f.eie[i];
      SameHighest(bits, Run.InWord(Flat(eip) * Flat(f.eie), i), i);
      if bits == {} {
        ScanIdle(f, g, claim, i, ret, eip);
        ScanEnds(f, g, claim, i + 1, ret, eip, n);
      } else if ret != 0 {
        ScanMore(f, g, claim, i, ret, eip);
        FileOf(f, g, claim, ret, eip, true);
        RaiseEnds(f, claim, eip, n);
      } else {
        FoundEnds(f, g, claim, i, eip, n);
      }
    }
  }

  // At the first active word
  lemma {:induction false} FoundEnds(f: File, g: File, claim: bool, i: nat, eip: Array, n: nat)
    requires Wf(f) && f.delivery && i < WORDS && g == (if claim then Clean(f) else f)
    requires Scanned(f, g, claim, i, 0, eip) && Within(eip) && eip[i] * f.eie[i] != {}
    ensures Ends(f, claim, eip, false, Run.Scan(claim, i, 0), n)
    decreases WORDS - i, 0
  {
    hide Scanned, Wf, Clean, Top, AnyFrom, Flat, Active, SameSet;
    var bits := eip[i] * f.eie[i];
    var bit := Highest(bits);
    var t, rest := 32 * i + bit, eip[i := eip[i] - {bit}];
    var s := Middle(f, eip, false, Run.Scan(claim, i, 0), n);
    ShapeBounded(f, eip, false, Run.Scan(claim, i, 0), n);
    AloneStep(s);
    WfWithin(f);
    WordOf(eip, f.eie, i);
    SameHighest(bits, Run.InWord(Flat(eip) * Flat(f.eie), i), i);
    SameSingle(bits, Run.InWord(Flat(eip) * Flat(f.eie), i), i, bit);
    ScanFound(f, g, claim, i, bit, eip);
    if !claim {
      RelinedEnds(f, eip);
      RaiseEnds(f, claim, eip, n);
    } else {
      var ids := Run.InWord(Flat(eip) * Flat(f.eie), i);
      var s1 := Middle(f, eip, false, Run.Claim(i, ids, t), n);
      ShapeBounded(f, eip, false, Run.Claim(i, ids, t), n);
      AloneStep(s1);
      FlatWithout(eip, i, bit);
      if bits == {bit} {
        ScanEnds(f, g, claim, i + 1, t, rest, n);
      } else {
        FileOf(f, g, claim, t, rest, true);
        RaiseEnds(f, claim, rest, n);
      }
    }
  }

  lemma RelinedEnds(f: File, eip: Array)
    requires Wf(f) && f.delivery && eip == f.eip && AnyFrom(f, 0)
    ensures Left(f, false).eip == eip && Left(f, false).line
  {
  }

  /** An access that no sender disturbs claims and sets the line as the register file does at once. */
  lemma AloneIsUpdate(f: File, claim: bool, n: nat)
    requires Wf(f)
    ensures var r := if claim then Claimed(f) else Relined(f);
            && Run.Bounded(Middle(f, f.eip, f.line, Run.ClearLine(claim), n))
            && Alone(Middle(f, f.eip, f.line, Run.ClearLine(claim), n)) == Middle(f, r.eip, r.line, Run.Free, n)
  {
    hide Flat, Scanned, AnyFrom, Top;
    var g := if claim then Clean(f) else f;
    var s := Middle(f, f.eip, f.line, Run.ClearLine(claim), n);
    ShapeBounded(f, f.eip, f.line, Run.ClearLine(claim), n);
    AloneStep(s);
    var s1 := Middle(f, f.eip, false, Run.LoadDelivery(claim), n);
    ShapeBounded(f, f.eip, false, Run.LoadDelivery(claim), n);
    AloneStep(s1);
    ScanStart(f, g, claim);
    WfWithin(f);
    if f.delivery { ScanEnds(f, g, claim, 0, 0, f.eip, n); } else { AloneFree(f, f.eip, false, n); }
  }

  // A sender's steps, one after the other: check delivery, read the enable bit, set the pending bit, raise the line
  ghost function SentAlone(s: Run.System, t: nat, id: nat): Run.System
    requires Run.Can(s, Run.Send(t, id))
  {
    var s1 := Run.Do(s, Run.Send(t, id));
    if !s.delivery then s1
    else
      var s2 := Run.Do(s1, Run.LoadEie(t));
      var s3 := Run.Do(s2, Run.SetPending(t));
      if s3.senders[t].Raising? then Run.Do(s3, Run.Notify(t)) else s3
  }

  /** An MSI that nothing disturbs sets its pending bit and the line as the register file does at once. */
  lemma AloneIsSend(f: File, t: nat, id: nat, n: nat)
    requires Wf(f) && t < n && 0 < id < 256
    ensures var s := Middle(f, f.eip, f.line, Run.Free, n);
            var reg, bit := id / 32, id % 32;
            && Run.Can(s, Run.Send(t, id))
            && SentAlone(s, t, id)
               == if f.delivery then
                    Middle(f, f.eip[reg := f.eip[reg] + {bit}],
                           f.line || (bit in f.eie[reg] && bit !in f.eip[reg]), Run.Free, n)
                  else s
  {
    hide Flat;
    var s := Middle(f, f.eip, f.line, Run.Free, n);
    var idle := seq(n, _ => Run.Idle);
    assert idle[t := Run.Checked(id)][t := Run.Loaded(id, id in Flat(f.eie))][t := Run.Idle] == idle;
    assert idle[t := Run.Checked(id)][t := Run.Loaded(id, id in Flat(f.eie))][t := Run.Raising][t := Run.Idle] == idle;
    assert idle[t := Run.Idle] == idle;
    FlatWith(f.eip, id);
    FlatIs(f.eie, id);
    FlatIs(f.eip, id);
  }

  lemma FlatIs(a: Array, id: nat)
    requires id < 256
    ensures id in Flat(a) <==> id % 32 in a[id / 32]
  {
  }

  lemma FlatWith(a: Array, id: nat)
    requires id < 256
    ensures Flat(a) + {id} == Flat(a[id / 32 := a[id / 32] + {id % 32}])
  {
    var c := a[id / 32 := a[id / 32] + {id % 32}];
    forall x: nat | x < 256 ensures x % 32 in c[x / 32] <==> x % 32 in a[x / 32] || x == id {
      assert x == 32 * (x / 32) + x % 32;
    }
  }
}
