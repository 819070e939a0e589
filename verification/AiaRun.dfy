/**
 * MSIs that arrive while a hart scans its register file: every interleaving of sender threads with
 * the hart's accesses to the registers, each access an atomic step. Pending and enabled identities
 * are sets; the scan goes through them in words of 32.
 */
module AiaRun {
  import opened BitSets

  const WORDS: nat := 8
  const IDS: nat := 256

  // A sender in riscv_send_aia_irq
  datatype Sender =
    | Idle
    | Checked(id: nat)                  // delivery was on
    | Loaded(id: nat, enabled: bool)    // has read the enable bit
    | Raising                           // has made a new, enabled identity pending

  // The hart in riscv_update_aia_internal
  datatype Loc =
    | Free                              // elsewhere
    | ClearLine(claim: bool)
    | LoadDelivery(claim: bool)
    | Scan(claim: bool, i: nat, ret: nat)
    | Claim(i: nat, bits: set<nat>, top: nat)
    | Raise

  datatype System = System(delivery: bool, eip: set<nat>, eie: set<nat>, line: bool, loc: Loc, senders: seq<Sender>)

  datatype Event =
    | Begin(claim: bool)                // the hart accesses topei
    | WriteEie(eie: set<nat>)
    | WriteEip(eip: set<nat>)
    | WriteDelivery(on: bool)
    | Hart                              // the hart's next step in its scan
    | Send(t: nat, id: nat)
    | LoadEie(t: nat)
    | SetPending(t: nat)
    | Notify(t: nat)

  function InWord(ids: set<nat>, i: nat): set<nat> { set x | x in ids && x / 32 == i }

  predicate Can(s: System, e: Event) {
    match e
    case Begin(_) => s.loc.Free?
    case WriteEie(_) => s.loc.Free?
    case WriteEip(eip) => s.loc.Free? && forall x :: x in eip ==> x < IDS
    case WriteDelivery(_) => s.loc.Free?
    case Hart => !s.loc.Free?
    case Send(t, id) => t < |s.senders| && s.senders[t].Idle? && 0 < id < IDS
    case LoadEie(t) => t < |s.senders| && s.senders[t].Checked?
    case SetPending(t) => t < |s.senders| && s.senders[t].Loaded?
    case Notify(t) => t < |s.senders| && s.senders[t].Raising?
  }

  /** The identities of an MSI are 1 to 255. */
  lemma SendRange(s: System, t: nat, id: nat)
    ensures Can(s, Send(t, id)) <==> t < |s.senders| && s.senders[t].Idle? && 1 <= id <= 255
  {
  }

  // The hart's next access
  ghost function HartStep(s: System): System {
    match s.loc
    case Free => s
    case ClearLine(claim) => s.(line := false, loc := LoadDelivery(claim))
    case LoadDelivery(claim) => s.(loc := if s.delivery then Scan(claim, 0, 0) else Free)
    case Scan(claim, i, ret) =>
      var bits := InWord(s.eip * s.eie, i);
      if i >= WORDS then s.(loc := Free)
      else if bits == {} then s.(loc := Scan(claim, i + 1, ret))
      else if ret == 0 && claim then s.(loc := Claim(i, bits, Highest(bits)))
      else s.(loc := Raise)
    case Claim(i, bits, top) => s.(eip := s.eip - {top}, loc := if bits == {top} then Scan(true, i + 1, top) else Raise)
    case Raise => s.(line := true, loc := Free)
  }

  ghost function Do(s: System, e: Event): System
    requires Can(s, e)
  {
    match e
    case Begin(claim) => s.(loc := ClearLine(claim))
    case WriteEie(eie) => s.(eie := eie, loc := ClearLine(false))
    case WriteEip(eip) => s.(eip := eip, loc := ClearLine(false))
    case WriteDelivery(on) => s.(delivery := on, loc := ClearLine(false))
    case Hart => HartStep(s)
    case Send(t, id) => s.(senders := s.senders[t := if s.delivery then Checked(id) else Idle])
    case LoadEie(t) => s.(senders := s.senders[t := Loaded(s.senders[t].id, s.senders[t].id in s.eie)])
    case SetPending(t) =>
      var k := s.senders[t];
      s.(eip := s.eip + {k.id}, senders := s.senders[t := if k.enabled && k.id !in s.eip then Raising else Idle])
    case Notify(t) => s.(line := true, senders := s.senders[t := Idle])
  }

  ghost predicate CanAll(s: System, run: seq<Event>)
    decreases |run|
  {
    |run| > 0 ==> Can(s, run[0]) && CanAll(Do(s, run[0]), run[1..])
  }

  ghost function DoAll(s: System, run: seq<Event>): System
    requires CanAll(s, run)
    decreases |run|
  {
    if |run| == 0 then s else DoAll(Do(s, run[0]), run[1..])
  }

  // ------------------------------------------------------------ the invariant

  // Somebody has yet to raise the line
  predicate SomeRaising(s: System) { Raising in s.senders }

  // The scan under way has yet to come across `x`, or is about to raise the line anyway
  predicate WillSee(loc: Loc, x: nat) {
    match loc
    case Free => false
    case ClearLine(_) => true
    case LoadDelivery(_) => true
    case Scan(_, i, _) => x / 32 >= i
    case Claim(i, bits, top) => x / 32 > i || x in bits
    case Raise => true
  }

  predicate Covered(s: System, x: nat) { s.line || SomeRaising(s) || WillSee(s.loc, x) }

  // A sender that has read its enable bit as off is not wrong about it
  predicate NoneStale(s: System, eie: set<nat>) {
    forall t :: 0 <= t < |s.senders| && s.senders[t].Loaded? && !s.senders[t].enabled ==> s.senders[t].id !in eie
  }

  predicate Bounded(s: System) {
    && (forall x :: x in s.eip ==> x < IDS)
    && forall t :: 0 <= t < |s.senders| && (s.senders[t].Checked? || s.senders[t].Loaded?) ==> s.senders[t].id < IDS
  }

  predicate Inv(s: System) {
    Bounded(s) && NoneStale(s, s.eie) && (s.delivery ==> forall x :: x in s.eip && x in s.eie ==> Covered(s, x))
  }

  // An enabling write is safe if it does not enable an identity that a sender has just seen disabled
  predicate Safe(s: System, e: Event) { e.WriteEie? ==> NoneStale(s, e.eie) }

  lemma HartKeepsInv(s: System)
    requires Inv(s) && !s.loc.Free?
    ensures Inv(HartStep(s))
  {
    var s' := HartStep(s);
    forall x | x in s'.eip && x in s'.eie && s'.delivery
      ensures Covered(s', x)
    {
      assert x in s.eip && x < IDS;
      assert Covered(s, x);
      if s.loc.Scan? && s.loc.i < WORDS && x / 32 == s.loc.i { assert x in InWord(s.eip * s.eie, s.loc.i); }
    }
  }

  lemma OtherRaising(ks: seq<Sender>, t: nat, k: Sender)
    requires t < |ks|
    ensures Raising in ks && !ks[t].Raising? ==> Raising in ks[t := k]
    ensures k.Raising? ==> Raising in ks[t := k]
  {
    if Raising in ks && !ks[t].Raising? {
      var j :| 0 <= j < |ks| && ks[j] == Raising;
      assert ks[t := k][j] == Raising;
    }
    assert ks[t := k][t] == k;
  }

  lemma SenderKeepsInv(s: System, e: Event)
    requires Inv(s) && Can(s, e) && (e.Send? || e.LoadEie? || e.SetPending? || e.Notify?)
    ensures Inv(Do(s, e))
  {
    var s' := Do(s, e);
    OtherRaising(s.senders, e.t, s'.senders[e.t]);
    forall x | x in s'.eip && x in s'.eie && s'.delivery
      ensures Covered(s', x)
    {
      if x in s.eip { assert Covered(s, x); }
    }
  }

  /** Every step keeps the invariant, except an enabling write that is not safe. */
  lemma StepKeepsInv(s: System, e: Event)
    requires Inv(s) && Can(s, e) && Safe(s, e)
    ensures Inv(Do(s, e))
  {
    hide HartStep;
    if e.Hart? { HartKeepsInv(s); }
    else if e.Send? || e.LoadEie? || e.SetPending? || e.Notify? { SenderKeepsInv(s, e); }
  }

  // Every enabling write of the run is safe where it happens
  ghost predicate AllSafe(s: System, run: seq<Event>)
    requires CanAll(s, run)
    decreases |run|
  {
    |run| > 0 ==> Safe(s, run[0]) && AllSafe(Do(s, run[0]), run[1..])
  }

  lemma {:induction false} RunKeepsInv(s: System, run: seq<Event>)
    requires Inv(s) && CanAll(s, run) && AllSafe(s, run)
    ensures Inv(DoAll(s, run))
    decreases |run|
  {
    hide Inv, Do, Can, Safe;
    if |run| > 0 {
      StepKeepsInv(s, run[0]);
      RunKeepsInv(Do(s, run[0]), run[1..]);
    }
  }

  // Every sender and the scan are done, an enabled identity is pending, and the line is down
  predicate Lost(s: System, x: nat) {
    && s.delivery && s.loc.Free? && (forall t :: 0 <= t < |s.senders| ==> s.senders[t].Idle?)
    && x in s.eip && x in s.eie && !s.line
  }

  /** However MSIs and scans interleave, none is lost as long as enabling writes are safe. */
  lemma NoMsiLost(s: System, run: seq<Event>, x: nat)
    requires Inv(s) && CanAll(s, run) && AllSafe(s, run)
    ensures !Lost(DoAll(s, run), x)
  {
    hide AllSafe, CanAll, DoAll, Do;
    RunKeepsInv(s, run);
    var r := DoAll(s, run);
    assert x in r.eip && x in r.eie && r.delivery ==> Covered(r, x);
  }

  /** A register file after reset, with no sender under way, satisfies the invariant. */
  lemma ResetInv(s: System)
    requires s == System(false, {}, {}, false, Free, s.senders)
    requires forall t :: 0 <= t < |s.senders| ==> s.senders[t].Idle?
    ensures Inv(s)
  {
  }

  // ------------------------------------------------------------ runs one after the other

  predicate NoEieWrite(run: seq<Event>) { forall i :: 0 <= i < |run| ==> !run[i].WriteEie? }

  // A run without enabling writes leads from `s` to `r`
  ghost predicate Leads(s: System, run: seq<Event>, r: System) {
    NoEieWrite(run) && CanAll(s, run) && DoAll(s, run) == r
  }

  lemma LeadsNowhere(s: System)
    ensures Leads(s, [], s)
  {
  }

  lemma LeadsStep(s: System, e: Event, run: seq<Event>, r: System)
    requires Can(s, e) && !e.WriteEie? && Leads(Do(s, e), run, r)
    ensures Leads(s, [e] + run, r)
  {
    hide Can, Do;
    assert ([e] + run)[1..] == run;
  }

  lemma {:induction false} LeadsOn(s: System, a: seq<Event>, m: System, b: seq<Event>, r: System)
    requires Leads(s, a, m) && Leads(m, b, r)
    ensures Leads(s, a + b, r)
    decreases |a|
  {
    hide Can, Do;
    if |a| == 0 {
      assert a + b == b;
    } else {
      assert NoEieWrite(a[1..]);
      LeadsOn(Do(s, a[0]), a[1..], m, b, r);
      LeadsStep(s, a[0], a[1..] + b, r);
      assert [a[0]] + (a[1..] + b) == a + b;
    }
  }

  // ------------------------------------------------------------ finishing a scan

  // Steps left in a scan, at most
  function Rank(loc: Loc): nat {
    match loc
    case Free => 0
    case Raise => 1
    case Scan(_, i, _) => if i < WORDS then 2 * (WORDS - i) + 2 else 2
    case Claim(i, _, _) => if i < WORDS then 2 * (WORDS - i) + 1 else 3
    case LoadDelivery(_) => 20
    case ClearLine(_) => 21
  }

  // What a scan leaves alone
  predicate SameSetting(s: System, r: System) {
    r.delivery == s.delivery && r.eie == s.eie && r.senders == s.senders && r.eip <= s.eip
  }

  // The scan will claim an identity: some are active, and it has found none so far
  predicate WillClaim(s: System) {
    match s.loc
    case ClearLine(claim) => claim && s.delivery && s.eip * s.eie != {}
    case LoadDelivery(claim) => claim && s.delivery && s.eip * s.eie != {}
    case Scan(claim, i, ret) => claim && ret == 0 && exists x :: x in s.eip * s.eie && x / 32 >= i
    case Claim(_, bits, top) => top in s.eip * s.eie
    case _ => false
  }

  // Nothing is active, and the line is down or about to be cleared
  predicate WillStayDown(s: System) {
    s.eip * s.eie == {} && (s.loc.ClearLine? || ((s.loc.LoadDelivery? || s.loc.Scan? || s.loc.Free?) && !s.line))
  }

  lemma ScanStep(s: System)
    requires Bounded(s) && !s.loc.Free?
    ensures var r := HartStep(s);
            && Bounded(r) && SameSetting(s, r) && Rank(r.loc) < Rank(s.loc)
            && (WillClaim(s) ==> if s.loc.Claim? then r.eip < s.eip else WillClaim(r))
            && (WillStayDown(s) ==> WillStayDown(r))
  {
    var r := HartStep(s);
    if s.loc.Scan? && s.loc.i < WORDS {
      var active := s.eip * s.eie;
      var bits := InWord(active, s.loc.i);
      if WillClaim(s) {
        var x :| x in active && x / 32 >= s.loc.i;
        if bits == {} { assert x !in bits; } else { assert Highest(bits) in active; }
      }
      if WillStayDown(s) { assert bits == {}; }
    } else if s.loc.LoadDelivery? && WillClaim(s) {
      var x :| x in s.eip * s.eie;
      assert x / 32 >= 0;
    }
  }

  // The scan under way runs to its end; it claims if it was to, and leaves the line down if nothing is active
  lemma {:induction false} FinishScan(s: System) returns (run: seq<Event>, r: System)
    requires Bounded(s)
    ensures Leads(s, run, r) && Bounded(r) && SameSetting(s, r) && r.loc.Free?
    ensures WillClaim(s) ==> r.eip < s.eip && r.eip * r.eie < s.eip * s.eie
    ensures WillStayDown(s) ==> !r.line
    decreases Rank(s.loc)
  {
    hide HartStep, Leads, Bounded;
    if s.loc.Free? {
      LeadsNowhere(s);
      run, r := [], s;
    } else {
      ScanStep(s);
      var m := HartStep(s);
      var rest;
      rest, r := FinishScan(m);
      LeadsStep(s, Hart, rest, r);
      run := [Hart] + rest;
      if WillClaim(s) { ClaimedActive(s, m, r); }
    }
  }

  // An identity a scan claims was active
  lemma ClaimedActive(s: System, m: System, r: System)
    requires !s.loc.Free? && WillClaim(s) && m == HartStep(s) && SameSetting(s, m) && SameSetting(m, r)
    requires WillClaim(m) ==> r.eip < m.eip && r.eip * r.eie < m.eip * m.eie
    requires if s.loc.Claim? then m.eip < s.eip else WillClaim(m)
    ensures r.eip < s.eip && r.eip * r.eie < s.eip * s.eie
  {
    if s.loc.Claim? {
      var x := s.loc.top;
      assert x in s.eip * s.eie && x !in m.eip && x !in r.eip * r.eie;
      assert r.eip * r.eie <= s.eip * s.eie;
    }
  }

  // ------------------------------------------------------------ finishing the senders

  // All but one sender, and all that a sender can change
  predicate OthersSame(s: System, r: System, u: nat) {
    && r.delivery == s.delivery && r.eie == s.eie && r.loc == s.loc && |r.senders| == |s.senders|
    && forall v :: 0 <= v < |s.senders| && v != u ==> r.senders[v] == s.senders[v]
  }

  // Steps left for a sender
  function SenderRank(k: Sender): nat {
    match k
    case Idle => 0
    case Raising => 1
    case Loaded(_, _) => 2
    case Checked(_) => 3
  }

  function SenderNext(k: Sender, u: nat): Event {
    match k
    case Checked(_) => LoadEie(u)
    case Loaded(_, _) => SetPending(u)
    case _ => Notify(u)
  }

  lemma SenderStep(s: System, u: nat)
    requires Bounded(s) && u < |s.senders| && !s.senders[u].Idle?
    ensures var e := SenderNext(s.senders[u], u);
            && Can(s, e) && !e.WriteEie?
            && var r := Do(s, e);
               Bounded(r) && OthersSame(s, r, u) && SenderRank(r.senders[u]) < SenderRank(s.senders[u])
  {
  }

  lemma {:induction false} FinishSender(s: System, u: nat) returns (run: seq<Event>, r: System)
    requires Bounded(s) && u < |s.senders|
    ensures Leads(s, run, r) && Bounded(r) && OthersSame(s, r, u) && r.senders[u].Idle?
    decreases SenderRank(s.senders[u])
  {
    hide Leads, Bounded, Do, Can;
    if s.senders[u].Idle? {
      LeadsNowhere(s);
      run, r := [], s;
    } else {
      SenderStep(s, u);
      var e := SenderNext(s.senders[u], u);
      var rest;
      rest, r := FinishSender(Do(s, e), u);
      LeadsStep(s, e, rest, r);
      run := [e] + rest;
    }
  }

  // Every sender from `u` on, other than t, is let finish
  lemma {:induction false} FinishOthers(s: System, t: nat, u: nat) returns (run: seq<Event>, r: System)
    requires Bounded(s) && t < |s.senders| && u <= |s.senders|
    requires forall v :: 0 <= v < u && v != t ==> s.senders[v].Idle?
    ensures Leads(s, run, r) && Bounded(r) && r.loc == s.loc && r.eie == s.eie
    ensures |r.senders| == |s.senders| && r.senders[t] == s.senders[t]
    ensures forall v :: 0 <= v < |s.senders| && v != t ==> r.senders[v].Idle?
    decreases |s.senders| - u
  {
    hide Leads, Bounded;
    if u == |s.senders| {
      LeadsNowhere(s);
      run, r := [], s;
    } else if u == t {
      run, r := FinishOthers(s, t, u + 1);
    } else {
      var a, m := FinishSender(s, u);
      var b;
      b, r := FinishOthers(m, t, u + 1);
      LeadsOn(s, a, m, b, r);
      run := a + b;
    }
  }

  // ------------------------------------------------------------ claiming until nothing is active

  // A register access, and the scan it starts
  lemma AccessAndScan(s: System, e: Event) returns (run: seq<Event>, r: System)
    requires Bounded(s) && s.loc.Free? && (e.Begin? || e.WriteDelivery?)
    ensures Leads(s, run, r) && Bounded(r) && SameSetting(Do(s, e), r) && r.loc.Free?
    ensures WillClaim(Do(s, e)) ==> r.eip * r.eie < s.eip * s.eie
    ensures s.eip * s.eie == {} ==> !r.line
  {
    var m := Do(s, e);
    assert Bounded(m);
    var rest;
    rest, r := FinishScan(m);
    LeadsStep(s, e, rest, r);
    run := [e] + rest;
  }

  lemma {:induction false} ClaimAll(s: System) returns (run: seq<Event>, r: System)
    requires Bounded(s) && s.loc.Free? && s.delivery
    ensures Leads(s, run, r) && Bounded(r) && SameSetting(s, r) && r.loc.Free?
    ensures r.eip * r.eie == {} && !r.line
    decreases s.eip * s.eie
  {
    hide Leads, Bounded;
    var a, m := AccessAndScan(s, Begin(true));
    if s.eip * s.eie == {} {
      run, r := a, m;
      assert r.eip * r.eie <= s.eip * s.eie;
    } else {
      var b;
      b, r := ClaimAll(m);
      LeadsOn(s, a, m, b, r);
      run := a + b;
    }
  }

  // ------------------------------------------------------------ an enabling write that is not safe

  // A run without further enabling writes at the end of which `x` is lost
  ghost predicate Loses(s: System, run: seq<Event>, x: nat) {
    NoEieWrite(run) && CanAll(s, run) && Lost(DoAll(s, run), x)
  }

  /** Wherever a sender has read an enable bit as off that has since been set, the MSI can be lost: the other senders
      finish, the guest switches delivery on and claims all there is, and the sender's last step leaves its identity
      pending with the line down. */
  lemma StaleIsLost(s: System, t: nat) returns (run: seq<Event>)
    requires Bounded(s) && t < |s.senders|
    requires s.senders[t].Loaded? && !s.senders[t].enabled && s.senders[t].id in s.eie
    ensures Loses(s, run, s.senders[t].id)
  {
    hide Leads, Bounded, CanAll, DoAll;
    var r1, s1 := FinishScan(s);
    var r2, s2 := FinishOthers(s1, t, 0);
    LeadsOn(s, r1, s1, r2, s2);
    var r3, s3 := AccessAndScan(s2, WriteDelivery(true));
    LeadsOn(s, r1 + r2, s2, r3, s3);
    var r4, s4 := ClaimAll(s3);
    LeadsOn(s, r1 + r2 + r3, s3, r4, s4);
    var s5 := Do(s4, SetPending(t));
    LeadsNowhere(s5);
    LeadsStep(s4, SetPending(t), [], s5);
    run := r1 + r2 + r3 + r4 + ([SetPending(t)] + []);
    LeadsOn(s, r1 + r2 + r3 + r4, s4, [SetPending(t)] + [], s5);
    LeadsTo(s, run, s5);
  }

  lemma LeadsTo(s: System, run: seq<Event>, r: System)
    requires Leads(s, run, r)
    ensures NoEieWrite(run) && CanAll(s, run) && DoAll(s, run) == r
  {
  }

  /** The guard is exact: an enabling write can be followed by the loss of an MSI if and only if it is not safe. */
  lemma LossIffUnsafe(s: System, eie: set<nat>)
    requires Inv(s) && s.loc.Free?
    ensures (exists run: seq<Event>, x: nat :: Loses(Do(s, WriteEie(eie)), run, x)) <==> !Safe(s, WriteEie(eie))
  {
    hide CanAll, DoAll, Lost, NoEieWrite, Covered;
    var w := Do(s, WriteEie(eie));
    if !Safe(s, WriteEie(eie)) {
      var t :| 0 <= t < |s.senders| && s.senders[t].Loaded? && !s.senders[t].enabled && s.senders[t].id in eie;
      var run := StaleIsLost(w, t);
      assert Loses(w, run, w.senders[t].id);
    } else {
      StepKeepsInv(s, WriteEie(eie));
      forall run: seq<Event>, x: nat ensures !Loses(w, run, x) {
        if NoEieWrite(run) && CanAll(w, run) {
          NoWriteIsSafe(w, run);
          NoMsiLost(w, run, x);
        }
      }
    }
  }

  lemma {:induction false} NoWriteIsSafe(s: System, run: seq<Event>)
    requires CanAll(s, run) && NoEieWrite(run)
    ensures AllSafe(s, run)
    decreases |run|
  {
    if |run| > 0 {
      assert !run[0].WriteEie?;
      NoWriteIsSafe(Do(s, run[0]), run[1..]);
    }
  }
}
