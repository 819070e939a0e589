/**
 * Any number of harts walking one set of page tables concurrently, each with its own TLB.
 *
 * A walk is a sequence of atomic actions (read an entry, compare-and-swap its A and D bits, fill
 * the TLB) interleaved arbitrarily with the other harts. Stores may change any word that no walk
 * can reach. A hart may change its own root, mode, SUM and MXR together with a flush of its own TLB;
 * table words change only together with a flush of every TLB. MPRV and debugger accesses are not
 * part of the runs.
 */
module TlbRun {
  import opened Options
  import opened PageTable
  import opened Tlb
  import opened Words

  datatype Walk =
    | Idle
    | AtTable(va: Word, acc: Access, table: nat, level: nat)
    | NeedCas(va: Word, acc: Access, table: nat, level: nat, slot: nat, seen: Word)
    | Found(va: Word, acc: Access, paddr: nat)

  datatype Hart = Hart(ctx: Context, tlb: Table, walk: Walk)

  datatype State = State(words: seq<Word>, harts: seq<Hart>)

  datatype Action =
    | Begin(va: Word, acc: Access)
    | ReadEntry
    | Cas
    | Fill
    | FlushAll
    | FlushPage(va: Word)
    | SwitchPriv(priv: nat)

  // riscv_mmu_translate up to the first page-table read
  function Start(c: Context, va: Word, acc: Access): Walk
    requires c.Valid()
  {
    if !c.Paged() then Found(va, acc, va)
    else if !Canonical(va, c.levels) then Idle
    else AtTable(va, acc, c.root, c.levels - 1)
  }

  // One read of a page-table entry and what the walk makes of it; Idle is a page fault
  function AfterRead(m: Machine, words: seq<Word>, c: Context, k: Walk): Walk
    requires k.AtTable? && k.level < 5 && 8 * |words| == m.size
  {
    match Slot(m, k.table, k.level, k.va)
    case None => Idle
    case Some(slot) =>
      var p := words[slot];
      if !Valid(p) then Idle
      else if IsLeaf(p) then
        if !Permitted(p, c.priv, c.sum, AccessMask(k.acc, c.mxr)) || !AlignedLeaf(p, k.level) then Idle
        else if p != WithAD(p, k.acc == Write) then NeedCas(k.va, k.acc, k.table, k.level, slot, p)
        else Found(k.va, k.acc, Frame(p) + k.va % Span(k.level))
      else if Writable(p) || k.level == 0 then Idle
      else AtTable(k.va, k.acc, Frame(p), k.level - 1)
  }

  // One hart's action: the new memory words and the new hart
  ghost predicate Acts(m: Machine, words: seq<Word>, h: Hart, a: Action, words': seq<Word>, h': Hart)
    requires h.ctx.Valid() && 8 * |words| == m.size
  {
    match a
    case Begin(va, acc) =>
      h.walk.Idle? && words' == words && h' == h.(walk := Start(h.ctx, va, acc))
    case ReadEntry =>
      h.walk.AtTable? && h.walk.level < 5 && words' == words && h' == h.(walk := AfterRead(m, words, h.ctx, h.walk))
    case Cas =>
      && h.walk.NeedCas? && h.walk.slot < |words| && h.walk.level < 5
      && var k := h.walk;
         if words[k.slot] == k.seen then
           && words' == words[k.slot := WithAD(k.seen, k.acc == Write)]
           && h' == h.(walk := Found(k.va, k.acc, Frame(k.seen) + k.va % Span(k.level)))
         else
           words' == words && h' == h.(walk := AtTable(k.va, k.acc, k.table, k.level))
    case Fill =>
      && h.walk.Found? && words' == words
      && h' == Hart(h.ctx,
                    if m.InRam(h.walk.paddr) then Put(h.tlb, h.walk.va, m.HostPtr(h.walk.paddr), h.walk.acc) else h.tlb,
                    Idle)
    case FlushAll => h.walk.Idle? && words' == words && h' == h.(tlb := Flushed())
    case FlushPage(va) => h.walk.Idle? && words' == words && h' == h.(tlb := PageFlushed(h.tlb, va))
    case SwitchPriv(priv) =>
      && h.walk.Idle? && words' == words
      && h' == if h.ctx.priv == priv then h else Hart(h.ctx.(priv := priv), Flushed(), Idle)
  }

  // The words that a walk for `va` reads
  function RootPath(m: Machine, words: seq<Word>, c: Context, va: Word): set<nat>
    requires c.Valid() && 8 * |words| == m.size
  {
    if c.levels > 0 then Path(m, words, c.root, c.levels - 1, va) else {}
  }

  // No walk of a hart, at any privilege, reads the word
  ghost predicate Unreachable(m: Machine, words: seq<Word>, c: Context, slot: nat)
    requires c.Valid() && 8 * |words| == m.size
  {
    forall va: Word :: slot !in RootPath(m, words, c, va)
  }

  ghost predicate Wellformed(m: Machine, s: State) {
    m.Valid() && 8 * |s.words| == m.size && forall i :: 0 <= i < |s.harts| ==> s.harts[i].ctx.Valid()
  }

  ghost predicate HartStep(m: Machine, s: State, s': State, i: nat, a: Action)
    requires Wellformed(m, s)
  {
    && i < |s.harts| && |s'.harts| == |s.harts|
    && Acts(m, s.words, s.harts[i], a, s'.words, s'.harts[i])
    && forall j :: 0 <= j < |s.harts| && j != i ==> s'.harts[j] == s.harts[j]
  }

  ghost predicate StoreStep(m: Machine, s: State, s': State, slot: nat, val: Word)
    requires Wellformed(m, s)
  {
    && slot < |s.words|
    && (forall i :: 0 <= i < |s.harts| ==> Unreachable(m, s.words, s.harts[i].ctx, slot))
    && s' == State(s.words[slot := val], s.harts)
  }

  // The guest rewrites page tables, roots, modes, SUM or MXR and fences every hart
  ghost predicate RemapStep(m: Machine, s: State, s': State) {
    && Wellformed(m, s') && |s'.harts| == |s.harts|
    && forall i :: 0 <= i < |s'.harts| ==> s'.harts[i].tlb == Flushed() && s'.harts[i].walk.Idle?
  }

  ghost predicate QuietStep(m: Machine, s: State, s': State)
    requires Wellformed(m, s)
  {
    || (exists i: nat, a: Action :: HartStep(m, s, s', i, a))
    || (exists slot: nat, val: Word :: StoreStep(m, s, s', slot, val))
  }

  // One hart changes its own root, mode, SUM or MXR and flushes its own TLB
  ghost predicate RebaseStep(m: Machine, s: State, s': State, i: nat) {
    && i < |s.harts| && s'.words == s.words && |s'.harts| == |s.harts|
    && s.harts[i].walk.Idle? && s'.harts[i].ctx.Valid() && s'.harts[i] == Hart(s'.harts[i].ctx, Flushed(), Idle)
    && forall j :: 0 <= j < |s.harts| && j != i ==> s'.harts[j] == s.harts[j]
  }

  ghost predicate Step(m: Machine, s: State, s': State)
    requires Wellformed(m, s)
  {
    QuietStep(m, s, s') || RemapStep(m, s, s') || exists i: nat :: RebaseStep(m, s, s', i)
  }

  // ------------------------------------------------------------ the invariant

  ghost predicate LeafAccessed(m: Machine, words: seq<Word>, c: Context, va: Word)
    requires c.Valid() && 8 * |words| == m.size
  {
    c.Paged() ==> LeafOf(m, words, c, va).Some? && Accessed(words[LeafOf(m, words, c, va).value.slot])
  }

  ghost predicate LeafDirty(m: Machine, words: seq<Word>, c: Context, va: Word)
    requires c.Valid() && 8 * |words| == m.size
  {
    c.Paged() ==> LeafOf(m, words, c, va).Some? && Dirty(words[LeafOf(m, words, c, va).value.slot])
  }

  // A fresh walk for `acc` succeeds in RAM at the host address `ptr`, with its A and D bits in place
  ghost predicate Backed(m: Machine, words: seq<Word>, c: Context, va: Word, acc: Access, ptr: Word)
    requires c.Valid() && 8 * |words| == m.size
  {
    var t := Translate(m, words, c, va, acc);
    && t.Some? && m.InRam(t.value) && ptr == Wrap(m.HostPtr(t.value))
    && LeafAccessed(m, words, c, va) && (acc == Write ==> LeafDirty(m, words, c, va))
  }

  // A hit agrees with a fresh walk. A read may have been enabled by a write fill, in which case
  // it is the write walk that it agrees with.
  ghost predicate HitAgrees(m: Machine, words: seq<Word>, c: Context, t: Table, va: Word, acc: Access)
    requires c.Valid() && 8 * |words| == m.size
  {
    Hit(t, va, acc) ==>
      || Backed(m, words, c, va, acc, HitPtr(t, va))
      || (acc == Read && Backed(m, words, c, va, Write, HitPtr(t, va)))
  }

  ghost predicate TlbAgrees(m: Machine, words: seq<Word>, c: Context, t: Table)
    requires c.Valid() && 8 * |words| == m.size
  {
    forall va: Word, acc: Access :: HitAgrees(m, words, c, t, va, acc)
  }

  // The walk has reached a table from which the lookup continues as it does from the root
  ghost predicate OnTrack(m: Machine, words: seq<Word>, c: Context, va: Word, table: nat, level: nat)
    requires c.Valid() && 8 * |words| == m.size
  {
    && c.Paged() && Canonical(va, c.levels) && level < c.levels
    && Lookup(m, words, table, level, va) == Lookup(m, words, c.root, c.levels - 1, va)
    && Path(m, words, table, level, va) <= Path(m, words, c.root, c.levels - 1, va)
  }

  ghost predicate WalkOk(m: Machine, words: seq<Word>, c: Context, k: Walk)
    requires c.Valid() && 8 * |words| == m.size
  {
    match k
    case Idle => true
    case AtTable(va, acc, table, level) => OnTrack(m, words, c, va, table, level)
    case NeedCas(va, acc, table, level, slot, seen) =>
      && OnTrack(m, words, c, va, table, level)
      && Slot(m, table, level, va) == Some(slot) && slot < |words|
      && Frozen(words[slot]) == Frozen(seen) && Valid(seen) && IsLeaf(seen)
      && Permitted(seen, c.priv, c.sum, AccessMask(acc, c.mxr)) && AlignedLeaf(seen, level)
    case Found(va, acc, paddr) =>
      && Translate(m, words, c, va, acc) == Some(paddr)
      && LeafAccessed(m, words, c, va) && (acc == Write ==> LeafDirty(m, words, c, va))
  }

  ghost predicate HartOk(m: Machine, words: seq<Word>, h: Hart)
    requires h.ctx.Valid() && 8 * |words| == m.size
  {
    TlbAgrees(m, words, h.ctx, h.tlb) && WalkOk(m, words, h.ctx, h.walk)
  }

  ghost predicate Inv(m: Machine, s: State) {
    Wellformed(m, s) && forall i :: 0 <= i < |s.harts| ==> HartOk(m, s.words, s.harts[i])
  }

  // ------------------------------------------------------------ what other harts may do to a hart

  // Along every path of the context only A and D bits change, and none of them is cleared
  ghost predicate Calm(m: Machine, words: seq<Word>, words': seq<Word>, c: Context)
    requires c.Valid() && 8 * |words| == m.size
  {
    && |words'| == |words|
    && forall va: Word, s: nat :: s in RootPath(m, words, c, va) ==> Kept(words, words', s)
  }

  ghost predicate Kept(words: seq<Word>, words': seq<Word>, s: nat) {
    && s < |words| == |words'|
    && Frozen(words[s]) == Frozen(words'[s])
    && (Accessed(words[s]) ==> Accessed(words'[s])) && (Dirty(words[s]) ==> Dirty(words'[s]))
  }

  lemma CalmLookup(m: Machine, words: seq<Word>, words': seq<Word>, c: Context, va: Word, table: nat, level: nat)
    requires c.Valid() && 8 * |words| == m.size && Calm(m, words, words', c)
    requires c.levels > 0 && level < 5
    requires Path(m, words, table, level, va) <= Path(m, words, c.root, c.levels - 1, va)
    ensures Lookup(m, words', table, level, va) == Lookup(m, words, table, level, va)
    ensures Path(m, words', table, level, va) == Path(m, words, table, level, va)
  {
    hide Path, Lookup, Frozen;
    forall s | s in Path(m, words, table, level, va) ensures s < |words| && Frozen(words[s]) == Frozen(words'[s]) {
      assert s in RootPath(m, words, c, va);
      assert Kept(words, words', s);
    }
    LookupSame(m, words, words', table, level, va);
  }

  /** A calm change of memory alters no translation and clears no A or D bit of a leaf. */
  lemma CalmTranslate(m: Machine, words: seq<Word>, words': seq<Word>, c: Context, va: Word, mask: Mask)
    requires c.Valid() && 8 * |words| == m.size && Calm(m, words, words', c)
    ensures TranslateMask(m, words', c, va, mask) == TranslateMask(m, words, c, va, mask)
    ensures LeafAccessed(m, words, c, va) ==> LeafAccessed(m, words', c, va)
    ensures LeafDirty(m, words, c, va) ==> LeafDirty(m, words', c, va)
  {
    hide Lookup, Path, Frozen, Frame, Span, Valid, Readable, Writable, Executable, User, Accessed, Dirty, Canonical;
    if c.Paged() {
      CalmLookup(m, words, words', c, va, c.root, c.levels - 1);
      var r := LeafOf(m, words, c, va);
      if r.Some? {
        LeafOnPath(m, words, c.root, c.levels - 1, va);
        assert r.value.slot in RootPath(m, words, c, va);
        assert Kept(words, words', r.value.slot);
        FrozenFields(words[r.value.slot], words'[r.value.slot]);
      }
    }
  }

  lemma CalmKeepsTlb(m: Machine, words: seq<Word>, words': seq<Word>, c: Context, t: Table)
    requires c.Valid() && 8 * |words| == m.size && Calm(m, words, words', c)
    requires TlbAgrees(m, words, c, t)
    ensures TlbAgrees(m, words', c, t)
  {
    forall va: Word, acc: Access
      ensures HitAgrees(m, words', c, t, va, acc)
    {
      assert HitAgrees(m, words, c, t, va, acc);
      CalmTranslate(m, words, words', c, va, AccessMask(acc, c.mxr));
      CalmTranslate(m, words, words', c, va, AccessMask(Write, c.mxr));
    }
  }

  lemma CalmKeepsWalk(m: Machine, words: seq<Word>, words': seq<Word>, c: Context, k: Walk)
    requires c.Valid() && 8 * |words| == m.size && Calm(m, words, words', c)
    requires WalkOk(m, words, c, k)
    ensures WalkOk(m, words', c, k)
  {
    match k
    case Idle =>
    case AtTable(va, acc, table, level) =>
      CalmLookup(m, words, words', c, va, table, level);
      CalmLookup(m, words, words', c, va, c.root, c.levels - 1);
    case NeedCas(va, acc, table, level, slot, seen) =>
      CalmLookup(m, words, words', c, va, table, level);
      CalmLookup(m, words, words', c, va, c.root, c.levels - 1);
      assert slot in Path(m, words, table, level, va);
      assert slot in RootPath(m, words, c, va);
      assert Kept(words, words', slot);
    case Found(va, acc, paddr) =>
      CalmTranslate(m, words, words', c, va, AccessMask(acc, c.mxr));
  }

  lemma CalmKeepsHart(m: Machine, words: seq<Word>, words': seq<Word>, h: Hart)
    requires h.ctx.Valid() && 8 * |words| == m.size && Calm(m, words, words', h.ctx)
    requires HartOk(m, words, h)
    ensures HartOk(m, words', h)
  {
    CalmKeepsTlb(m, words, words', h.ctx, h.tlb);
    CalmKeepsWalk(m, words, words', h.ctx, h.walk);
  }

  /** Setting A and D bits in any word is calm for every context. */
  lemma SettingBitsIsCalm(m: Machine, words: seq<Word>, c: Context, slot: nat, write: bool)
    requires c.Valid() && 8 * |words| == m.size && slot < |words|
    ensures Calm(m, words, words[slot := WithAD(words[slot], write)], c)
  {
    var words' := words[slot := WithAD(words[slot], write)];
    forall s: nat | s < |words|
      ensures Kept(words, words', s)
    {
    }
    forall va: Word, s: nat | s in RootPath(m, words, c, va)
      ensures Kept(words, words', s)
    {
      PathInRange(m, words, c.root, c.levels - 1, va, s);
    }
  }

  lemma {:induction false} PathInRange(m: Machine, words: seq<Word>, table: nat, level: nat, va: Word, s: nat)
    requires level < 5 && 8 * |words| == m.size
    requires s in Path(m, words, table, level, va)
    ensures s < |words|
    decreases level
  {
    var slot := Slot(m, table, level, va).value;
    if s != slot { PathInRange(m, words, Frame(words[slot]), level - 1, va, s); }
  }

  // ------------------------------------------------------------ a hart's own actions

  lemma StartOk(m: Machine, words: seq<Word>, c: Context, va: Word, acc: Access)
    requires c.Valid() && 8 * |words| == m.size
    ensures WalkOk(m, words, c, Start(c, va, acc))
  {
    hide Lookup, Path, Canonical, Span, Frame;
  }

  lemma AfterReadOk(m: Machine, words: seq<Word>, c: Context, k: Walk)
    requires c.Valid() && 8 * |words| == m.size
    requires k.AtTable? && k.level < 5 && WalkOk(m, words, c, k)
    ensures WalkOk(m, words, c, AfterRead(m, words, c, k))
  {
    hide Lookup, Path, Canonical, Span, Frame, Valid, Readable, Writable, Executable, User, WithAD, Frozen;
    hide LeafAccessed, LeafDirty, Translate, OnTrack, Permitted, AlignedLeaf;
    match Slot(m, k.table, k.level, k.va)
    case None =>
    case Some(slot) =>
      var p := words[slot];
      if Valid(p) && IsLeaf(p) {
        if Permitted(p, c.priv, c.sum, AccessMask(k.acc, c.mxr)) && AlignedLeaf(p, k.level) {
          if p == WithAD(p, k.acc == Write) { LeafIsFound(m, words, c, k, slot); }
        }
      } else if Valid(p) && !Writable(p) && k.level > 0 {
        NextOnTrack(m, words, c, k, slot);
      }
  }

  // The walk is at its leaf, whose A and D bits are in place
  lemma LeafIsFound(m: Machine, words: seq<Word>, c: Context, k: Walk, slot: nat)
    requires c.Valid() && 8 * |words| == m.size
    requires k.AtTable? && k.level < 5 && OnTrack(m, words, c, k.va, k.table, k.level)
    requires Slot(m, k.table, k.level, k.va) == Some(slot) && slot < |words|
    requires Valid(words[slot]) && IsLeaf(words[slot])
    requires Permitted(words[slot], c.priv, c.sum, AccessMask(k.acc, c.mxr)) && AlignedLeaf(words[slot], k.level)
    requires words[slot] == WithAD(words[slot], k.acc == Write)
    ensures WalkOk(m, words, c, Found(k.va, k.acc, Frame(words[slot]) + k.va % Span(k.level)))
  {
    hide Path, Canonical, Span, Frame, Valid, Readable, Writable, Executable, User, WithAD, Frozen, Permitted;
    assert LeafOf(m, words, c, k.va) == Some(Leaf(slot, k.level));
  }

  // The walk goes down a level
  lemma NextOnTrack(m: Machine, words: seq<Word>, c: Context, k: Walk, slot: nat)
    requires c.Valid() && 8 * |words| == m.size
    requires k.AtTable? && 0 < k.level < 5 && OnTrack(m, words, c, k.va, k.table, k.level)
    requires Slot(m, k.table, k.level, k.va) == Some(slot) && slot < |words|
    requires Valid(words[slot]) && !IsLeaf(words[slot]) && !Writable(words[slot])
    ensures OnTrack(m, words, c, k.va, Frame(words[slot]), k.level - 1)
  {
    hide Canonical, Span, Frame, Valid, Readable, Writable, Executable;
  }

  /** A successful compare-and-swap completes the walk; the word was exactly the one read. */
  lemma CasOk(m: Machine, words: seq<Word>, c: Context, k: Walk)
    requires c.Valid() && 8 * |words| == m.size
    requires k.NeedCas? && k.level < 5 && k.slot < |words| && WalkOk(m, words, c, k) && words[k.slot] == k.seen
    ensures var words' := words[k.slot := WithAD(k.seen, k.acc == Write)];
            WalkOk(m, words', c, Found(k.va, k.acc, Frame(k.seen) + k.va % Span(k.level)))
  {
    hide Path, Frozen, Frame, Span, Valid, Readable, Writable, Executable, User, Accessed, Dirty, Canonical, Slot;
    var words' := words[k.slot := WithAD(k.seen, k.acc == Write)];
    assert LeafOf(m, words, c, k.va) == Some(Leaf(k.slot, k.level));
    SettingBitsIsCalm(m, words, c, k.slot, k.acc == Write);
    CalmTranslate(m, words, words', c, k.va, AccessMask(k.acc, c.mxr));
    CalmLookup(m, words, words', c, k.va, c.root, c.levels - 1);
  }

  /** Filling the TLB from a completed walk keeps every hit right, also on the shared pointer. */
  lemma FillOk(m: Machine, words: seq<Word>, c: Context, t: Table, k: Walk)
    requires m.Valid() && c.Valid() && 8 * |words| == m.size
    requires k.Found? && WalkOk(m, words, c, k) && m.InRam(k.paddr) && TlbAgrees(m, words, c, t)
    ensures TlbAgrees(m, words, c, Put(t, k.va, m.HostPtr(k.paddr), k.acc))
  {
    hide Put, Wrap, WalkOk, Backed, Vpn;
    var u := Put(t, k.va, m.HostPtr(k.paddr), k.acc);
    forall vb: Word, acc: Access
      ensures HitAgrees(m, words, c, u, vb, acc)
    {
      PutHits(t, k.va, m.HostPtr(k.paddr), k.acc, vb, acc);
      assert HitAgrees(m, words, c, t, vb, acc);
      if Vpn(vb) == Vpn(k.va) {
        if Hit(u, vb, acc) { SamePageFill(m, words, c, t, k, vb, acc); }
      }
    }
  }

  lemma SamePageFill(m: Machine, words: seq<Word>, c: Context, t: Table, k: Walk, vb: Word, acc: Access)
    requires m.Valid() && c.Valid() && 8 * |words| == m.size
    requires k.Found? && WalkOk(m, words, c, k) && m.InRam(k.paddr) && Vpn(vb) == Vpn(k.va)
    requires HitAgrees(m, words, c, t, vb, acc)
    requires acc == k.acc || (k.acc == Write && acc == Read) || Hit(t, vb, acc)
    ensures var ptr := Wrap(m.HostPtr(k.paddr) - k.va + vb);
            Backed(m, words, c, vb, acc, ptr) || (acc == Read && Backed(m, words, c, vb, Write, ptr))
  {
    hide TranslateMask, Wrap, LeafAccessed, LeafDirty, WalkOk, Vpn;
    var ptr := Wrap(m.HostPtr(k.paddr) - k.va + vb);
    FilledPage(m, words, c, k, vb);
    if acc != k.acc && !(k.acc == Write && acc == Read) {
      var other := if Backed(m, words, c, vb, acc, HitPtr(t, vb)) then acc else Write;
      KeptAccess(m, words, c, vb, k.acc, other, ptr, HitPtr(t, vb));
    }
  }

  // The filled access, at any address of the page
  lemma FilledPage(m: Machine, words: seq<Word>, c: Context, k: Walk, vb: Word)
    requires m.Valid() && c.Valid() && 8 * |words| == m.size
    requires k.Found? && WalkOk(m, words, c, k) && m.InRam(k.paddr) && Vpn(vb) == Vpn(k.va)
    ensures Backed(m, words, c, vb, k.acc, Wrap(m.HostPtr(k.paddr) - k.va + vb))
  {
    hide Lookup, Canonical, Permitted, AlignedLeaf, Frame, Span, Accessed, Dirty;
    var mask := AccessMask(k.acc, c.mxr);
    PageToFrame(m, words, c, k.va, vb, mask);
    SameFrameInRam(m, k.paddr, k.va, vb, TranslateMask(m, words, c, vb, mask).value);
    if c.Paged() {
      SamePageCanonical(k.va, vb, c.levels);
      SamePageLookup(m, words, c.root, c.levels - 1, k.va, vb);
    }
  }

  // Another access of the page that was right before the fill is right at the new pointer
  lemma KeptAccess(m: Machine, words: seq<Word>, c: Context, vb: Word, acc: Access, other: Access, ptr: Word, was: Word)
    requires c.Valid() && 8 * |words| == m.size
    requires Backed(m, words, c, vb, acc, ptr) && Backed(m, words, c, vb, other, was)
    ensures Backed(m, words, c, vb, other, ptr)
  {
    hide TranslateMask, LeafAccessed, LeafDirty;
    FrameIndependentOfAccess(m, words, c, vb, AccessMask(acc, c.mxr), AccessMask(other, c.mxr));
  }

  lemma SameFrameInRam(m: Machine, paddr: nat, va: Word, vb: Word, p: nat)
    requires m.Valid() && m.InRam(paddr) && Vpn(va) == Vpn(vb)
    requires paddr % PAGE == va % PAGE && p - vb % PAGE == paddr - va % PAGE
    ensures m.InRam(p) && m.HostPtr(paddr) - va + vb == m.HostPtr(p)
  {
    assert va == Vpn(va) * PAGE + va % PAGE && vb == Vpn(vb) * PAGE + vb % PAGE;
  }

  lemma FlushOk(m: Machine, words: seq<Word>, c: Context)
    requires c.Valid() && 8 * |words| == m.size
    ensures TlbAgrees(m, words, c, Flushed())
  {
    forall va: Word, acc: Access ensures HitAgrees(m, words, c, Flushed(), va, acc) { FlushedMisses(va, acc); }
  }

  lemma FlushPageOk(m: Machine, words: seq<Word>, c: Context, t: Table, va: Word)
    requires c.Valid() && 8 * |words| == m.size && TlbAgrees(m, words, c, t)
    ensures TlbAgrees(m, words, c, PageFlushed(t, va))
  {
    forall vb: Word, acc: Access ensures HitAgrees(m, words, c, PageFlushed(t, va), vb, acc) {
      PageFlushedHits(t, va, vb, acc);
      assert HitAgrees(m, words, c, t, vb, acc);
    }
  }

  lemma ActOk(m: Machine, words: seq<Word>, h: Hart, a: Action, words': seq<Word>, h': Hart)
    requires m.Valid() && h.ctx.Valid() && 8 * |words| == m.size
    requires HartOk(m, words, h) && Acts(m, words, h, a, words', h')
    ensures h'.ctx.Valid() && |words'| == |words| && HartOk(m, words', h')
    ensures forall c: Context :: c.Valid() ==> Calm(m, words, words', c)
  {
    forall c: Context | c.Valid()
      ensures Calm(m, words, words', c)
    {
      if a.Cas? { SettingBitsIsCalm(m, words, c, h.walk.slot, h.walk.acc == Write); }
      NothingIsCalm(m, words, c);
    }
    match a
    case Begin(va, acc) => StartOk(m, words, h.ctx, va, acc);
    case ReadEntry => AfterReadOk(m, words, h.ctx, h.walk);
    case Cas =>
      CalmKeepsTlb(m, words, words', h.ctx, h.tlb);
      if words[h.walk.slot] == h.walk.seen { CasOk(m, words, h.ctx, h.walk); }
    case Fill =>
      if m.InRam(h.walk.paddr) { FillOk(m, words, h.ctx, h.tlb, h.walk); }
    case FlushAll => FlushOk(m, words, h.ctx);
    case FlushPage(va) => FlushPageOk(m, words, h.ctx, h.tlb, va);
    case SwitchPriv(priv) => FlushOk(m, words, h'.ctx);
  }

  lemma NothingIsCalm(m: Machine, words: seq<Word>, c: Context)
    requires c.Valid() && 8 * |words| == m.size
    ensures Calm(m, words, words, c)
  {
    forall va: Word, s: nat | s in RootPath(m, words, c, va) ensures Kept(words, words, s) {
      PathInRange(m, words, c.root, c.levels - 1, va, s);
    }
  }

  // ------------------------------------------------------------ whole runs

  lemma UnreachableIsCalm(m: Machine, words: seq<Word>, c: Context, slot: nat, val: Word)
    requires c.Valid() && 8 * |words| == m.size && slot < |words|
    requires Unreachable(m, words, c, slot)
    ensures Calm(m, words, words[slot := val], c)
  {
    var words' := words[slot := val];
    forall va: Word, s: nat | s in RootPath(m, words, c, va) ensures Kept(words, words', s) {
      PathInRange(m, words, c.root, c.levels - 1, va, s);
    }
  }

  /** Every step short of a remap is calm for every hart. */
  lemma QuietIsCalm(m: Machine, s: State, s': State, i: nat)
    requires Inv(m, s) && QuietStep(m, s, s') && i < |s.harts|
    ensures Calm(m, s.words, s'.words, s.harts[i].ctx)
  {
    if j: nat, a: Action :| HartStep(m, s, s', j, a) {
      ActOk(m, s.words, s.harts[j], a, s'.words, s'.harts[j]);
    } else {
      var slot: nat, val: Word :| StoreStep(m, s, s', slot, val);
      UnreachableIsCalm(m, s.words, s.harts[i].ctx, slot, val);
    }
  }

  /** Every step of every hart keeps every TLB and every walk in progress right. */
  lemma StepKeepsInv(m: Machine, s: State, s': State)
    requires Inv(m, s) && Step(m, s, s')
    ensures Inv(m, s')
  {
    if j: nat, a: Action :| HartStep(m, s, s', j, a) {
      ActOk(m, s.words, s.harts[j], a, s'.words, s'.harts[j]);
      forall i | 0 <= i < |s'.harts| ensures s'.harts[i].ctx.Valid() && HartOk(m, s'.words, s'.harts[i]) {
        if i != j { CalmKeepsHart(m, s.words, s'.words, s.harts[i]); }
      }
    } else if slot: nat, val: Word :| StoreStep(m, s, s', slot, val) {
      forall i | 0 <= i < |s'.harts| ensures HartOk(m, s'.words, s'.harts[i]) {
        UnreachableIsCalm(m, s.words, s.harts[i].ctx, slot, val);
        CalmKeepsHart(m, s.words, s'.words, s.harts[i]);
      }
    } else if i: nat :| RebaseStep(m, s, s', i) {
      FlushOk(m, s.words, s'.harts[i].ctx);
    } else {
      FlushedStart(m, s');
    }
  }

  /** A machine whose harts are idle with flushed TLBs satisfies the invariant. */
  lemma FlushedStart(m: Machine, s: State)
    requires Wellformed(m, s)
    requires forall i :: 0 <= i < |s.harts| ==> s.harts[i].tlb == Flushed() && s.harts[i].walk.Idle?
    ensures Inv(m, s)
  {
    forall i | 0 <= i < |s.harts| ensures HartOk(m, s.words, s.harts[i]) { FlushOk(m, s.words, s.harts[i].ctx); }
  }

  // A run starts with flushed TLBs and takes any steps
  ghost predicate Run(m: Machine, run: seq<State>) {
    && |run| > 0 && Wellformed(m, run[0])
    && (forall i :: 0 <= i < |run[0].harts| ==> run[0].harts[i].tlb == Flushed() && run[0].harts[i].walk.Idle?)
    && forall n :: 0 <= n < |run| - 1 ==> Wellformed(m, run[n]) && Step(m, run[n], run[n + 1])
  }

  lemma {:induction false} RunKeepsInv(m: Machine, run: seq<State>, n: nat)
    requires Run(m, run) && n < |run|
    ensures Inv(m, run[n])
  {
    if n == 0 {
      FlushedStart(m, run[0]);
    } else {
      RunKeepsInv(m, run, n - 1);
      StepKeepsInv(m, run[n - 1], run[n - 1 + 1]);
    }
  }

  /** A completed walk to RAM leaves its page cached for the access it was made for, at that byte of the buffer. */
  lemma FillCaches(m: Machine, words: seq<Word>, h: Hart, words': seq<Word>, h': Hart)
    requires h.ctx.Valid() && 8 * |words| == m.size && Acts(m, words, h, Fill, words', h') && m.InRam(h.walk.paddr)
    ensures Hit(h'.tlb, h.walk.va, h.walk.acc) && m.PointsAt(h.walk.paddr, HitPtr(h'.tlb, h.walk.va))
  {
    hide Put, Hit, HitPtr, Machine.PointsAt, Machine.HostPtr;
    PutHits(h.tlb, h.walk.va, m.HostPtr(h.walk.paddr), h.walk.acc, h.walk.va, h.walk.acc);
    m.HostPtrPoints(h.walk.paddr);
  }

  // The entry that maps `va` lets reads through: it has R, or X while MXR is set
  predicate EntryReads(m: Machine, words: seq<Word>, c: Context, va: Word)
    requires c.Valid() && 8 * |words| == m.size
  {
    c.Paged() && LeafOf(m, words, c, va).Some? ==>
      var p := words[LeafOf(m, words, c, va).value.slot];
      Readable(p) || (c.mxr && Executable(p))
  }

  /** Where the write walk succeeds, the read walk succeeds if and only if the entry lets reads through. */
  lemma ReadAfterWrite(m: Machine, words: seq<Word>, c: Context, va: Word)
    requires c.Valid() && 8 * |words| == m.size && Translate(m, words, c, va, Write).Some?
    ensures Translate(m, words, c, va, Read).Some? <==> EntryReads(m, words, c, va)
    ensures EntryReads(m, words, c, va) ==> Translate(m, words, c, va, Read) == Translate(m, words, c, va, Write)
  {
    hide Lookup, Canonical, Frame, Span, Readable, Writable, Executable, User;
  }

  lemma ReadNeedsEntry(m: Machine, words: seq<Word>, c: Context, va: Word)
    requires c.Valid() && 8 * |words| == m.size && Translate(m, words, c, va, Read).Some?
    ensures EntryReads(m, words, c, va)
  {
    hide Lookup, Canonical, Frame, Span, Readable, Writable, Executable, User;
  }

  /**
   * In every state of every run, a TLB hit gives exactly the host pointer and the permission that
   * a fresh walk would give, with A set, and D set behind a write hit. The one exception is a read
   * hit on an entry that does not let reads through: the TLB then serves the page of the write walk,
   * and the read walk refuses.
   */
  lemma HitIsFreshWalk(m: Machine, run: seq<State>, n: nat, i: nat, va: Word, acc: Access)
    requires Run(m, run) && n < |run| && i < |run[n].harts|
    requires Wellformed(m, run[n]) && Hit(run[n].harts[i].tlb, va, acc)
    ensures var words, c, ptr := run[n].words, run[n].harts[i].ctx, HitPtr(run[n].harts[i].tlb, va);
            if acc != Read || EntryReads(m, words, c, va) then
              && Backed(m, words, c, va, acc, ptr)
              && m.PointsAt(Translate(m, words, c, va, acc).value, ptr)
            else
              && Backed(m, words, c, va, Write, ptr) && Translate(m, words, c, va, Read).None?
              && m.PointsAt(Translate(m, words, c, va, Write).value, ptr)
  {
    hide Run, Step, HartOk, EntryReads, Machine.PointsAt, Machine.HostPtr;
    RunKeepsInv(m, run, n);
    var words, h := run[n].words, run[n].harts[i];
    HartAgrees(m, words, h, va, acc);
    HitMeaning(m, words, h.ctx, h.tlb, va, acc);
    var t := Translate(m, words, h.ctx, va, if acc != Read || EntryReads(m, words, h.ctx, va) then acc else Write);
    m.HostPtrPoints(t.value);
  }

  lemma HartAgrees(m: Machine, words: seq<Word>, h: Hart, va: Word, acc: Access)
    requires h.ctx.Valid() && 8 * |words| == m.size && HartOk(m, words, h)
    ensures HitAgrees(m, words, h.ctx, h.tlb, va, acc)
  {
  }

  // What a hit that agrees with memory is worth
  lemma HitMeaning(m: Machine, words: seq<Word>, c: Context, t: Table, va: Word, acc: Access)
    requires c.Valid() && 8 * |words| == m.size && Hit(t, va, acc) && HitAgrees(m, words, c, t, va, acc)
    ensures var ptr := HitPtr(t, va);
            if acc != Read || EntryReads(m, words, c, va) then Backed(m, words, c, va, acc, ptr)
            else Backed(m, words, c, va, Write, ptr) && Translate(m, words, c, va, Read).None?
  {
    hide EntryReads, TranslateMask, LeafAccessed, LeafDirty;
    if acc == Read {
      if Translate(m, words, c, va, Write).Some? { ReadAfterWrite(m, words, c, va); }
      if Translate(m, words, c, va, Read).Some? { ReadNeedsEntry(m, words, c, va); }
    }
  }

  /**
   * That exception is exact: a write fill makes the page hit for reads, and the hit is one that a
   * fresh read walk would give if and only if the entry has R, or X while MXR is set.
   */
  lemma WriteFillReads(m: Machine, words: seq<Word>, c: Context, t: Table, va: Word, paddr: nat)
    requires m.Valid() && c.Valid() && 8 * |words| == m.size && m.InRam(paddr)
    requires WalkOk(m, words, c, Found(va, Write, paddr))
    ensures var u := Put(t, va, m.HostPtr(paddr), Write);
            Hit(u, va, Read) &&
            (Backed(m, words, c, va, Read, HitPtr(u, va)) <==> EntryReads(m, words, c, va))
  {
    hide EntryReads, TranslateMask, LeafAccessed, LeafDirty;
    PutHits(t, va, m.HostPtr(paddr), Write, va, Read);
    ReadAfterWrite(m, words, c, va);
  }

  /** A page whose entry has W and X but not R, a reserved encoding, shows the difference: after a write the TLB serves
      reads that a walk refuses. */
  lemma ReservedEntryReads()
    ensures var m, c := Machine(0, PAGE, 0), Context(0, 3, S, false, false);
            var words := ReservedTable();
            && m.Valid() && c.Valid() && 8 * |words| == m.size
            && WalkOk(m, words, c, Found(0, Write, 0)) && m.InRam(0)
            && Hit(Put(Flushed(), 0, m.HostPtr(0), Write), 0, Read)
            && Translate(m, words, c, 0, Read).None?
  {
    hide Put, Flushed, Lookup, Canonical, Valid, Readable, Writable, Executable, User, Accessed, Dirty, Frame, Span;
    var m, c := Machine(0, PAGE, 0), Context(0, 3, S, false, false);
    var words := ReservedTable();
    ReservedLookup(m, words);
    PutHits(Flushed(), 0, m.HostPtr(0), Write, 0, Read);
    assert Vpn(0) == 0;
  }

  lemma ReservedLookup(m: Machine, words: seq<Word>)
    requires m == Machine(0, PAGE, 0) && words == ReservedTable()
    ensures Lookup(m, words, 0, 2, 0) == Some(Leaf(0, 2)) && Canonical(0, 3)
    ensures var p: Word := 0xCD;
            && Valid(p) && !Readable(p) && Writable(p) && Executable(p) && !User(p) && Accessed(p) && Dirty(p)
            && Frame(p) == 0 && AlignedLeaf(p, 2) && 0 % Span(2) == 0
  {
    hide ReservedTable, Path;
    assert Slot(m, 0, 2, 0) == Some(0);
  }

  // One page table whose first entry maps memory with V, W, X, A and D set
  function ReservedTable(): (words: seq<Word>)
    ensures |words| == 512 && words[0] == 0xCD
  {
    seq(512, i => if i == 0 then 0xCD else 0)
  }

  // The same tables: a context that differs at most in privilege, SUM and MXR
  predicate SameTables(c: Context, d: Context) { c.root == d.root && c.levels == d.levels }

  // Consecutive steps without a remap
  ghost predicate QuietRun(m: Machine, run: seq<State>) {
    && |run| > 0 && Inv(m, run[0])
    && forall n :: 0 <= n < |run| - 1 ==> Wellformed(m, run[n]) && QuietStep(m, run[n], run[n + 1])
  }

  lemma QuietKeepsTables(m: Machine, s: State, s': State, i: nat, c: Context)
    requires Inv(m, s) && QuietStep(m, s, s') && i < |s.harts|
    requires c.Valid() && SameTables(c, s.harts[i].ctx)
    ensures i < |s'.harts| && SameTables(c, s'.harts[i].ctx)
    ensures Calm(m, s.words, s'.words, c)
  {
    QuietIsCalm(m, s, s', i);
    var d := s.harts[i].ctx;
    forall va: Word, slot: nat | slot in RootPath(m, s.words, c, va) ensures Kept(s.words, s'.words, slot) {
      assert slot in RootPath(m, s.words, d, va);
    }
  }

  /**
   * However the harts interleave, between remaps no translation of any address at any privilege
   * changes, and no A or D bit of a mapped page is lost.
   */
  lemma {:induction false} TranslationStable(m: Machine, run: seq<State>, n: nat, i: nat, c: Context, va: Word,
                                             mask: Mask)
    requires QuietRun(m, run) && n < |run| && i < |run[0].harts|
    requires c.Valid() && SameTables(c, run[0].harts[i].ctx)
    ensures Inv(m, run[n]) && i < |run[n].harts| && SameTables(c, run[n].harts[i].ctx)
    ensures TranslateMask(m, run[n].words, c, va, mask) == TranslateMask(m, run[0].words, c, va, mask)
    ensures LeafAccessed(m, run[0].words, c, va) ==> LeafAccessed(m, run[n].words, c, va)
    ensures LeafDirty(m, run[0].words, c, va) ==> LeafDirty(m, run[n].words, c, va)
  {
    if n > 0 {
      TranslationStable(m, run, n - 1, i, c, va, mask);
      var s, s' := run[n - 1], run[n - 1 + 1];
      StepKeepsInv(m, s, s');
      QuietKeepsTables(m, s, s', i, c);
      CalmTranslate(m, s.words, s'.words, c, va, mask);
    }
  }
}
