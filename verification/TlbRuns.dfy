/** Whole runs with a TLB: accesses, CR3 loads, mode changes, table edits and invalidations. */
module TlbRuns {
  import opened MemoryBus
  import opened Results
  import opened Paging
  import opened PageTableWalker
  import opened Tlb
  import opened Mmu
  import opened TlbInvisibility

  // ---------- Edits of the tables ----------

  /** An edit leaves what the tables say about an address, and its accessed and dirty marks, as they were. */
  ghost predicate TraceKept(before: Memory, after: Memory, xd: bool, root: nat, va: Qword)
  {
    var walked := Walk(before, xd, root, va, PML4, TABLE_PERMISSIONS);
    && Walk(after, xd, root, va, PML4, TABLE_PERMISSIONS) == walked
    && (PathAccessed(before, xd, root, va, PML4) ==> PathAccessed(after, xd, root, va, PML4))
    && (LeafDirty(walked, before) ==> LeafDirty(walked, after))
  }

  lemma UntouchedStaysFaithful(x: Translation, before: Memory, after: Memory, xd: bool, root: nat)
    requires Faithful(x, before, xd, root)
    requires forall va: Qword :: x.Covers(va) ==> TraceKept(before, after, xd, root, va)
    ensures Faithful(x, after, xd, root)
  {
    hide Walk, PathAccessed, LeafDirty, IsCanonical, PageBase, Level.Span;
    forall va: Qword | x.Covers(va)
      ensures IsCanonical(va) && Shows(x, after, xd, root, va)
    {
      assert Shows(x, before, xd, root, va) && TraceKept(before, after, xd, root, va);
    }
  }

  /** The invalidation reaches every current entry whose translation the edit may have changed. */
  ghost predicate Reaches(m: MmuState, after: Memory, ps: PagingState, roots: map<nat, Qword>, which: Invalidation)
  {
    forall i: nat, va: Qword ::
      && 0 <= i < SLOTS && m.entries[i].valid && m.entries[i].generation == ps.generation && m.entries[i].pcid in roots
      && m.entries[i].translation.Covers(va) && !which.Hits(m.entries[i])
      ==> TraceKept(m.mem, after, ps.executeDisable, roots[m.entries[i].pcid], va)
  }

  lemma EditThenInvalidate(m: MmuState, after: Memory, ps: PagingState, roots: map<nat, Qword>, which: Invalidation)
    requires Coherent(m, ps, roots) && Reaches(m, after, ps, roots, which)
    ensures Coherent(MmuState(Invalidate(m.entries, which), after), ps, roots)
  {
    hide Faithful, TraceKept;
    var entries := Invalidate(m.entries, which);
    forall i | 0 <= i < SLOTS && entries[i].valid && entries[i].generation == ps.generation
      ensures entries[i].pcid in roots
              && Faithful(entries[i].translation, after, ps.executeDisable, roots[entries[i].pcid])
    {
      assert entries[i] == m.entries[i] && !which.Hits(m.entries[i]);
      UntouchedStaysFaithful(m.entries[i].translation, m.mem, after, ps.executeDisable, roots[m.entries[i].pcid]);
    }
  }

  /** Of all canonical addresses, only those of one page of one context may be translated differently after the edit. */
  ghost predicate EditsOnlyPage(before: Memory, after: Memory, xd: bool, roots: map<nat, Qword>, pcid: nat, va: Qword, level: Level)
  {
    forall q: nat, other: Qword {:trigger TraceKept(before, after, xd, roots[q], other)} ::
      q in roots && IsCanonical(other) && !(q == pcid && PageBase(other, level) == PageBase(va, level)) ==>
        TraceKept(before, after, xd, roots[q], other)
  }

  lemma ElsewhereKept(before: Memory, after: Memory, xd: bool, roots: map<nat, Qword>, pcid: nat, va: Qword, level: Level,
                      q: nat, other: Qword)
    requires EditsOnlyPage(before, after, xd, roots, pcid, va, level)
    requires q in roots && IsCanonical(other) && !(q == pcid && PageBase(other, level) == PageBase(va, level))
    ensures TraceKept(before, after, xd, roots[q], other)
  {
    hide TraceKept, PageBase, IsCanonical;
  }

  /**
   Editing the leaf that maps a page and then invalidating any address of that page in its
   context reaches every entry that went stale, for every page size.
   */
  lemma LeafEditIsReached(m: MmuState, after: Memory, ps: PagingState, roots: map<nat, Qword>, pcid: nat, va: Qword)
    requires Coherent(m, ps, roots) && pcid in roots
    requires Walk(m.mem, ps.executeDisable, roots[pcid], va, PML4, TABLE_PERMISSIONS).Mapped?
    requires EditsOnlyPage(m.mem, after, ps.executeDisable, roots, pcid, va,
                           Walk(m.mem, ps.executeDisable, roots[pcid], va, PML4, TABLE_PERMISSIONS).leaf.level)
    ensures Reaches(m, after, ps, roots, Invalidation(Some(va), Some(pcid)))
  {
    hide Walk, TraceKept, Faithful, PageBase, Level.Span, EditsOnlyPage, IsCanonical;
    var which := Invalidation(Some(va), Some(pcid));
    var level := Walk(m.mem, ps.executeDisable, roots[pcid], va, PML4, TABLE_PERMISSIONS).leaf.level;
    forall i: nat, other: Qword |
      && 0 <= i < SLOTS && m.entries[i].valid && m.entries[i].generation == ps.generation && m.entries[i].pcid in roots
      && m.entries[i].translation.Covers(other) && !which.Hits(m.entries[i])
      ensures TraceKept(m.mem, after, ps.executeDisable, roots[m.entries[i].pcid], other)
    {
      var x, q := m.entries[i].translation, m.entries[i].pcid;
      if q == pcid && PageBase(other, level) == PageBase(va, level) {
        EntryOfPageCovers(x, m.mem, ps.executeDisable, roots[pcid], va, other);
        assert false;
      } else {
        HitShows(x, m.mem, ps.executeDisable, roots[q], other);
        ElsewhereKept(m.mem, after, ps.executeDisable, roots, pcid, va, level, q, other);
      }
    }
  }

  lemma EntryOfPageCovers(x: Translation, mem: Memory, xd: bool, root: nat, va: Qword, other: Qword)
    requires Faithful(x, mem, xd, root) && x.Covers(other)
    requires Walk(mem, xd, root, va, PML4, TABLE_PERMISSIONS).Mapped?
    requires var level := Walk(mem, xd, root, va, PML4, TABLE_PERMISSIONS).leaf.level; PageBase(other, level) == PageBase(va, level)
    ensures x.Covers(va)
  {
    hide Walk, PathAccessed, PageBase, IsCanonical, LeafDirty;
    assert Shows(x, mem, xd, root, other);
    WalkSamePage(mem, xd, root, va, other, PML4, TABLE_PERMISSIONS);
    PageHoldsAddress(va, Walk(mem, xd, root, va, PML4, TABLE_PERMISSIONS).leaf.level);
  }

  /** Mapping pages that were absent needs no invalidation: the TLB never holds an absent page. */
  lemma AbsentPagesNeedNoInvalidation(m: MmuState, after: Memory, ps: PagingState, roots: map<nat, Qword>)
    requires Coherent(m, ps, roots)
    requires forall q: nat, va: Qword {:trigger TraceKept(m.mem, after, ps.executeDisable, roots[q], va)} ::
               q in roots && Walk(m.mem, ps.executeDisable, roots[q], va, PML4, TABLE_PERMISSIONS).Mapped? ==>
               TraceKept(m.mem, after, ps.executeDisable, roots[q], va)
    ensures Coherent(MmuState(m.entries, after), ps, roots)
  {
    hide Walk, TraceKept, PathAccessed, LeafDirty, PageBase;
    forall i | 0 <= i < SLOTS && m.entries[i].valid && m.entries[i].generation == ps.generation
      ensures Faithful(m.entries[i].translation, after, ps.executeDisable, roots[m.entries[i].pcid])
    {
      var x := m.entries[i].translation;
      var root := roots[m.entries[i].pcid];
      forall va: Qword | x.Covers(va) ensures TraceKept(m.mem, after, ps.executeDisable, root, va) {
        assert Shows(x, m.mem, ps.executeDisable, root, va);
      }
      UntouchedStaysFaithful(x, m.mem, after, ps.executeDisable, root);
    }
  }

  // ---------- Runs ----------

  datatype Event =
    | Translation(privilege: Privilege, va: Qword, kind: AccessKind)
    | Cr3(root: Qword, pcid: nat, mode: FlushMode)
    | Mode(change: ControlChange)
    | Invalidating(which: Invalidation)
    | Edit(after: Memory, which: Invalidation)

  function TlbStep(m: MmuState, ps: PagingState, e: Event): (MmuState, PagingState, Option<Access>)
  {
    match e
    case Translation(privilege, va, kind) =>
      var (m', access) := TranslateEnabled(m, ps, privilege, va, kind); (m', ps, Some(access))
    case Cr3(root, pcid, mode) =>
      var r := LoadCr3(ps, root, pcid, mode); (m, if r.Ok? then r.value else ps, None)
    case Mode(change) => (m, Control(ps, change), None)
    case Invalidating(which) => (m.(entries := Invalidate(m.entries, which)), ps, None)
    case Edit(after, which) => (MmuState(Invalidate(m.entries, which), after), ps, None)
  }

  /** The same machine without a TLB: every access walks. */
  function FlatStep(mem: Memory, ps: PagingState, e: Event): (Memory, PagingState, Option<Access>)
  {
    match e
    case Translation(privilege, va, kind) =>
      var (mem', outcome) := Translate(mem, ps, va, kind, privilege); (mem', ps, Some(AccessFrom(outcome, va)))
    case Cr3(root, pcid, mode) =>
      var r := LoadCr3(ps, root, pcid, mode); (mem, if r.Ok? then r.value else ps, None)
    case Mode(change) => (mem, Control(ps, change), None)
    case Invalidating(_) => (mem, ps, None)
    case Edit(after, _) => (after, ps, None)
  }

  /** The root each context is bound to; a new generation forgets all bindings but the current one. */
  function Rebind(ps: PagingState, roots: map<nat, Qword>, ps': PagingState): map<nat, Qword>
  {
    if ps'.generation == ps.generation then roots[ps'.pcid := ps'.cr3] else map[ps'.pcid := ps'.cr3]
  }

  /** What software must respect: one root per context and generation, and edits followed by a sufficient invalidation. */
  ghost predicate Disciplined(m: MmuState, ps: PagingState, roots: map<nat, Qword>, e: Event)
  {
    match e
    case Cr3(root, pcid, mode) =>
      LoadCr3(ps, root, pcid, mode).Ok? && mode.PRESERVE_CONTEXT? && pcid in roots ==> roots[pcid] == root
    case Edit(after, which) => Reaches(m, after, ps, roots, which)
    case _ => true
  }

  ghost predicate DisciplinedRun(m: MmuState, ps: PagingState, roots: map<nat, Qword>, events: seq<Event>)
    decreases |events|
  {
    events == [] ||
    (&& Disciplined(m, ps, roots, events[0])
     && var (m', ps', _) := TlbStep(m, ps, events[0]);
        DisciplinedRun(m', ps', Rebind(ps, roots, ps'), events[1..]))
  }

  function TlbRun(m: MmuState, ps: PagingState, events: seq<Event>): (Memory, seq<Option<Access>>)
    decreases |events|
  {
    if events == [] then (m.mem, [])
    else
      var (m', ps', seen) := TlbStep(m, ps, events[0]);
      var (mem, rest) := TlbRun(m', ps', events[1..]);
      (mem, [seen] + rest)
  }

  function FlatRun(mem: Memory, ps: PagingState, events: seq<Event>): (Memory, seq<Option<Access>>)
    decreases |events|
  {
    if events == [] then (mem, [])
    else
      var (mem', ps', seen) := FlatStep(mem, ps, events[0]);
      var (mem'', rest) := FlatRun(mem', ps', events[1..]);
      (mem'', [seen] + rest)
  }

  lemma NewGenerationIsCoherent(m: MmuState, ps: PagingState, roots: map<nat, Qword>, ps': PagingState)
    requires Coherent(m, ps, roots) && ps'.generation > ps.generation && ps'.cr3 % PAGE_4K == 0
    ensures Coherent(m, ps', map[ps'.pcid := ps'.cr3])
  {
    hide Faithful;
  }

  lemma StepKeepsCoherence(m: MmuState, ps: PagingState, roots: map<nat, Qword>, e: Event)
    requires Coherent(m, ps, roots) && Disciplined(m, ps, roots, e)
    ensures var (m', ps', seen) := TlbStep(m, ps, e);
            var (mem', flat', flatSeen) := FlatStep(m.mem, ps, e);
            m'.mem == mem' && ps' == flat' && seen == flatSeen && Coherent(m', ps', Rebind(ps, roots, ps'))
  {
    match e
    case Translation(privilege, va, kind) =>
      hide TranslateEnabled, Translate, AccessFrom, Faithful;
      TlbIsInvisible(m, ps, roots, privilege, va, kind);
      assert roots[ps.pcid := ps.cr3] == roots;
    case Cr3(root, pcid, mode) =>
      hide Faithful;
      var r := LoadCr3(ps, root, pcid, mode);
      if r.Ok? && mode.FLUSH_CURRENT_CONTEXT? {
        NewGenerationIsCoherent(m, ps, roots, r.value);
      } else if r.Err? {
        assert roots[ps.pcid := ps.cr3] == roots;
      }
    case Mode(change) =>
      hide Faithful;
      var ps' := Control(ps, change);
      if ps' == ps {
        assert roots[ps.pcid := ps.cr3] == roots;
      } else {
        NewGenerationIsCoherent(m, ps, roots, ps');
      }
    case Invalidating(which) =>
      hide Faithful;
      assert roots[ps.pcid := ps.cr3] == roots;
    case Edit(after, which) =>
      hide Faithful, Reaches;
      EditThenInvalidate(m, after, ps, roots, which);
      assert roots[ps.pcid := ps.cr3] == roots;
  }

  /**
   Over every disciplined run, a machine with the TLB observes the same physical addresses and
   faults, and ends with the same memory, as a machine that walks the tables on every access.
   */
  lemma {:induction false} RunsAreTheSame(m: MmuState, ps: PagingState, roots: map<nat, Qword>, events: seq<Event>)
    requires Coherent(m, ps, roots) && DisciplinedRun(m, ps, roots, events)
    ensures TlbRun(m, ps, events) == FlatRun(m.mem, ps, events)
    decreases |events|
  {
    hide Coherent, Disciplined, TlbStep, FlatStep;
    if events != [] {
      StepKeepsCoherence(m, ps, roots, events[0]);
      var (m', ps', _) := TlbStep(m, ps, events[0]);
      RunsAreTheSame(m', ps', Rebind(ps, roots, ps'), events[1..]);
    }
  }

  /** An empty TLB is coherent, so the theorem covers every run from power-on. */
  lemma EmptyTlbIsCoherent(mem: Memory, ps: PagingState)
    requires ps.cr3 % PAGE_4K == 0
    ensures Coherent(MmuState(seq(SLOTS, _ => EMPTY_ENTRY), mem), ps, map[ps.pcid := ps.cr3])
  {
  }
}
