/** The shootdown controller: a queue of invalidation requests between cores, and its acknowledgements. */
module TlbShootdown {
  import opened Results
  import opened Paging
  import opened Tlb
  import opened Mmu

  /** A request for one core; a missing page address means the whole scope, a missing context means all contexts. */
  datatype Request = Request(sequence: nat, source: nat, target: nat, va: Option<Qword>, pcid: Option<nat>) {
    function Which(): Invalidation
    {
      Invalidation(va, pcid)
    }
  }

  datatype Controller = Controller(next: nat, pending: seq<Request>, acknowledged: seq<nat>)

  function Post(c: Controller, source: nat, target: nat, va: Option<Qword>, pcid: Option<nat>): Controller
  {
    c.(next := c.next + 1, pending := c.pending + [Request(c.next, source, target, va, pcid)])
  }

  /** Position of the first pending request for a core, or the length if there is none. */
  function FirstFor(pending: seq<Request>, core: nat): (i: nat)
    ensures i <= |pending|
    ensures i < |pending| ==> pending[i].target == core
    ensures forall j :: 0 <= j < i ==> pending[j].target != core
  {
    if pending == [] || pending[0].target == core then 0 else 1 + FirstFor(pending[1..], core)
  }

  function Take(c: Controller, core: nat): (Controller, Option<Request>)
  {
    var i := FirstFor(c.pending, core);
    if i == |c.pending| then (c, None)
    else (c.(pending := c.pending[..i] + c.pending[i + 1..]), Some(c.pending[i]))
  }

  function Acknowledge(c: Controller, sequence: nat): Controller
  {
    if sequence in c.acknowledged then c else c.(acknowledged := c.acknowledged + [sequence])
  }

  class TlbShootdownController {
    var next: nat
    var pending: seq<Request>
    var acknowledged: seq<nat>
    var acknowledgedSet: set<nat>

    ghost function State(): Controller
      reads this
    {
      Controller(next, pending, acknowledged)
    }

    ghost predicate Valid()
      reads this
    {
      acknowledgedSet == set s | s in acknowledged
    }

    constructor ()
      ensures Valid() && State() == Controller(1, [], [])
    {
      next, pending, acknowledged, acknowledgedSet := 1, [], [], {};
    }

    /** request_page and request_all. */
    method PostRequest(source: nat, target: nat, va: Option<Qword>, pcid: Option<nat>) returns (r: Request)
      requires Valid()
      modifies this
      ensures Valid() && State() == Post(old(State()), source, target, va, pcid)
      ensures r == Request(old(next), source, target, va, pcid)
    {
      r := Request(next, source, target, va, pcid);
      next := next + 1;
      pending := pending + [r];
    }

    method TakeNextFor(core: nat) returns (r: Option<Request>)
      requires Valid()
      modifies this
      ensures Valid() && (State(), r) == Take(old(State()), core)
    {
      for i := 0 to |pending|
        invariant forall j :: 0 <= j < i ==> pending[j].target != core
        invariant State() == old(State()) && Valid()
      {
        if pending[i].target == core {
          assert FirstFor(pending, core) == i;
          r := Some(pending[i]);
          pending := pending[..i] + pending[i + 1..];
          return;
        }
      }
      return None;
    }

    method AcknowledgeSequence(sequence: nat)
      requires Valid()
      modifies this
      ensures Valid() && State() == Acknowledge(old(State()), sequence)
    {
      if sequence !in acknowledgedSet {
        acknowledgedSet := acknowledgedSet + {sequence};
        acknowledged := acknowledged + [sequence];
      }
    }

    method Apply(mmu: MemoryManagementUnit, r: Request)
      requires Valid() && mmu.tlb.Valid()
      modifies this, mmu.tlb, mmu.tlb.entries
      ensures Valid() && mmu.tlb.Valid()
      ensures State() == Acknowledge(old(State()), r.sequence)
      ensures mmu.tlb.entries[..] == Invalidate(old(mmu.tlb.entries[..]), r.Which())
    {
      mmu.tlb.InvalidateEntries(r.Which());
      AcknowledgeSequence(r.sequence);
    }
  }
}

/** Many cores with their own TLBs over shared tables: no core keeps a stale entry without a pending request for it. */
module ShootdownProtocol {
  import opened MemoryBus
  import opened Results
  import opened Paging
  import opened PageTableWalker
  import opened Tlb
  import opened Mmu
  import opened TlbInvisibility
  import opened TlbRuns
  import opened TlbShootdown

  /** Shared memory and controller, one TLB per core, and the fixed binding of contexts to roots. */
  datatype System = System(mem: Memory, tlbs: seq<Entries>, controller: Controller, roots: map<nat, Qword>, xd: bool)

  datatype Step =
    | AccessStep(core: nat, ps: PagingState, privilege: Privilege, va: Qword, kind: AccessKind)
    | PageEdit(core: nat, after: Memory, pcid: nat, va: Qword)
    | ContextEdit(core: nat, after: Memory, pcid: nat)
    | AbsentEdit(after: Memory)
    | ApplyNext(core: nat)

  function PostToOthers(c: Controller, source: nat, count: nat, va: Option<Qword>, pcid: Option<nat>): Controller
  {
    if count == 0 then c
    else
      var c' := PostToOthers(c, source, count - 1, va, pcid);
      if count - 1 == source then c' else Post(c', source, count - 1, va, pcid)
  }

  ghost predicate Enabled(s: System, step: Step)
  {
    match step
    case AccessStep(core, ps, _, _, _) =>
      core < |s.tlbs| && ps.pcid in s.roots && s.roots[ps.pcid] == ps.cr3 && ps.executeDisable == s.xd
    case PageEdit(core, after, pcid, va) =>
      && core < |s.tlbs| && pcid in s.roots && |after| == |s.mem|
      && var walked := Walk(s.mem, s.xd, s.roots[pcid], va, PML4, TABLE_PERMISSIONS);
         walked.Mapped? && EditsOnlyPage(s.mem, after, s.xd, s.roots, pcid, va, walked.leaf.level)
    case ContextEdit(core, after, pcid) =>
      && core < |s.tlbs| && |after| == |s.mem|
      && forall q: nat, va: Qword {:trigger TraceKept(s.mem, after, s.xd, s.roots[q], va)} ::
           q in s.roots && q != pcid ==> TraceKept(s.mem, after, s.xd, s.roots[q], va)
    case AbsentEdit(after) =>
      && |after| == |s.mem|
      && forall q: nat, va: Qword {:trigger TraceKept(s.mem, after, s.xd, s.roots[q], va)} ::
           q in s.roots && Walk(s.mem, s.xd, s.roots[q], va, PML4, TABLE_PERMISSIONS).Mapped? ==>
             TraceKept(s.mem, after, s.xd, s.roots[q], va)
    case ApplyNext(core) => core < |s.tlbs|
  }

  function EditAndPost(s: System, core: nat, after: Memory, va: Option<Qword>, pcid: nat): System
    requires core < |s.tlbs|
  {
    s.(mem := after, tlbs := s.tlbs[core := Invalidate(s.tlbs[core], Invalidation(va, Some(pcid)))],
       controller := PostToOthers(s.controller, core, |s.tlbs|, va, Some(pcid)))
  }

  function Do(s: System, step: Step): System
    requires !step.AbsentEdit? ==> step.core < |s.tlbs|
  {
    match step
    case AccessStep(core, ps, privilege, va, kind) =>
      var m := TranslateEnabled(MmuState(s.tlbs[core], s.mem), ps, privilege, va, kind).0;
      s.(mem := m.mem, tlbs := s.tlbs[core := m.entries])
    case PageEdit(core, after, pcid, va) => EditAndPost(s, core, after, Some(va), pcid)
    case ContextEdit(core, after, pcid) => EditAndPost(s, core, after, None, pcid)
    case AbsentEdit(after) => s.(mem := after)
    case ApplyNext(core) =>
      match Take(s.controller, core)
      case (c, None) => s
      case (c, Some(r)) =>
        s.(tlbs := s.tlbs[core := Invalidate(s.tlbs[core], r.Which())], controller := Acknowledge(c, r.sequence))
  }

  // ---------- The invariant ----------

  ghost predicate Posted(pending: seq<Request>, core: nat, e: TlbEntry)
  {
    exists i :: 0 <= i < |pending| && pending[i].target == core && pending[i].Which().Hits(e)
  }

  /** A valid entry is in the tables of its context, or a request that will drop it is pending for its core. */
  ghost predicate EntryOk(e: TlbEntry, core: nat, mem: Memory, pending: seq<Request>, roots: map<nat, Qword>, xd: bool)
  {
    e.valid ==>
      && e.pcid in roots
      && ContainsRange(mem, e.translation.leafAddress, 8) && e.translation.leafAddress % 8 == 0
      && (Faithful(e.translation, mem, xd, roots[e.pcid]) || Posted(pending, core, e))
  }

  ghost predicate Safe(s: System)
  {
    && (forall p :: p in s.roots ==> s.roots[p] % PAGE_4K == 0)
    && forall c, i :: 0 <= c < |s.tlbs| && 0 <= i < SLOTS ==>
         EntryOk(s.tlbs[c][i], c, s.mem, s.controller.pending, s.roots, s.xd)
  }

  // ---------- Accesses ----------

  lemma EntryOkAfterMarks(e: TlbEntry, core: nat, before: Memory, after: Memory, pending: seq<Request>, roots: map<nat, Qword>, xd: bool)
    requires EntryOk(e, core, before, pending, roots, xd) && OnlyMarks(before, after)
    requires forall p :: p in roots ==> roots[p] % PAGE_4K == 0
    ensures EntryOk(e, core, after, pending, roots, xd)
  {
    LengthKept(before, after);
    hide Faithful, OnlyMarks, Posted;
    if e.valid && Faithful(e.translation, before, xd, roots[e.pcid]) {
      MarksKeepFaithful(e.translation, before, after, xd, roots[e.pcid]);
    }
  }

  lemma LengthKept(before: Memory, after: Memory)
    requires OnlyMarks(before, after)
    ensures |before| == |after|
  {
  }

  /** An access changes only marks in memory, and leaves in its slot the old entry, its dirty twin, or a faithful new one. */
  lemma AccessEffect(entries: Entries, core: nat, mem: Memory, ps: PagingState, privilege: Privilege, va: Qword, kind: AccessKind,
                     pending: seq<Request>, roots: map<nat, Qword>)
    requires ps.pcid in roots && roots[ps.pcid] == ps.cr3
    requires forall p :: p in roots ==> roots[p] % PAGE_4K == 0
    requires forall i :: 0 <= i < SLOTS ==> EntryOk(entries[i], core, mem, pending, roots, ps.executeDisable)
    ensures var m := TranslateEnabled(MmuState(entries, mem), ps, privilege, va, kind).0;
            && OnlyMarks(mem, m.mem)
            && forall i :: 0 <= i < SLOTS ==> EntryOk(m.entries[i], core, m.mem, pending, roots, ps.executeDisable)
  {
    hide EntryOk, OnlyMarks, Faithful, Translate, HitAccess, Slot, IsCanonical;
    var m := TranslateEnabled(MmuState(entries, mem), ps, privilege, va, kind).0;
    OnlyMarksReflexive(mem);
    var hit := Lookup(entries, va, ps.generation, ps.pcid);
    if hit.Some? {
      HitEffect(entries, core, mem, ps, privilege, va, kind, pending, roots);
    } else {
      MissEffect(entries, core, mem, ps, privilege, va, kind, pending, roots);
    }
  }

  lemma HitEffect(entries: Entries, core: nat, mem: Memory, ps: PagingState, privilege: Privilege, va: Qword, kind: AccessKind,
                  pending: seq<Request>, roots: map<nat, Qword>)
    requires ps.pcid in roots && roots[ps.pcid] == ps.cr3
    requires forall p :: p in roots ==> roots[p] % PAGE_4K == 0
    requires forall i :: 0 <= i < SLOTS ==> EntryOk(entries[i], core, mem, pending, roots, ps.executeDisable)
    requires Lookup(entries, va, ps.generation, ps.pcid).Some?
    ensures var m := TranslateEnabled(MmuState(entries, mem), ps, privilege, va, kind).0;
            && OnlyMarks(mem, m.mem)
            && forall i :: 0 <= i < SLOTS ==> EntryOk(m.entries[i], core, m.mem, pending, roots, ps.executeDisable)
  {
    hide EntryOk, OnlyMarks, Denial, LoadEntry, StoreEntry, WithDirty, Slot, AccessFrom;
    var m := TranslateEnabled(MmuState(entries, mem), ps, privilege, va, kind).0;
    OnlyMarksReflexive(mem);
    var slot := Slot(va);
    var e := entries[slot];
    if m.entries != entries || m.mem != mem {
      LeafInRange(e, core, mem, pending, roots, ps.executeDisable);
      DirtyingOnlyMarks(mem, e.translation.leafAddress);
      forall i | 0 <= i < SLOTS
        ensures EntryOk(m.entries[i], core, m.mem, pending, roots, ps.executeDisable)
      {
        EntryOkAfterMarks(entries[i], core, mem, m.mem, pending, roots, ps.executeDisable);
        if i == slot {
          DirtyTwinOk(e, core, m.mem, pending, roots, ps.executeDisable);
        }
      }
    }
  }

  lemma LeafInRange(e: TlbEntry, core: nat, mem: Memory, pending: seq<Request>, roots: map<nat, Qword>, xd: bool)
    requires EntryOk(e, core, mem, pending, roots, xd) && e.valid
    ensures ContainsRange(mem, e.translation.leafAddress, 8) && e.translation.leafAddress % 8 == 0
  {
  }

  lemma DirtyTwinOk(e: TlbEntry, core: nat, mem: Memory, pending: seq<Request>, roots: map<nat, Qword>, xd: bool)
    requires EntryOk(e, core, mem, pending, roots, xd) && e.valid
    requires ContainsRange(mem, e.translation.leafAddress, 8) && Decode(LoadEntry(mem, e.translation.leafAddress)).dirty
    ensures EntryOk(e.(translation := e.translation.(dirty := true)), core, mem, pending, roots, xd)
  {
    hide Faithful, Decode, LoadEntry;
    if Faithful(e.translation, mem, xd, roots[e.pcid]) {
      DirtyTwinIsFaithful(e.translation, mem, xd, roots[e.pcid]);
    } else {
      var i :| 0 <= i < |pending| && pending[i].target == core && pending[i].Which().Hits(e);
      assert pending[i].Which().Hits(e.(translation := e.translation.(dirty := true)));
    }
  }

  lemma MissEffect(entries: Entries, core: nat, mem: Memory, ps: PagingState, privilege: Privilege, va: Qword, kind: AccessKind,
                   pending: seq<Request>, roots: map<nat, Qword>)
    requires ps.pcid in roots && roots[ps.pcid] == ps.cr3
    requires forall p :: p in roots ==> roots[p] % PAGE_4K == 0
    requires forall i :: 0 <= i < SLOTS ==> EntryOk(entries[i], core, mem, pending, roots, ps.executeDisable)
    requires Lookup(entries, va, ps.generation, ps.pcid).None?
    ensures var m := TranslateEnabled(MmuState(entries, mem), ps, privilege, va, kind).0;
            && OnlyMarks(mem, m.mem)
            && forall i :: 0 <= i < SLOTS ==> EntryOk(m.entries[i], core, m.mem, pending, roots, ps.executeDisable)
  {
    hide EntryOk, OnlyMarks, TranslateFrom, Slot, AccessFrom, IsCanonical, Predicted, LeafDirty, WalkRoot, Faithful;
    var m := TranslateEnabled(MmuState(entries, mem), ps, privilege, va, kind).0;
    OnlyMarksReflexive(mem);
    if IsCanonical(va) {
      TranslateFollowsWalk(mem, ps, va, kind, privilege);
      var outcome := Translate(mem, ps, va, kind, privilege).1;
      if outcome.Translated? {
        NewTranslationIsFaithful(mem, ps, va, kind, privilege);
        FaithfulEntryOk(TlbEntry(outcome.translation, ps.generation, ps.pcid, true), core, m.mem, pending, roots,
                        ps.executeDisable, va);
      }
      forall i | 0 <= i < SLOTS
        ensures EntryOk(m.entries[i], core, m.mem, pending, roots, ps.executeDisable)
      {
        EntryOkAfterMarks(entries[i], core, mem, m.mem, pending, roots, ps.executeDisable);
      }
    }
  }

  lemma FaithfulEntryOk(e: TlbEntry, core: nat, mem: Memory, pending: seq<Request>, roots: map<nat, Qword>, xd: bool, va: Qword)
    requires e.pcid in roots && roots[e.pcid] % PAGE_4K == 0
    requires Faithful(e.translation, mem, xd, roots[e.pcid]) && e.translation.Covers(va)
    ensures EntryOk(e, core, mem, pending, roots, xd)
  {
    hide Faithful;
    FaithfulLeaf(e.translation, mem, xd, roots[e.pcid], va);
  }

  // ---------- Edits ----------

  lemma {:induction false} PostingExtends(c: Controller, source: nat, count: nat, va: Option<Qword>, pcid: Option<nat>)
    ensures c.pending <= PostToOthers(c, source, count, va, pcid).pending
  {
    if count > 0 {
      PostingExtends(c, source, count - 1, va, pcid);
    }
  }

  lemma {:induction false} PostsToEveryOther(c: Controller, source: nat, count: nat, va: Option<Qword>, pcid: Option<nat>,
                                            target: nat) returns (i: nat)
    requires target < count && target != source
    ensures var pending := PostToOthers(c, source, count, va, pcid).pending;
            i < |pending| && pending[i].target == target && pending[i].Which() == Invalidation(va, pcid)
  {
    var before := PostToOthers(c, source, count - 1, va, pcid).pending;
    if target < count - 1 {
      i := PostsToEveryOther(c, source, count - 1, va, pcid, target);
    } else {
      i := |before|;
    }
  }

  /** Posting to the others adds one request for each other core, in core order, with the page and context of the edit, and nothing else. */
  lemma {:induction false} PostsExactly(c: Controller, source: nat, count: nat, va: Option<Qword>, pcid: Option<nat>)
    ensures var c', n := PostToOthers(c, source, count, va, pcid), |c.pending|;
            var sent := if source < count then count - 1 else count;
            && c.pending <= c'.pending && |c'.pending| == n + sent
            && c'.acknowledged == c.acknowledged && c'.next == c.next + sent
            && forall i :: n <= i < n + sent ==>
                 c'.pending[i] == Request(c.next + (i - n), source, if i - n < source then i - n else i - n + 1, va, pcid)
  {
    if count > 0 {
      PostsExactly(c, source, count - 1, va, pcid);
    }
  }

  lemma MorePendingKeepsPosted(pending: seq<Request>, more: seq<Request>, core: nat, e: TlbEntry)
    requires pending <= more && Posted(pending, core, e)
    ensures Posted(more, core, e)
  {
    var i :| 0 <= i < |pending| && pending[i].target == core && pending[i].Which().Hits(e);
    assert more[i] == pending[i];
  }

  /** An entry stays fine over an edit if it is posted, or the edit does not concern it, or the new request reaches it. */
  lemma EntryOkAfterEdit(e: TlbEntry, core: nat, s: System, s': System, which: Invalidation)
    requires EntryOk(e, core, s.mem, s.controller.pending, s.roots, s.xd)
    requires |s'.mem| == |s.mem| && s'.roots == s.roots && s'.xd == s.xd && s.controller.pending <= s'.controller.pending
    requires e.valid && Faithful(e.translation, s.mem, s.xd, s.roots[e.pcid]) && !which.Hits(e) ==>
               forall va: Qword :: e.translation.Covers(va) ==> TraceKept(s.mem, s'.mem, s.xd, s.roots[e.pcid], va)
    ensures which.Hits(e) || EntryOk(e, core, s'.mem, s'.controller.pending, s.roots, s.xd)
  {
    hide Faithful, TraceKept, Posted;
    if e.valid && !which.Hits(e) {
      if Faithful(e.translation, s.mem, s.xd, s.roots[e.pcid]) {
        UntouchedStaysFaithful(e.translation, s.mem, s'.mem, s.xd, s.roots[e.pcid]);
      } else {
        MorePendingKeepsPosted(s.controller.pending, s'.controller.pending, core, e);
      }
    }
  }

  lemma HitIsPosted(e: TlbEntry, core: nat, s: System, c: Controller, source: nat, count: nat, va: Option<Qword>, pcid: nat)
    requires Invalidation(va, Some(pcid)).Hits(e) && core < count && core != source
    ensures Posted(PostToOthers(c, source, count, va, Some(pcid)).pending, core, e)
  {
    var i := PostsToEveryOther(c, source, count, va, Some(pcid), core);
    assert PostToOthers(c, source, count, va, Some(pcid)).pending[i].Which().Hits(e);
  }

  ghost predicate ConcernsOnly(s: System, after: Memory, which: Invalidation)
  {
    forall e: TlbEntry, va: Qword {:trigger e.translation.Covers(va)} ::
      && e.valid && e.pcid in s.roots && e.translation.Covers(va) && !which.Hits(e)
      && Faithful(e.translation, s.mem, s.xd, s.roots[e.pcid])
      ==> TraceKept(s.mem, after, s.xd, s.roots[e.pcid], va)
  }

  lemma EditIsSafe(s: System, core: nat, after: Memory, va: Option<Qword>, pcid: nat)
    requires Safe(s) && core < |s.tlbs| && |after| == |s.mem|
    requires ConcernsOnly(s, after, Invalidation(va, Some(pcid)))
    ensures Safe(EditAndPost(s, core, after, va, pcid))
  {
    var which := Invalidation(va, Some(pcid));
    var s' := EditAndPost(s, core, after, va, pcid);
    PostingExtends(s.controller, core, |s.tlbs|, va, Some(pcid));
    hide Faithful, TraceKept, Posted, EntryOk;
    forall c, i | 0 <= c < |s.tlbs| && 0 <= i < SLOTS
      ensures EntryOk(s'.tlbs[c][i], c, s'.mem, s'.controller.pending, s.roots, s.xd)
    {
      var e := s.tlbs[c][i];
      assert EntryOk(e, c, s.mem, s.controller.pending, s.roots, s.xd);
      InBinding(e, c, s);
      EntryOkAfterEdit(e, c, s, s', which);
      if which.Hits(e) {
        if c == core {
          InvalidOk(s'.tlbs[c][i], c, s'.mem, s'.controller.pending, s.roots, s.xd);
        } else {
          HitIsPosted(e, c, s, s.controller, core, |s.tlbs|, va, pcid);
          PostedOk(e, c, s, s');
        }
      }
    }
  }

  lemma InBinding(e: TlbEntry, core: nat, s: System)
    requires EntryOk(e, core, s.mem, s.controller.pending, s.roots, s.xd)
    ensures e.valid ==> e.pcid in s.roots
  {
  }

  lemma InvalidOk(e: TlbEntry, core: nat, mem: Memory, pending: seq<Request>, roots: map<nat, Qword>, xd: bool)
    requires !e.valid
    ensures EntryOk(e, core, mem, pending, roots, xd)
  {
  }

  lemma PostedOk(e: TlbEntry, core: nat, s: System, s': System)
    requires EntryOk(e, core, s.mem, s.controller.pending, s.roots, s.xd) && |s'.mem| == |s.mem|
    requires Posted(s'.controller.pending, core, e)
    ensures EntryOk(e, core, s'.mem, s'.controller.pending, s.roots, s.xd)
  {
  }

  lemma PageEditConcerns(s: System, after: Memory, pcid: nat, va: Qword)
    requires pcid in s.roots && Walk(s.mem, s.xd, s.roots[pcid], va, PML4, TABLE_PERMISSIONS).Mapped?
    requires EditsOnlyPage(s.mem, after, s.xd, s.roots, pcid, va,
                           Walk(s.mem, s.xd, s.roots[pcid], va, PML4, TABLE_PERMISSIONS).leaf.level)
    ensures ConcernsOnly(s, after, Invalidation(Some(va), Some(pcid)))
  {
    hide Walk, TraceKept, Faithful, PageBase, EditsOnlyPage, IsCanonical;
    var level := Walk(s.mem, s.xd, s.roots[pcid], va, PML4, TABLE_PERMISSIONS).leaf.level;
    var which := Invalidation(Some(va), Some(pcid));
    forall e: TlbEntry, other: Qword | e.valid && e.pcid in s.roots && e.translation.Covers(other)
      && Faithful(e.translation, s.mem, s.xd, s.roots[e.pcid]) && !which.Hits(e)
      ensures TraceKept(s.mem, after, s.xd, s.roots[e.pcid], other)
    {
      if e.pcid == pcid && PageBase(other, level) == PageBase(va, level) {
        EntryOfPageCovers(e.translation, s.mem, s.xd, s.roots[pcid], va, other);
        assert false;
      } else {
        HitShows(e.translation, s.mem, s.xd, s.roots[e.pcid], other);
        ElsewhereKept(s.mem, after, s.xd, s.roots, pcid, va, level, e.pcid, other);
      }
    }
  }

  lemma ContextEditConcerns(s: System, after: Memory, pcid: nat)
    requires forall q: nat, va: Qword {:trigger TraceKept(s.mem, after, s.xd, s.roots[q], va)} ::
               q in s.roots && q != pcid ==> TraceKept(s.mem, after, s.xd, s.roots[q], va)
    ensures ConcernsOnly(s, after, Invalidation(None, Some(pcid)))
  {
    hide TraceKept, Faithful;
  }

  lemma AbsentEditIsSafe(s: System, after: Memory)
    requires Safe(s) && |after| == |s.mem|
    requires forall q: nat, va: Qword {:trigger TraceKept(s.mem, after, s.xd, s.roots[q], va)} ::
               q in s.roots && Walk(s.mem, s.xd, s.roots[q], va, PML4, TABLE_PERMISSIONS).Mapped? ==>
                 TraceKept(s.mem, after, s.xd, s.roots[q], va)
    ensures Safe(s.(mem := after))
  {
    hide Walk, TraceKept, Faithful;
    forall c, i | 0 <= c < |s.tlbs| && 0 <= i < SLOTS
      ensures EntryOk(s.tlbs[c][i], c, after, s.controller.pending, s.roots, s.xd)
    {
      var e := s.tlbs[c][i];
      assert EntryOk(e, c, s.mem, s.controller.pending, s.roots, s.xd);
      if e.valid && Faithful(e.translation, s.mem, s.xd, s.roots[e.pcid]) {
        forall va: Qword | e.translation.Covers(va)
          ensures TraceKept(s.mem, after, s.xd, s.roots[e.pcid], va)
        {
          FaithfulIsMapped(e.translation, s.mem, s.xd, s.roots[e.pcid], va);
        }
        UntouchedStaysFaithful(e.translation, s.mem, after, s.xd, s.roots[e.pcid]);
      }
    }
  }

  lemma FaithfulIsMapped(x: Translation, mem: Memory, xd: bool, root: nat, va: Qword)
    requires Faithful(x, mem, xd, root) && x.Covers(va)
    ensures Walk(mem, xd, root, va, PML4, TABLE_PERMISSIONS).Mapped?
  {
    hide Walk, PathAccessed, LeafDirty, PageBase, IsCanonical;
    assert Shows(x, mem, xd, root, va);
  }

  // ---------- Taking a request ----------

  lemma ApplyIsSafe(s: System, core: nat)
    requires Safe(s) && core < |s.tlbs|
    ensures Safe(Do(s, ApplyNext(core)))
  {
    hide Faithful;
    var (c', taken) := Take(s.controller, core);
    var s' := Do(s, ApplyNext(core));
    if taken.Some? {
      var k := FirstFor(s.controller.pending, core);
      forall c, i | 0 <= c < |s.tlbs| && 0 <= i < SLOTS
        ensures EntryOk(s'.tlbs[c][i], c, s'.mem, s'.controller.pending, s.roots, s.xd)
      {
        var e := s.tlbs[c][i];
        assert EntryOk(e, c, s.mem, s.controller.pending, s.roots, s.xd);
        if s'.tlbs[c][i].valid && Posted(s.controller.pending, c, e) {
          var j :| 0 <= j < |s.controller.pending| && s.controller.pending[j].target == c
                   && s.controller.pending[j].Which().Hits(e);
          assert j != k;
          assert s'.controller.pending[if j < k then j else j - 1] == s.controller.pending[j];
        }
      }
    }
  }

  lemma AccessIsSafe(s: System, step: Step)
    requires Safe(s) && step.AccessStep? && Enabled(s, step)
    ensures Safe(Do(s, step))
  {
    hide EntryOk, OnlyMarks, TranslateEnabled;
    var core := step.core;
    AccessEffect(s.tlbs[core], core, s.mem, step.ps, step.privilege, step.va, step.kind, s.controller.pending, s.roots);
    var s' := Do(s, step);
    forall c, i | 0 <= c < |s.tlbs| && 0 <= i < SLOTS
      ensures EntryOk(s'.tlbs[c][i], c, s'.mem, s.controller.pending, s.roots, s.xd)
    {
      EntryOkAfterMarks(s.tlbs[c][i], c, s.mem, s'.mem, s.controller.pending, s.roots, s.xd);
    }
  }

  /** Every step of the protocol keeps the invariant. */
  lemma StepIsSafe(s: System, step: Step)
    requires Safe(s) && Enabled(s, step)
    ensures Safe(Do(s, step))
  {
    hide Safe, Walk, TraceKept, EditsOnlyPage, ConcernsOnly, EditAndPost;
    match step
    case AccessStep(_, _, _, _, _) => AccessIsSafe(s, step);
    case PageEdit(core, after, pcid, va) =>
      PageEditConcerns(s, after, pcid, va);
      EditIsSafe(s, core, after, Some(va), pcid);
    case ContextEdit(core, after, pcid) =>
      ContextEditConcerns(s, after, pcid);
      EditIsSafe(s, core, after, None, pcid);
    case AbsentEdit(after) => AbsentEditIsSafe(s, after);
    case ApplyNext(core) => ApplyIsSafe(s, core);
  }

  // ---------- Runs ----------

  ghost predicate EnabledRun(s: System, steps: seq<Step>)
    decreases |steps|
  {
    steps == [] || (Enabled(s, steps[0]) && EnabledRun(Do(s, steps[0]), steps[1..]))
  }

  ghost function DoAll(s: System, steps: seq<Step>): System
    requires EnabledRun(s, steps)
    decreases |steps|
  {
    if steps == [] then s else DoAll(Do(s, steps[0]), steps[1..])
  }

  /** Empty TLBs are safe, so that the theorems cover every run from power-on. */
  lemma StartIsSafe(mem: Memory, cores: nat, controller: Controller, roots: map<nat, Qword>, xd: bool)
    requires forall p :: p in roots ==> roots[p] % PAGE_4K == 0
    ensures Safe(System(mem, seq(cores, _ => seq(SLOTS, _ => EMPTY_ENTRY)), controller, roots, xd))
  {
  }

  lemma {:induction false} RunIsSafe(s: System, steps: seq<Step>)
    requires Safe(s) && EnabledRun(s, steps)
    ensures Safe(DoAll(s, steps))
    decreases |steps|
  {
    hide Safe, Do;
    if steps != [] {
      StepIsSafe(s, steps[0]);
      RunIsSafe(Do(s, steps[0]), steps[1..]);
    }
  }

  /**
   Shootdown safety: over every interleaving of accesses, edits with local invalidation and
   posted requests, and take-and-apply steps, a core with no pending request has no stale
   entry, so that every access it makes gives what a fresh walk of the tables gives.
   */
  lemma QuietCoreIsCoherent(s: System, steps: seq<Step>, core: nat, ps: PagingState, privilege: Privilege, va: Qword, kind: AccessKind)
    requires Safe(s) && EnabledRun(s, steps) && core < |DoAll(s, steps).tlbs|
    requires var end := DoAll(s, steps);
             && ps.pcid in end.roots && end.roots[ps.pcid] == ps.cr3 && ps.executeDisable == end.xd
             && (forall i :: 0 <= i < |end.controller.pending| ==> end.controller.pending[i].target != core)
             && (forall i :: 0 <= i < SLOTS && end.tlbs[core][i].valid ==> end.tlbs[core][i].generation <= ps.generation)
    ensures var end := DoAll(s, steps);
            var (m, access) := TranslateEnabled(MmuState(end.tlbs[core], end.mem), ps, privilege, va, kind);
            var (mem', outcome) := Translate(end.mem, ps, va, kind, privilege);
            access == AccessFrom(outcome, va) && m.mem == mem'
  {
    RunIsSafe(s, steps);
    hide EnabledRun, DoAll, Faithful, TranslateEnabled, Translate;
    var end := DoAll(s, steps);
    forall i | 0 <= i < SLOTS && end.tlbs[core][i].valid
      ensures end.tlbs[core][i].pcid in end.roots
              && Faithful(end.tlbs[core][i].translation, end.mem, end.xd, end.roots[end.tlbs[core][i].pcid])
    {
      assert EntryOk(end.tlbs[core][i], core, end.mem, end.controller.pending, end.roots, end.xd);
    }
    TlbIsInvisible(MmuState(end.tlbs[core], end.mem), ps, end.roots, privilege, va, kind);
  }

  // ---------- Acknowledgements ----------

  ghost predicate InOrder(pending: seq<Request>)
  {
    forall i, j :: 0 <= i < j < |pending| ==> pending[i].sequence < pending[j].sequence
  }

  ghost predicate Waiting(pending: seq<Request>, q: nat)
  {
    exists i :: 0 <= i < |pending| && pending[i].sequence == q
  }

  /** Each request issued so far is either pending once or acknowledged, never both. */
  ghost predicate Accounted(c: Controller)
  {
    && c.next >= 1 && InOrder(c.pending)
    && (forall i :: 0 <= i < |c.pending| ==> 1 <= c.pending[i].sequence < c.next && c.pending[i].sequence !in c.acknowledged)
    && (forall q: nat :: 1 <= q < c.next ==> q in c.acknowledged || Waiting(c.pending, q))
    && (forall i :: 0 <= i < |c.acknowledged| ==> c.acknowledged[i] < c.next)
  }

  lemma PostIsAccounted(c: Controller, source: nat, target: nat, va: Option<Qword>, pcid: Option<nat>)
    requires Accounted(c)
    ensures Accounted(Post(c, source, target, va, pcid))
  {
    var c' := Post(c, source, target, va, pcid);
    forall q: nat | 1 <= q < c'.next ensures q in c'.acknowledged || Waiting(c'.pending, q) {
      if q == c.next {
        assert c'.pending[|c.pending|].sequence == q;
      } else if q !in c.acknowledged {
        assert Waiting(c.pending, q);
        var i :| 0 <= i < |c.pending| && c.pending[i].sequence == q;
        assert c'.pending[i].sequence == q;
      }
    }
  }

  lemma TakeShape(c: Controller, core: nat)
    requires Take(c, core).1.Some?
    ensures var k := FirstFor(c.pending, core);
            && Take(c, core).0.next == c.next && Take(c, core).0.acknowledged == c.acknowledged
            && k < |c.pending| && Take(c, core).1.value == c.pending[k] && c.pending[k].target == core
            && |Take(c, core).0.pending| == |c.pending| - 1
            && forall i :: 0 <= i < |c.pending| - 1 ==> Take(c, core).0.pending[i] == c.pending[if i < k then i else i + 1]
  {
  }

  /** A list of requests without the one at position k. */
  ghost predicate Without(before: seq<Request>, after: seq<Request>, k: nat)
  {
    && k < |before| && |after| == |before| - 1
    && forall i :: 0 <= i < |after| ==> after[i] == before[if i < k then i else i + 1]
  }

  lemma WithoutKeepsOrder(before: seq<Request>, after: seq<Request>, k: nat)
    requires InOrder(before) && Without(before, after, k)
    ensures InOrder(after)
    ensures forall i :: 0 <= i < |after| ==> after[i] in before && after[i].sequence != before[k].sequence
  {
  }

  lemma WithoutKeepsWaiting(before: seq<Request>, after: seq<Request>, k: nat, q: nat)
    requires Without(before, after, k) && Waiting(before, q) && q != before[k].sequence
    ensures Waiting(after, q)
  {
    var i :| 0 <= i < |before| && before[i].sequence == q;
    assert after[if i < k then i else i - 1].sequence == q;
  }

  /** A request taken and applied moves from the queue to the acknowledged set; requests of one core go in issue order. */
  lemma ApplyIsAccounted(c: Controller, core: nat)
    requires Accounted(c) && Take(c, core).1.Some?
    ensures var (c', taken) := Take(c, core);
            var c'' := Acknowledge(c', taken.value.sequence);
            && Accounted(c'') && taken.value.sequence in c''.acknowledged
            && forall i :: 0 <= i < |c''.pending| && c''.pending[i].target == core ==> taken.value.sequence < c''.pending[i].sequence
  {
    TakeShape(c, core);
    var (c', taken) := Take(c, core);
    var k := FirstFor(c.pending, core);
    var r := taken.value;
    FirstIsOldest(c, c'.pending, core);
    hide Take, FirstFor, InOrder, Waiting;
    var c'' := Acknowledge(c', r.sequence);
    assert Without(c.pending, c'.pending, k);
    WithoutKeepsOrder(c.pending, c'.pending, k);
    forall q: nat | 1 <= q < c''.next ensures q in c''.acknowledged || Waiting(c''.pending, q) {
      if q !in c.acknowledged && q != r.sequence {
        WithoutKeepsWaiting(c.pending, c'.pending, k, q);
      }
    }
  }

  lemma FirstIsOldest(c: Controller, after: seq<Request>, core: nat)
    requires InOrder(c.pending) && Without(c.pending, after, FirstFor(c.pending, core))
    ensures forall i :: 0 <= i < |after| && after[i].target == core ==> c.pending[FirstFor(c.pending, core)].sequence < after[i].sequence
  {
  }
}
