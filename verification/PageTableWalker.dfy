/** The 4-level page-table walk: what it finds, and what it changes. */
module PageTableWalker {
  import opened Arithmetic
  import opened MemoryBus
  import opened Results
  import opened Paging

  predicate IsLarge(f: Fields, level: Level)
  {
    (level.PD? || level.PDPT?) && f.huge
  }

  predicate IsLeaf(f: Fields, level: Level)
  {
    level.PT? || IsLarge(f, level)
  }

  /** The frame address of a leaf, with the bits below the page size masked off. */
  function FrameOf(f: Fields, level: Level): nat
  {
    f.address / level.Span() * level.Span()
  }

  predicate HasReservedBits(f: Fields, level: Level, executeDisable: bool)
  {
    || f.reservedHigh
    || (!executeDisable && f.noExecute)
    || (level.PML4? && f.huge)
    || (IsLarge(f, level) && f.address % level.Span() != 0)
  }

  function Restrict(permissions: Permissions, f: Fields): Permissions
  {
    Permissions(permissions.writable && f.writable, permissions.user && f.user, permissions.executable && !f.noExecute)
  }

  function EntryAddress(table: nat, va: Qword, level: Level): nat
  {
    table + 8 * TableIndex(va, level)
  }

  /** The entry that maps an address: its level and place, the frame, and the permissions along the path. */
  datatype Leaf = Leaf(level: Level, entryAddress: nat, frame: nat, permissions: Permissions)

  datatype Walked = Mapped(leaf: Leaf) | Unmapped(reason: FaultReason) | OffTheBus

  /** What the tables say about an address, read without side effects from one table downwards. */
  function Walk(mem: Memory, executeDisable: bool, table: nat, va: Qword, level: Level, permissions: Permissions): Walked
    decreases level.Rank()
  {
    var a := EntryAddress(table, va, level);
    if !ContainsRange(mem, a, 8) then OffTheBus
    else
      var f := Decode(LoadEntry(mem, a));
      if !f.present then Unmapped(NOT_PRESENT)
      else if HasReservedBits(f, level, executeDisable) then Unmapped(RESERVED_BIT)
      else if IsLeaf(f, level) then
        Mapped(Leaf(level, a, FrameOf(f, level), Restrict(permissions, f)))
      else Walk(mem, executeDisable, f.address, va, level.Child(), Restrict(permissions, f))
  }

  function WalkRoot(mem: Memory, ps: PagingState, va: Qword): Walked
  {
    Walk(mem, ps.executeDisable, ps.cr3, va, PML4, TABLE_PERMISSIONS)
  }

  function Marked(raw: Qword, leaf: bool, kind: AccessKind): Qword
  {
    if leaf && kind == WRITE then WithDirty(raw) else WithAccessed(raw)
  }

  /** The walk as the hardware does it: checks the access and sets accessed and dirty bits on the way. */
  function TranslateFrom(mem: Memory, ps: PagingState, table: nat, va: Qword, level: Level, permissions: Permissions,
                         kind: AccessKind, privilege: Privilege): (r: (Memory, Outcome))
    ensures |r.0| == |mem|
    decreases level.Rank()
  {
    var a := EntryAddress(table, va, level);
    if !ContainsRange(mem, a, 8) then (mem, Thrown(OutOfRange))
    else
      var raw := LoadEntry(mem, a);
      var f := Decode(raw);
      if !f.present then (mem, Fault(va, kind, privilege, NOT_PRESENT))
      else if HasReservedBits(f, level, ps.executeDisable) then (mem, Fault(va, kind, privilege, RESERVED_BIT))
      else
        var p := Restrict(permissions, f);
        if IsLeaf(f, level) then
          match Denial(ps, p, kind, privilege)
          case Some(reason) => (mem, Fault(va, kind, privilege, reason))
          case None =>
            var marked := Marked(raw, true, kind);
            (StoreEntry(mem, a, marked),
             Translated(Translation(PageBase(va, level), FrameOf(f, level), level.Span(), p, a,
                                    Decode(marked).dirty)))
        else
          TranslateFrom(StoreEntry(mem, a, Marked(raw, false, kind)), ps, f.address, va, level.Child(), p, kind, privilege)
  }

  function Translate(mem: Memory, ps: PagingState, va: Qword, kind: AccessKind, privilege: Privilege): (r: (Memory, Outcome))
    ensures |r.0| == |mem|
  {
    if !IsCanonical(va) then (mem, Thrown(OutOfRange))
    else TranslateFrom(mem, ps, ps.cr3, va, PML4, TABLE_PERMISSIONS, kind, privilege)
  }

  /** Storing what is already there changes nothing, so writing only changed entries is the same as writing always. */
  lemma StoreSame(mem: Memory, a: nat)
    requires ContainsRange(mem, a, 8)
    ensures StoreEntry(mem, a, LoadEntry(mem, a)) == mem
  {
    LittleEndian.EncodeDecode(mem[a..a + 8]);
  }

  import LittleEndian

  method TranslateAddress(memory: PhysicalMemory, ps: PagingState, va: Qword, kind: AccessKind, privilege: Privilege)
    returns (outcome: Outcome)
    modifies memory
    ensures (memory.bytes, outcome) == Translate(old(memory.bytes), ps, va, kind, privilege)
  {
    if !IsCanonical(va) {
      return Thrown(OutOfRange);
    }
    var table: nat, level, permissions := ps.cr3, PML4, TABLE_PERMISSIONS;
    while true
      invariant Translate(old(memory.bytes), ps, va, kind, privilege)
                == TranslateFrom(memory.bytes, ps, table, va, level, permissions, kind, privilege)
      decreases level.Rank()
    {
      var a := EntryAddress(table, va, level);
      var read := memory.Read(a, 8);
      if read.Err? {
        return Thrown(read.error);
      }
      var raw := LoadEntry(memory.bytes, a);
      var f := Decode(raw);
      if !f.present {
        return Fault(va, kind, privilege, NOT_PRESENT);
      }
      if HasReservedBits(f, level, ps.executeDisable) {
        return Fault(va, kind, privilege, RESERVED_BIT);
      }
      permissions := Restrict(permissions, f);
      var leaf := IsLeaf(f, level);
      if leaf {
        var denial := Denial(ps, permissions, kind, privilege);
        if denial.Some? {
          return Fault(va, kind, privilege, denial.value);
        }
      }
      var marked := Marked(raw, leaf, kind);
      StoreSame(memory.bytes, a);
      if marked != raw {
        var _ := memory.Write(a, 8, marked);
      }
      if leaf {
        return Translated(Translation(PageBase(va, level), FrameOf(f, level), level.Span(),
                                      permissions, a, Decode(marked).dirty));
      }
      table := f.address;
      level := level.Child();
    }
  }

  // ---------- What a walk changes ----------

  function WithoutMarks(f: Fields): Fields
  {
    f.(accessed := false, dirty := false)
  }

  /** Same tables up to accessed and dirty bits, and no bit was cleared. */
  ghost predicate OnlyMarks(before: Memory, after: Memory)
  {
    && |before| == |after|
    && forall a {:trigger LoadEntry(after, a)} :: 0 <= a && a % 8 == 0 && ContainsRange(before, a, 8) ==>
         var f, g := Decode(LoadEntry(before, a)), Decode(LoadEntry(after, a));
         WithoutMarks(f) == WithoutMarks(g) && (f.accessed ==> g.accessed) && (f.dirty ==> g.dirty)
  }

  lemma MarkingOnlyMarks(mem: Memory, a: nat, leaf: bool, kind: AccessKind)
    requires ContainsRange(mem, a, 8) && a % 8 == 0
    ensures OnlyMarks(mem, StoreEntry(mem, a, Marked(LoadEntry(mem, a), leaf, kind)))
  {
    hide Decode;
    var raw := LoadEntry(mem, a);
    var after := StoreEntry(mem, a, Marked(raw, leaf, kind));
    MarkedDecodes(raw, leaf, kind);
    forall b | 0 <= b && b % 8 == 0 && ContainsRange(mem, b, 8)
      ensures LoadEntry(after, b) == if b == a then Marked(raw, leaf, kind) else LoadEntry(mem, b)
    {
      EntryAfterStore(mem, a, Marked(raw, leaf, kind), b);
    }
  }

  lemma MarkedDecodes(raw: Qword, leaf: bool, kind: AccessKind)
    ensures var f, g := Decode(raw), Decode(Marked(raw, leaf, kind));
            g == f.(accessed := true, dirty := f.dirty || (leaf && kind == WRITE))
  {
    SetAccessedDecodes(raw);
    SetDirtyDecodes(Set(raw, 32));
  }

  lemma OnlyMarksTransitive(m1: Memory, m2: Memory, m3: Memory)
    requires OnlyMarks(m1, m2) && OnlyMarks(m2, m3)
    ensures OnlyMarks(m1, m3)
  {
    hide Decode;
    forall a | 0 <= a && a % 8 == 0 && ContainsRange(m1, a, 8)
      ensures var f, g := Decode(LoadEntry(m1, a)), Decode(LoadEntry(m3, a));
              WithoutMarks(f) == WithoutMarks(g) && (f.accessed ==> g.accessed) && (f.dirty ==> g.dirty)
    {
      assert WithoutMarks(Decode(LoadEntry(m1, a))) == WithoutMarks(Decode(LoadEntry(m2, a)));
    }
  }

  /** The tables mean the same before and after any accessed or dirty bits are set. */
  lemma {:induction false} MarksKeepWalk(before: Memory, after: Memory, executeDisable: bool, table: nat, va: Qword,
                                        level: Level, permissions: Permissions)
    requires OnlyMarks(before, after) && table % 8 == 0
    ensures Walk(before, executeDisable, table, va, level, permissions)
            == Walk(after, executeDisable, table, va, level, permissions)
    decreases level.Rank()
  {
    hide Decode, HasReservedBits, FrameOf, TableIndex, LoadEntry;
    var a := EntryAddress(table, va, level);
    if ContainsRange(before, a, 8) {
      var f, g := Decode(LoadEntry(before, a)), Decode(LoadEntry(after, a));
      assert WithoutMarks(f) == WithoutMarks(g);
      MarksMeanNothing(f, g, level, executeDisable);
      AddressAligned(LoadEntry(before, a));
      if f.present && !HasReservedBits(f, level, executeDisable) && !IsLeaf(f, level) {
        MarksKeepWalk(before, after, executeDisable, f.address, va, level.Child(), Restrict(permissions, f));
      }
    }
  }

  lemma MarksMeanNothing(f: Fields, g: Fields, level: Level, executeDisable: bool)
    requires WithoutMarks(f) == WithoutMarks(g)
    ensures HasReservedBits(f, level, executeDisable) == HasReservedBits(g, level, executeDisable)
    ensures FrameOf(f, level) == FrameOf(g, level) && IsLeaf(f, level) == IsLeaf(g, level)
  {
  }

  lemma AddressAligned(raw: Qword)
    ensures Decode(raw).address % PAGE_4K == 0 && Decode(raw).address % 8 == 0
  {
    var q := raw % TWO_52 / PAGE_4K;
    assert Decode(raw).address == PAGE_4K * q;
    hide Decode;
    DivUnique(PAGE_4K * q, PAGE_4K, q, 0);
    DivUnique(PAGE_4K * q, 8, 512 * q, 0);
  }

  /** The outcome that the pure walk predicts for an access, up to the reported dirty flag. */
  function Predicted(walked: Walked, ps: PagingState, va: Qword, kind: AccessKind, privilege: Privilege, dirty: bool): Outcome
  {
    match walked
    case OffTheBus => Thrown(OutOfRange)
    case Unmapped(reason) => Fault(va, kind, privilege, reason)
    case Mapped(leaf) =>
      match Denial(ps, leaf.permissions, kind, privilege)
      case Some(reason) => Fault(va, kind, privilege, reason)
      case None =>
        Translated(Translation(PageBase(va, leaf.level), leaf.frame, leaf.level.Span(), leaf.permissions,
                               leaf.entryAddress, dirty))
  }

  /** The dirty flag a successful access leaves in the leaf entry. */
  function LeafDirty(walked: Walked, mem: Memory): bool
  {
    walked.Mapped? && ContainsRange(mem, walked.leaf.entryAddress, 8)
    && Decode(LoadEntry(mem, walked.leaf.entryAddress)).dirty
  }

  /**
   The walk that checks and marks gives exactly the frame, size, permissions or fault of the
   pure walk, even over tables that refer to themselves, and changes only accessed and dirty bits.
   */
  lemma {:induction false} TranslateFromFollowsWalk(mem: Memory, ps: PagingState, table: nat, va: Qword, level: Level,
                                                   permissions: Permissions, kind: AccessKind, privilege: Privilege)
    requires table % 8 == 0
    ensures Follows(mem, ps, table, va, level, permissions, kind, privilege)
    decreases level.Rank()
  {
    hide *;
    var a := EntryAddress(table, va, level);
    if Descends(mem, ps, a, level) {
      var raw := LoadEntry(mem, a);
      var f := Decode(raw);
      var p := Restrict(permissions, f);
      var mem1 := StoreEntry(mem, a, Marked(raw, false, kind));
      DescentKeepsAlignment(mem, ps, table, va, level);
      MarkingOnlyMarks(mem, a, false, kind);
      TranslateFromFollowsWalk(mem1, ps, f.address, va, level.Child(), p, kind, privilege);
      MarksKeepWalk(mem, mem1, ps.executeDisable, f.address, va, level.Child(), p);
      FollowsOnDescent(mem, ps, table, va, level, permissions, kind, privilege);
    } else {
      FollowsAtEnd(mem, ps, table, va, level, permissions, kind, privilege);
    }
  }

  ghost predicate Follows(mem: Memory, ps: PagingState, table: nat, va: Qword, level: Level, permissions: Permissions,
                          kind: AccessKind, privilege: Privilege)
  {
    var (mem', outcome) := TranslateFrom(mem, ps, table, va, level, permissions, kind, privilege);
    var walked := Walk(mem, ps.executeDisable, table, va, level, permissions);
    && OnlyMarks(mem, mem')
    && outcome == Predicted(walked, ps, va, kind, privilege, LeafDirty(walked, mem'))
  }

  predicate Descends(mem: Memory, ps: PagingState, a: nat, level: Level)
    ensures Descends(mem, ps, a, level) ==> !level.PT? && ContainsRange(mem, a, 8)
  {
    && ContainsRange(mem, a, 8)
    && var f := Decode(LoadEntry(mem, a));
       f.present && !HasReservedBits(f, level, ps.executeDisable) && !IsLeaf(f, level)
  }

  lemma DescentKeepsAlignment(mem: Memory, ps: PagingState, table: nat, va: Qword, level: Level)
    requires table % 8 == 0
    requires Descends(mem, ps, EntryAddress(table, va, level), level)
    ensures EntryAddress(table, va, level) % 8 == 0
    ensures Decode(LoadEntry(mem, EntryAddress(table, va, level))).address % 8 == 0
    ensures level.Child().Rank() < level.Rank()
  {
    AddressAligned(LoadEntry(mem, EntryAddress(table, va, level)));
  }

  lemma FollowsOnDescent(mem: Memory, ps: PagingState, table: nat, va: Qword, level: Level, permissions: Permissions,
                         kind: AccessKind, privilege: Privilege)
    requires Descends(mem, ps, EntryAddress(table, va, level), level)
    requires var a := EntryAddress(table, va, level);
             var f := Decode(LoadEntry(mem, a));
             var p := Restrict(permissions, f);
             var mem1 := StoreEntry(mem, a, Marked(LoadEntry(mem, a), false, kind));
             && OnlyMarks(mem, mem1)
             && Follows(mem1, ps, f.address, va, level.Child(), p, kind, privilege)
             && Walk(mem, ps.executeDisable, f.address, va, level.Child(), p)
                == Walk(mem1, ps.executeDisable, f.address, va, level.Child(), p)
    ensures Follows(mem, ps, table, va, level, permissions, kind, privilege)
  {
    hide Decode, HasReservedBits, FrameOf, TableIndex, LoadEntry, StoreEntry, Marked, OnlyMarks, Predicted, LeafDirty;
    var a := EntryAddress(table, va, level);
    var f := Decode(LoadEntry(mem, a));
    var mem1 := StoreEntry(mem, a, Marked(LoadEntry(mem, a), false, kind));
    OnlyMarksTransitive(mem, mem1,
                        TranslateFrom(mem1, ps, f.address, va, level.Child(), Restrict(permissions, f), kind, privilege).0);
  }

  lemma FollowsAtEnd(mem: Memory, ps: PagingState, table: nat, va: Qword, level: Level, permissions: Permissions,
                     kind: AccessKind, privilege: Privilege)
    requires table % 8 == 0 && !Descends(mem, ps, EntryAddress(table, va, level), level)
    ensures Follows(mem, ps, table, va, level, permissions, kind, privilege)
  {
    hide Decode, HasReservedBits, FrameOf, TableIndex, LoadEntry, StoreEntry, Marked, OnlyMarks, Denial, PageBase,
         ErrorCode, Level.Span;
    OnlyMarksReflexive(mem);
    var a := EntryAddress(table, va, level);
    if ContainsRange(mem, a, 8) {
      var f := Decode(LoadEntry(mem, a));
      if f.present && !HasReservedBits(f, level, ps.executeDisable) {
        FollowsAtLeaf(mem, ps, table, va, level, permissions, kind, privilege);
      }
    }
  }

  lemma FollowsAtLeaf(mem: Memory, ps: PagingState, table: nat, va: Qword, level: Level, permissions: Permissions,
                      kind: AccessKind, privilege: Privilege)
    requires var a := EntryAddress(table, va, level);
             && table % 8 == 0
             && ContainsRange(mem, a, 8)
             && var f := Decode(LoadEntry(mem, a));
                f.present && !HasReservedBits(f, level, ps.executeDisable) && IsLeaf(f, level)
    ensures Follows(mem, ps, table, va, level, permissions, kind, privilege)
  {
    hide Decode, HasReservedBits, FrameOf, TableIndex, LoadEntry, StoreEntry, Marked, OnlyMarks, Denial, PageBase,
         ErrorCode, Level.Span;
    OnlyMarksReflexive(mem);
    var a := EntryAddress(table, va, level);
    var raw := LoadEntry(mem, a);
    MarkingOnlyMarks(mem, a, true, kind);
    EntryAfterStore(mem, a, Marked(raw, true, kind), a);
  }

  lemma OnlyMarksReflexive(mem: Memory)
    ensures OnlyMarks(mem, mem)
  {
    hide Decode;
  }

  lemma PageAligned(a: nat)
    requires a % PAGE_4K == 0
    ensures a % 8 == 0
  {
  }

  lemma MarksKeepWalks(before: Memory, after: Memory, ps: PagingState)
    requires OnlyMarks(before, after) && ps.cr3 % PAGE_4K == 0
    ensures forall va: Qword :: WalkRoot(after, ps, va) == WalkRoot(before, ps, va)
  {
    PageAligned(ps.cr3);
    hide Decode, Walk, OnlyMarks;
    forall va: Qword
      ensures WalkRoot(after, ps, va) == WalkRoot(before, ps, va)
    {
      MarksKeepWalk(before, after, ps.executeDisable, ps.cr3, va, PML4, TABLE_PERMISSIONS);
    }
  }

  /** For every memory, address and access: the marking walk refines the pure one and later walks see no difference. */
  lemma TranslateFollowsWalk(mem: Memory, ps: PagingState, va: Qword, kind: AccessKind, privilege: Privilege)
    requires IsCanonical(va) && ps.cr3 % PAGE_4K == 0
    ensures var (mem', outcome) := Translate(mem, ps, va, kind, privilege);
            && OnlyMarks(mem, mem')
            && outcome == Predicted(WalkRoot(mem, ps, va), ps, va, kind, privilege, LeafDirty(WalkRoot(mem, ps, va), mem'))
            && forall other: Qword :: WalkRoot(mem', ps, other) == WalkRoot(mem, ps, other)
  {
    PageAligned(ps.cr3);
    hide Decode, IsCanonical, TranslateFrom, Walk, OnlyMarks, Predicted, LeafDirty;
    TranslateFromFollowsWalk(mem, ps, ps.cr3, va, PML4, TABLE_PERMISSIONS, kind, privilege);
    MarksKeepWalks(mem, Translate(mem, ps, va, kind, privilege).0, ps);
  }
}
