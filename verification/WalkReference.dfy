/**
 What a walk is, independently of the walker: the four levels of section 4.5 of the Intel SDM, volume 3A, written out
 over the raw bits of the entries, and exactly which bits of memory an access sets.
 */
module WalkReference {
  import opened MemoryBus
  import opened Results
  import opened Paging
  import opened PageTableWalker

  // ---------- The walk, level by level ----------

  predicate PresentBit(raw: Qword)
  {
    raw % 2 == 1
  }

  predicate PageSizeBit(raw: Qword)
  {
    raw / 0x80 % 2 == 1
  }

  /** Bits 52 to 62, and bit 63 while execute-disable is off. */
  predicate ReservedBits(raw: Qword, xd: bool)
  {
    raw / 0x10_0000_0000_0000 % 0x800 != 0 || (!xd && raw / 0x8000_0000_0000_0000 % 2 == 1)
  }

  /** Bits 12 to 51: the next table, or the frame. */
  function AddressBits(raw: Qword): nat
  {
    raw % 0x10_0000_0000_0000 / 0x1000 * 0x1000
  }

  /** Writable and user exactly if every entry on the path is; executable exactly if none forbids it. */
  function PathPermissions(path: seq<Qword>): Permissions
  {
    Permissions(forall i :: 0 <= i < |path| ==> path[i] / 2 % 2 == 1,
                forall i :: 0 <= i < |path| ==> path[i] / 4 % 2 == 1,
                forall i :: 0 <= i < |path| ==> path[i] / 0x8000_0000_0000_0000 % 2 == 0)
  }

  /** The walk of an address: each level's nine bits of the address select an entry of its table. */
  function FourLevels(mem: Memory, xd: bool, root: nat, va: Qword): Walked
  {
    var a4 := root + 8 * (va / 0x80_0000_0000 % 512);
    if !ContainsRange(mem, a4, 8) then OffTheBus
    else
      var e4 := LoadEntry(mem, a4);
      if !PresentBit(e4) then Unmapped(NOT_PRESENT)
      else if ReservedBits(e4, xd) || PageSizeBit(e4) then Unmapped(RESERVED_BIT)
      else ThreeLevels(mem, xd, e4, va)
  }

  function ThreeLevels(mem: Memory, xd: bool, e4: Qword, va: Qword): Walked
  {
    var a3 := AddressBits(e4) + 8 * (va / 0x4000_0000 % 512);
    if !ContainsRange(mem, a3, 8) then OffTheBus
    else
      var e3 := LoadEntry(mem, a3);
      if !PresentBit(e3) then Unmapped(NOT_PRESENT)
      else if ReservedBits(e3, xd) || (PageSizeBit(e3) && AddressBits(e3) % 0x4000_0000 != 0) then Unmapped(RESERVED_BIT)
      else if PageSizeBit(e3) then Mapped(Leaf(PDPT, a3, AddressBits(e3), PathPermissions([e4, e3])))
      else TwoLevels(mem, xd, e4, e3, va)
  }

  function TwoLevels(mem: Memory, xd: bool, e4: Qword, e3: Qword, va: Qword): Walked
  {
    var a2 := AddressBits(e3) + 8 * (va / 0x20_0000 % 512);
    if !ContainsRange(mem, a2, 8) then OffTheBus
    else
      var e2 := LoadEntry(mem, a2);
      if !PresentBit(e2) then Unmapped(NOT_PRESENT)
      else if ReservedBits(e2, xd) || (PageSizeBit(e2) && AddressBits(e2) % 0x20_0000 != 0) then Unmapped(RESERVED_BIT)
      else if PageSizeBit(e2) then Mapped(Leaf(PD, a2, AddressBits(e2), PathPermissions([e4, e3, e2])))
      else OneLevel(mem, xd, e4, e3, e2, va)
  }

  function OneLevel(mem: Memory, xd: bool, e4: Qword, e3: Qword, e2: Qword, va: Qword): Walked
  {
    var a1 := AddressBits(e2) + 8 * (va / 0x1000 % 512);
    if !ContainsRange(mem, a1, 8) then OffTheBus
    else
      var e1 := LoadEntry(mem, a1);
      if !PresentBit(e1) then Unmapped(NOT_PRESENT)
      else if ReservedBits(e1, xd) then Unmapped(RESERVED_BIT)
      else Mapped(Leaf(PT, a1, AddressBits(e1), PathPermissions([e4, e3, e2, e1])))
  }

  lemma EntryBits(raw: Qword, xd: bool)
    ensures var f := Decode(raw);
            && (f.present <==> PresentBit(raw)) && f.address == AddressBits(raw)
            && f.writable == (raw / 2 % 2 == 1) && f.user == (raw / 4 % 2 == 1)
            && f.noExecute == (raw / 0x8000_0000_0000_0000 % 2 == 1)
            && (f.huge <==> PageSizeBit(raw))
            && (ReservedBits(raw, xd) <==> f.reservedHigh || (!xd && f.noExecute))
  {
  }

  lemma AlignedFrame(a: nat, span: nat)
    requires span > 0 && a % span == 0
    ensures a / span * span == a
  {
  }

  /** What one entry does to the walk at its level. */
  lemma LevelStep(raw: Qword, level: Level, xd: bool)
    ensures var f := Decode(raw);
            && (HasReservedBits(f, level, xd) <==>
                || ReservedBits(raw, xd) || (level.PML4? && PageSizeBit(raw))
                || (level.PDPT? && PageSizeBit(raw) && AddressBits(raw) % 0x4000_0000 != 0)
                || (level.PD? && PageSizeBit(raw) && AddressBits(raw) % 0x20_0000 != 0))
            && (IsLeaf(f, level) <==> level.PT? || (!level.PML4? && PageSizeBit(raw)))
            && (IsLeaf(f, level) && !HasReservedBits(f, level, xd) ==> FrameOf(f, level) == AddressBits(raw))
  {
    EntryBits(raw, xd);
    hide Decode, ReservedBits, PageSizeBit;
    var f := Decode(raw);
    if IsLeaf(f, level) && !HasReservedBits(f, level, xd) {
      AddressIsPage(raw);
      AlignedFrame(f.address, level.Span());
    }
    hide AddressBits;
  }

  lemma AddressIsPage(raw: Qword)
    ensures AddressBits(raw) % 0x1000 == 0
  {
  }

  lemma Restricts(path: seq<Qword>, raw: Qword)
    ensures Restrict(PathPermissions(path), Decode(raw)) == PathPermissions(path + [raw])
  {
    EntryBits(raw, true);
    hide Decode;
    var longer := path + [raw];
    assert longer[|path|] == raw && forall i :: 0 <= i < |path| ==> longer[i] == path[i];
  }

  lemma OneLevelIs(mem: Memory, xd: bool, e4: Qword, e3: Qword, e2: Qword, va: Qword)
    ensures Walk(mem, xd, AddressBits(e2), va, PT, PathPermissions([e4, e3, e2])) == OneLevel(mem, xd, e4, e3, e2, va)
  {
    hide Decode, ReservedBits, PageSizeBit, PresentBit, AddressBits, PathPermissions, HasReservedBits, Restrict, FrameOf, IsLeaf;
    var a1 := AddressBits(e2) + 8 * (va / 0x1000 % 512);
    if ContainsRange(mem, a1, 8) {
      var e1 := LoadEntry(mem, a1);
      EntryBits(e1, xd);
      LevelStep(e1, PT, xd);
      Restricts([e4, e3, e2], e1);
      assert [e4, e3, e2] + [e1] == [e4, e3, e2, e1];
    }
  }

  lemma TwoLevelsIs(mem: Memory, xd: bool, e4: Qword, e3: Qword, va: Qword)
    ensures Walk(mem, xd, AddressBits(e3), va, PD, PathPermissions([e4, e3])) == TwoLevels(mem, xd, e4, e3, va)
  {
    hide Decode, ReservedBits, PageSizeBit, PresentBit, AddressBits, PathPermissions, HasReservedBits, Restrict, FrameOf, IsLeaf, OneLevel;
    var a2 := AddressBits(e3) + 8 * (va / 0x20_0000 % 512);
    if ContainsRange(mem, a2, 8) {
      var e2 := LoadEntry(mem, a2);
      EntryBits(e2, xd);
      LevelStep(e2, PD, xd);
      Restricts([e4, e3], e2);
      assert [e4, e3] + [e2] == [e4, e3, e2];
      OneLevelIs(mem, xd, e4, e3, e2, va);
    }
  }

  lemma ThreeLevelsIs(mem: Memory, xd: bool, e4: Qword, va: Qword)
    ensures Walk(mem, xd, AddressBits(e4), va, PDPT, PathPermissions([e4])) == ThreeLevels(mem, xd, e4, va)
  {
    hide Decode, ReservedBits, PageSizeBit, PresentBit, AddressBits, PathPermissions, HasReservedBits, Restrict, FrameOf, IsLeaf, TwoLevels;
    var a3 := AddressBits(e4) + 8 * (va / 0x4000_0000 % 512);
    if ContainsRange(mem, a3, 8) {
      var e3 := LoadEntry(mem, a3);
      EntryBits(e3, xd);
      LevelStep(e3, PDPT, xd);
      Restricts([e4], e3);
      assert [e4] + [e3] == [e4, e3];
      TwoLevelsIs(mem, xd, e4, e3, va);
    }
  }

  /** The recursive walk is the walk of the manual, for every memory and address. */
  lemma WalkIsFourLevels(mem: Memory, xd: bool, root: nat, va: Qword)
    ensures Walk(mem, xd, root, va, PML4, TABLE_PERMISSIONS) == FourLevels(mem, xd, root, va)
  {
    NoPath();
    hide Decode, ReservedBits, PageSizeBit, PresentBit, AddressBits, PathPermissions, HasReservedBits, Restrict, FrameOf, IsLeaf, ThreeLevels;
    var a4 := root + 8 * (va / 0x80_0000_0000 % 512);
    if ContainsRange(mem, a4, 8) {
      var e4 := LoadEntry(mem, a4);
      EntryBits(e4, xd);
      LevelStep(e4, PML4, xd);
      Restricts([], e4);
      assert [] + [e4] == [e4];
      ThreeLevelsIs(mem, xd, e4, va);
    }
  }

  lemma NoPath()
    ensures PathPermissions([]) == TABLE_PERMISSIONS
  {
  }

  // ---------- The bits an access sets ----------

  /** The entries that a walk goes through, in order; the leaf is the last if the address is mapped. */
  function Passed(mem: Memory, xd: bool, table: nat, va: Qword, level: Level): seq<nat>
    decreases level.Rank()
  {
    var a := EntryAddress(table, va, level);
    if !ContainsRange(mem, a, 8) then []
    else
      var f := Decode(LoadEntry(mem, a));
      if !f.present || HasReservedBits(f, level, xd) then []
      else if IsLeaf(f, level) then [a]
      else [a] + Passed(mem, xd, f.address, va, level.Child())
  }

  /** The entries that an access marks: all it goes through, without the leaf if the access is refused there. */
  function MarkedEntries(mem: Memory, ps: PagingState, table: nat, va: Qword, level: Level, translated: bool, mapped: bool): seq<nat>
  {
    var passed := Passed(mem, ps.executeDisable, table, va, level);
    if mapped && !translated && passed != [] then passed[..|passed| - 1] else passed
  }

  /** A raw entry with its accessed bit, and its dirty bit, set. */
  function MarkedRaw(raw: Qword, accessed: bool, dirty: bool): int
  {
    raw + (if accessed && raw / 0x20 % 2 == 0 then 0x20 else 0) + (if dirty && raw / 0x40 % 2 == 0 then 0x40 else 0)
  }

  /** The accessed bit is set in these entries and in no other, the dirty bit in that one entry; no other bit changes. */
  ghost predicate MarksExactly(before: Memory, after: Memory, accessed: seq<nat>, dirtied: Option<nat>)
  {
    && |after| == |before|
    && forall a: nat {:trigger LoadEntry(after, a)} :: a % 8 == 0 && ContainsRange(before, a, 8) ==>
         LoadEntry(after, a) == MarkedRaw(LoadEntry(before, a), a in accessed, dirtied == Some(a))
  }

  lemma MarkedTwice(raw: Qword, accessed: bool, dirty: bool, more: bool, dirtier: bool)
    ensures 0 <= MarkedRaw(raw, accessed, dirty) < TWO_64
    ensures MarkedRaw(MarkedRaw(raw, accessed, dirty), more, dirtier) == MarkedRaw(raw, accessed || more, dirty || dirtier)
  {
    var r32 := if accessed then Set(raw, 0x20) else raw;
    SetAccessedDecodes(raw);
    SetDirtyDecodes(raw);
    SetDirtyDecodes(r32);
    BitsAre(raw);
    BitsAre(r32);
    var marked := if dirty then Set(r32, 0x40) else r32;
    BitsAre(marked);
    assert marked == MarkedRaw(raw, accessed, dirty);
    hide Decode, Bit;
  }

  lemma BitsAre(raw: Qword)
    ensures Decode(raw).accessed == (raw / 0x20 % 2 == 1) && Decode(raw).dirty == (raw / 0x40 % 2 == 1)
    ensures Bit(raw, 0x20) == (raw / 0x20 % 2 == 1) && Bit(raw, 0x40) == (raw / 0x40 % 2 == 1)
  {
  }

  lemma MarkedIs(raw: Qword, leaf: bool, kind: AccessKind)
    ensures Marked(raw, leaf, kind) == MarkedRaw(raw, true, leaf && kind == WRITE)
  {
    SetAccessedDecodes(raw);
    BitsAre(raw);
    BitsAre(Set(raw, 0x20));
    hide Decode, Bit;
  }

  lemma StoreMarks(mem: Memory, a: nat, leaf: bool, kind: AccessKind)
    requires ContainsRange(mem, a, 8) && a % 8 == 0
    ensures MarksExactly(mem, StoreEntry(mem, a, Marked(LoadEntry(mem, a), leaf, kind)), [a], if leaf && kind == WRITE then Some(a) else None)
  {
    hide LoadEntry, StoreEntry, Marked, MarkedRaw;
    var raw := LoadEntry(mem, a);
    MarkedIs(raw, leaf, kind);
    forall b: nat | b % 8 == 0 && ContainsRange(mem, b, 8)
      ensures LoadEntry(StoreEntry(mem, a, Marked(raw, leaf, kind)), b)
              == MarkedRaw(LoadEntry(mem, b), b in [a], (if leaf && kind == WRITE then Some(a) else None) == Some(b))
    {
      EntryAfterStore(mem, a, Marked(raw, leaf, kind), b);
      NotMarked(LoadEntry(mem, b));
    }
  }

  lemma NotMarked(raw: Qword)
    ensures MarkedRaw(raw, false, false) == raw
  {
  }

  lemma NothingMarked(mem: Memory)
    ensures MarksExactly(mem, mem, [], None)
  {
    hide MarkedRaw, LoadEntry;
    forall a: nat | a % 8 == 0 && ContainsRange(mem, a, 8)
      ensures LoadEntry(mem, a) == MarkedRaw(LoadEntry(mem, a), a in [], None == Some(a))
    {
      NotMarked(LoadEntry(mem, a));
    }
  }

  lemma MarksTwice(m0: Memory, m1: Memory, m2: Memory, first: seq<nat>, second: seq<nat>, dirtied: Option<nat>)
    requires MarksExactly(m0, m1, first, None) && MarksExactly(m1, m2, second, dirtied)
    ensures MarksExactly(m0, m2, first + second, dirtied)
  {
    hide MarkedRaw, LoadEntry;
    forall a: nat | a % 8 == 0 && ContainsRange(m0, a, 8)
      ensures LoadEntry(m2, a) == MarkedRaw(LoadEntry(m0, a), a in first + second, dirtied == Some(a))
    {
      MarkedTwice(LoadEntry(m0, a), a in first, false, a in second, dirtied == Some(a));
      assert LoadEntry(m1, a) == MarkedRaw(LoadEntry(m0, a), a in first, None == Some(a));
    }
  }

  /** Accessed and dirty bits do not change where a walk goes. */
  lemma {:induction false} MarksKeepPassed(before: Memory, after: Memory, xd: bool, table: nat, va: Qword, level: Level)
    requires OnlyMarks(before, after) && table % 8 == 0
    ensures Passed(after, xd, table, va, level) == Passed(before, xd, table, va, level)
    decreases level.Rank()
  {
    hide Decode, HasReservedBits, FrameOf, TableIndex, LoadEntry;
    var a := EntryAddress(table, va, level);
    if ContainsRange(before, a, 8) {
      var f, g := Decode(LoadEntry(before, a)), Decode(LoadEntry(after, a));
      assert WithoutMarks(f) == WithoutMarks(g);
      MarksMeanNothing(f, g, level, xd);
      AddressAligned(LoadEntry(before, a));
      if f.present && !HasReservedBits(f, level, xd) && !IsLeaf(f, level) {
        MarksKeepPassed(before, after, xd, f.address, va, level.Child());
      }
    }
  }

  ghost predicate AccessMarks(mem: Memory, ps: PagingState, table: nat, va: Qword, level: Level, permissions: Permissions, kind: AccessKind,
                              privilege: Privilege)
  {
    var (after, outcome) := TranslateFrom(mem, ps, table, va, level, permissions, kind, privilege);
    var walked := Walk(mem, ps.executeDisable, table, va, level, permissions);
    && (outcome.Translated? ==> walked.Mapped?)
    && MarksExactly(mem, after, MarkedEntries(mem, ps, table, va, level, outcome.Translated?, walked.Mapped?),
                    if outcome.Translated? && kind == WRITE then Some(walked.leaf.entryAddress) else None)
  }

  lemma {:induction false} FromMarks(mem: Memory, ps: PagingState, table: nat, va: Qword, level: Level, permissions: Permissions,
                                     kind: AccessKind, privilege: Privilege)
    requires table % 8 == 0
    ensures AccessMarks(mem, ps, table, va, level, permissions, kind, privilege)
    decreases level.Rank()
  {
    hide *;
    var a := EntryAddress(table, va, level);
    if Descends(mem, ps, a, level) {
      DescentKeepsAlignment(mem, ps, table, va, level);
      var f := Decode(LoadEntry(mem, a));
      var mem1 := StoreEntry(mem, a, Marked(LoadEntry(mem, a), false, kind));
      FromMarks(mem1, ps, f.address, va, level.Child(), Restrict(permissions, f), kind, privilege);
      MarksOnDescent(mem, ps, table, va, level, permissions, kind, privilege);
    } else {
      MarksAtEnd(mem, ps, table, va, level, permissions, kind, privilege);
    }
  }

  lemma MarksOnDescent(mem: Memory, ps: PagingState, table: nat, va: Qword, level: Level, permissions: Permissions, kind: AccessKind,
                       privilege: Privilege)
    requires table % 8 == 0 && Descends(mem, ps, EntryAddress(table, va, level), level)
    requires var a := EntryAddress(table, va, level);
             var f := Decode(LoadEntry(mem, a));
             AccessMarks(StoreEntry(mem, a, Marked(LoadEntry(mem, a), false, kind)), ps, f.address, va, level.Child(), Restrict(permissions, f),
                         kind, privilege)
    ensures AccessMarks(mem, ps, table, va, level, permissions, kind, privilege)
  {
    hide *;
    var a := EntryAddress(table, va, level);
    var f := Decode(LoadEntry(mem, a));
    var p := Restrict(permissions, f);
    var mem1 := StoreEntry(mem, a, Marked(LoadEntry(mem, a), false, kind));
    DescentKeepsAlignment(mem, ps, table, va, level);
    Descent(mem, ps, table, va, level, permissions, kind, privilege);
    MarkingOnlyMarks(mem, a, false, kind);
    StoreMarks(mem, a, false, kind);
    MarksKeepPassed(mem, mem1, ps.executeDisable, f.address, va, level.Child());
    MarksKeepWalk(mem, mem1, ps.executeDisable, f.address, va, level.Child(), p);
    PassedToLeaf(mem, ps.executeDisable, f.address, va, level.Child(), p);
    var (after, outcome) := TranslateFrom(mem1, ps, f.address, va, level.Child(), p, kind, privilege);
    ChildMarks(mem, mem1, after, outcome, ps, table, va, level, permissions, kind, privilege);
  }

  /** One level of the walk that goes down. */
  lemma Descent(mem: Memory, ps: PagingState, table: nat, va: Qword, level: Level, permissions: Permissions, kind: AccessKind, privilege: Privilege)
    requires Descends(mem, ps, EntryAddress(table, va, level), level)
    ensures var a := EntryAddress(table, va, level);
            var f := Decode(LoadEntry(mem, a));
            var p := Restrict(permissions, f);
            var mem1 := StoreEntry(mem, a, Marked(LoadEntry(mem, a), false, kind));
            && TranslateFrom(mem, ps, table, va, level, permissions, kind, privilege)
               == TranslateFrom(mem1, ps, f.address, va, level.Child(), p, kind, privilege)
            && Walk(mem, ps.executeDisable, table, va, level, permissions) == Walk(mem, ps.executeDisable, f.address, va, level.Child(), p)
            && Passed(mem, ps.executeDisable, table, va, level) == [a] + Passed(mem, ps.executeDisable, f.address, va, level.Child())
  {
    hide Decode, HasReservedBits, FrameOf, TableIndex, LoadEntry, StoreEntry, Marked, Denial;
  }

  lemma ChildMarks(mem: Memory, mem1: Memory, after: Memory, outcome: Outcome, ps: PagingState, table: nat, va: Qword, level: Level,
                   permissions: Permissions, kind: AccessKind, privilege: Privilege)
    requires ContainsRange(mem, EntryAddress(table, va, level), 8) && !level.PT?
    requires var a := EntryAddress(table, va, level);
             var f := Decode(LoadEntry(mem, a));
             var p := Restrict(permissions, f);
             && TranslateFrom(mem, ps, table, va, level, permissions, kind, privilege) == (after, outcome)
             && TranslateFrom(mem1, ps, f.address, va, level.Child(), p, kind, privilege) == (after, outcome)
             && Walk(mem, ps.executeDisable, table, va, level, permissions) == Walk(mem, ps.executeDisable, f.address, va, level.Child(), p)
             && Walk(mem1, ps.executeDisable, f.address, va, level.Child(), p) == Walk(mem, ps.executeDisable, f.address, va, level.Child(), p)
             && Passed(mem, ps.executeDisable, table, va, level) == [a] + Passed(mem, ps.executeDisable, f.address, va, level.Child())
             && Passed(mem1, ps.executeDisable, f.address, va, level.Child()) == Passed(mem, ps.executeDisable, f.address, va, level.Child())
             && AccessMarks(mem1, ps, f.address, va, level.Child(), p, kind, privilege)
             && MarksExactly(mem, mem1, [a], None)
             && (Walk(mem, ps.executeDisable, f.address, va, level.Child(), p).Mapped? ==>
                   Passed(mem, ps.executeDisable, f.address, va, level.Child()) != [])
    ensures AccessMarks(mem, ps, table, va, level, permissions, kind, privilege)
  {
    hide Decode, HasReservedBits, FrameOf, TableIndex, LoadEntry, MarksExactly, TranslateFrom, Walk, Passed;
    var a := EntryAddress(table, va, level);
    var f := Decode(LoadEntry(mem, a));
    var walked := Walk(mem, ps.executeDisable, table, va, level, permissions);
    var passed := Passed(mem, ps.executeDisable, f.address, va, level.Child());
    var rest := MarkedEntries(mem1, ps, f.address, va, level.Child(), outcome.Translated?, walked.Mapped?);
    MarksTwice(mem, mem1, after, [a], rest, if outcome.Translated? && kind == WRITE then Some(walked.leaf.entryAddress) else None);
    assert passed != [] ==> ([a] + passed)[..|passed|] == [a] + passed[..|passed| - 1];
  }

  /** A mapped address is reached through its leaf, which comes last. */
  lemma {:induction false} PassedToLeaf(mem: Memory, xd: bool, table: nat, va: Qword, level: Level, permissions: Permissions)
    ensures var walked, passed := Walk(mem, xd, table, va, level, permissions), Passed(mem, xd, table, va, level);
            walked.Mapped? ==> passed != [] && passed[|passed| - 1] == walked.leaf.entryAddress
    decreases level.Rank()
  {
    hide Decode, HasReservedBits, FrameOf, TableIndex, LoadEntry;
    var a := EntryAddress(table, va, level);
    if ContainsRange(mem, a, 8) {
      var f := Decode(LoadEntry(mem, a));
      if f.present && !HasReservedBits(f, level, xd) && !IsLeaf(f, level) {
        PassedToLeaf(mem, xd, f.address, va, level.Child(), Restrict(permissions, f));
      }
    }
  }

  lemma MarksAtEnd(mem: Memory, ps: PagingState, table: nat, va: Qword, level: Level, permissions: Permissions, kind: AccessKind,
                   privilege: Privilege)
    requires table % 8 == 0 && !Descends(mem, ps, EntryAddress(table, va, level), level)
    ensures AccessMarks(mem, ps, table, va, level, permissions, kind, privilege)
  {
    hide Decode, HasReservedBits, FrameOf, TableIndex, LoadEntry, StoreEntry, Marked, MarksExactly, Denial, PageBase, ErrorCode, Level.Span;
    NothingMarked(mem);
    var a := EntryAddress(table, va, level);
    if ContainsRange(mem, a, 8) {
      StoreMarks(mem, a, true, kind);
    }
  }

  /**
   Exactly which bits an access sets, for every memory, even if its tables refer to themselves: the accessed bits of the
   entries it goes through, the leaf included unless the access is refused there, and for a write that is allowed the dirty bit
   of the leaf. No other bit of memory changes.
   */
  lemma AccessMarksExactly(mem: Memory, ps: PagingState, va: Qword, kind: AccessKind, privilege: Privilege)
    requires IsCanonical(va) && ps.cr3 % PAGE_4K == 0
    ensures var (after, outcome) := Translate(mem, ps, va, kind, privilege);
            var walked, passed := WalkRoot(mem, ps, va), Passed(mem, ps.executeDisable, ps.cr3, va, PML4);
            && (walked.Mapped? ==> passed != [] && passed[|passed| - 1] == walked.leaf.entryAddress)
            && (outcome.Translated? ==>
                  walked.Mapped? && MarksExactly(mem, after, passed, if kind == WRITE then Some(walked.leaf.entryAddress) else None))
            && (!outcome.Translated? ==> MarksExactly(mem, after, if walked.Mapped? then passed[..|passed| - 1] else passed, None))
  {
    PageAligned(ps.cr3);
    hide TranslateFrom, Walk, MarksExactly, Passed, IsCanonical;
    FromMarks(mem, ps, ps.cr3, va, PML4, TABLE_PERMISSIONS, kind, privilege);
    PassedToLeaf(mem, ps.executeDisable, ps.cr3, va, PML4, TABLE_PERMISSIONS);
  }
}
