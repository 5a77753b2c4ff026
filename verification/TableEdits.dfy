/** The page-table builder as a source of TLB edits: which invalidation each kind of mapping needs. */
module TableEdits {
  import opened Arithmetic
  import opened MemoryBus
  import opened Results
  import opened Paging
  import opened PageTableWalker
  import opened PageTableBuilder
  import opened PageMap
  import opened Tlb
  import opened Mmu
  import opened TlbInvisibility
  import opened TlbRuns

  /** Addresses outside the piece of the changed entry keep their marks too. */
  lemma {:induction false} PathElsewhere(t: Tables, after: Memory, root: nat, tree: Tree, table: nat, i: nat,
                                        c: nat, va: Qword, xd: bool)
    requires WellFormed(t, root, tree) && table in tree && i < 512 && SameExcept(t.mem, after, tree, table, i)
    requires c in tree && tree[c].piece == TablePiece(va, tree[c].level)
    requires Piece(va, tree[table].level) != 512 * tree[table].piece + i
    ensures PathAccessed(after, xd, c, va, tree[c].level) == PathAccessed(t.mem, xd, c, va, tree[c].level)
    ensures var walked := Walk(t.mem, xd, c, va, tree[c].level, TABLE_PERMISSIONS);
            LeafDirty(walked, after) == LeafDirty(walked, t.mem)
    decreases tree[c].level.Rank()
  {
    hide Decode, Piece, TableIndex, HasReservedBits, FrameOf, LoadEntry, WellFormed, SameExcept;
    var node := tree[c];
    EntryPiece(va, node.level);
    var j := TableIndex(va, node.level);
    SameAt(t.mem, after, tree, table, i, c, j);
    EntryIsOk(t, root, tree, c, j);
    var f := Entry(t.mem, c, j);
    if f.present && !IsLeaf(f, node.level) {
      LinkIsFollowed(f, node.level, xd);
      PathElsewhere(t, after, root, tree, table, i, f.address, va, xd);
    }
  }

  lemma TraceElsewhere(t: Tables, after: Memory, root: nat, tree: Tree, table: nat, i: nat, va: Qword, xd: bool)
    requires WellFormed(t, root, tree) && table in tree && i < 512 && SameExcept(t.mem, after, tree, table, i)
    requires Piece(va, tree[table].level) != 512 * tree[table].piece + i
    ensures TraceKept(t.mem, after, xd, root, va)
  {
    hide WellFormed, SameExcept, Walk, PathAccessed, LeafDirty, Piece, TablePiece;
    RootIsOnEveryPath(t, root, tree, va);
    RootInTree(t, root, tree);
    WalkElsewhere(t, after, root, tree, table, i, root, va, xd);
    PathElsewhere(t, after, root, tree, table, i, root, va, xd);
  }

  /** An edit of one entry that was not present changes no mapped address. */
  lemma AbsentEntryEdit(t: Tables, after: Memory, root: nat, tree: Tree, table: nat, i: nat, va: Qword, xd: bool)
    requires WellFormed(t, root, tree) && table in tree && i < 512 && SameExcept(t.mem, after, tree, table, i)
    requires ContainsRange(t.mem, table, PAGE_4K) && !Entry(t.mem, table, i).present
    requires Walk(t.mem, xd, root, va, PML4, TABLE_PERMISSIONS).Mapped?
    ensures TraceKept(t.mem, after, xd, root, va)
  {
    hide WellFormed, SameExcept, PathAccessed, LeafDirty, Piece, TablePiece, TableIndex, Decode, LoadEntry, TraceKept, FrameOf,
         HasReservedBits;
    var level := tree[table].level;
    if Piece(va, level) == 512 * tree[table].piece + i {
      EntryPiece(va, level);
      WalkReaches(t, root, tree, table, va, xd);
      assert false;
    } else {
      TraceElsewhere(t, after, root, tree, table, i, va, xd);
    }
  }

  /** An address is mapped, by an entry at this level. */
  predicate LeafMaps(mem: Memory, xd: bool, root: nat, leaf: Level, va: Qword)
  {
    var walked := Walk(mem, xd, root, va, PML4, TABLE_PERMISSIONS);
    walked.Mapped? && walked.leaf.level == leaf
  }

  /** Mapped addresses keep their translations, outside the page or everywhere if the page was not mapped. */
  ghost predicate MappedKept(before: Memory, after: Memory, root: nat, leaf: Level, va: Qword)
  {
    forall other: Qword, xd {:trigger TraceKept(before, after, xd, root, other)} ::
      && Walk(before, xd, root, other, PML4, TABLE_PERMISSIONS).Mapped?
      && (Piece(other, leaf) != Piece(va, leaf) || !LeafMaps(before, xd, root, leaf, va)) ==>
        TraceKept(before, after, xd, root, other)
  }

  lemma MappedKeptTwice(m0: Memory, m1: Memory, m2: Memory, root: nat, leaf: Level, va: Qword)
    requires MappedKept(m0, m1, root, leaf, va) && MappedKept(m1, m2, root, leaf, va)
    requires forall xd :: LeafMaps(m1, xd, root, leaf, va) ==> LeafMaps(m0, xd, root, leaf, va)
    ensures MappedKept(m0, m2, root, leaf, va)
  {
    hide Walk, PathAccessed, LeafDirty, Piece, LeafMaps;
    forall other: Qword, xd |
      && Walk(m0, xd, root, other, PML4, TABLE_PERMISSIONS).Mapped?
      && (Piece(other, leaf) != Piece(va, leaf) || !LeafMaps(m0, xd, root, leaf, va))
      ensures TraceKept(m0, m2, xd, root, other)
    {
      assert TraceKept(m0, m1, xd, root, other);
      assert TraceKept(m1, m2, xd, root, other);
    }
  }

  lemma NothingKept(mem: Memory, root: nat, leaf: Level, va: Qword)
    ensures MappedKept(mem, mem, root, leaf, va)
  {
    hide Walk, PathAccessed, LeafDirty, Piece, LeafMaps;
  }

  lemma EnsureChildKeeps(t: Tables, root: nat, tree: Tree, arenaEnd: nat, table: nat, leaf: Level, va: Qword)
    requires WellFormed(t, root, tree) && table in tree && !tree[table].level.PT?
    requires tree[table].piece == TablePiece(va, tree[table].level)
    ensures MappedKept(t.mem, EnsureChild(t, arenaEnd, table, va, tree[table].level).0.mem, root, leaf, va)
  {
    TableInRange(t, root, tree, table);
    hide WellFormed, Walk, TraceKept, Piece, TablePiece, TableIndex, HasRoomForTable;
    var level := tree[table].level;
    var i := TableIndex(va, level);
    NothingKept(t.mem, root, leaf, va);
    if Entry(t.mem, table, i).present {
      OldChildStep(t, root, tree, arenaEnd, table, va);
    } else if HasRoomForTable(t, arenaEnd) {
      NewTable(t, root, tree, arenaEnd, table, va);
      hide EnsureChild;
      var after := EnsureChild(t, arenaEnd, table, va, level).0.mem;
      forall other: Qword, xd | Walk(t.mem, xd, root, other, PML4, TABLE_PERMISSIONS).Mapped?
        ensures TraceKept(t.mem, after, xd, root, other)
      {
        AbsentEntryEdit(t, after, root, tree, table, i, other, xd);
      }
    } else {
      NoChildStep(t, arenaEnd, table, va, level);
    }
  }

  /** Where a leaf may be written, all addresses of its page are mapped by it or none is mapped. */
  lemma PageMapsAll(t: Tables, root: nat, tree: Tree, table: nat, va: Qword, level: Level, raw: Qword, other: Qword, xd: bool)
    requires WellFormed(t, root, tree) && table in tree && tree[table].level == level && !level.PML4?
    requires tree[table].piece == TablePiece(va, level) && WriteLeaf(t, table, va, level, raw).1.Ok?
    requires Walk(t.mem, xd, root, other, PML4, TABLE_PERMISSIONS).Mapped? && Piece(other, level) == Piece(va, level)
    ensures LeafMaps(t.mem, xd, root, level, va)
  {
    hide WellFormed, Piece, TablePiece, TableIndex, Decode, LoadEntry, FrameOf, HasReservedBits, StoreEntry;
    EntryPiece(va, level);
    EntryPiece(other, level);
    assert TableIndex(other, level) == TableIndex(va, level) && TablePiece(other, level) == TablePiece(va, level);
    WalkReaches(t, root, tree, table, va, xd);
    WalkReaches(t, root, tree, table, other, xd);
  }

  lemma LeafKeeps(t: Tables, root: nat, tree: Tree, table: nat, va: Qword, level: Level, pa: Qword, permissions: Permissions)
    requires WellFormed(t, root, tree) && table in tree && tree[table].level == level && !level.PML4?
    requires tree[table].piece == TablePiece(va, level) && pa % level.Span() == 0
    ensures MappedKept(t.mem, WriteLeaf(t, table, va, level, MakeEntry(pa, permissions, !level.PT?)).0.mem, root, level, va)
  {
    hide WellFormed, Walk, TraceKept, Piece, TablePiece, TableIndex, WriteLeaf, SameExcept;
    LeafWritten(t, root, tree, table, va, level, pa, permissions);
    NothingKept(t.mem, root, level, va);
    EntryPiece(va, level);
    var raw := MakeEntry(pa, permissions, !level.PT?);
    var (t', r) := WriteLeaf(t, table, va, level, raw);
    if r.Ok? {
      forall other: Qword, xd |
        && Walk(t.mem, xd, root, other, PML4, TABLE_PERMISSIONS).Mapped?
        && (Piece(other, level) != Piece(va, level) || !LeafMaps(t.mem, xd, root, level, va))
        ensures TraceKept(t.mem, t'.mem, xd, root, other)
      {
        if Piece(other, level) == Piece(va, level) {
          PageMapsAll(t, root, tree, table, va, level, raw, other, xd);
          assert false;
        }
        TraceElsewhere(t, t'.mem, root, tree, table, TableIndex(va, level), other, xd);
      }
    }
  }

  lemma {:induction false} MapFromKeeps(t: Tables, root: nat, tree: Tree, arenaEnd: nat, table: nat, leaf: Level, va: Qword,
                                        pa: Qword, permissions: Permissions)
    requires WellFormed(t, root, tree) && table in tree && tree[table].piece == TablePiece(va, tree[table].level)
    requires !leaf.PML4? && leaf.Rank() <= tree[table].level.Rank() && pa % leaf.Span() == 0
    ensures MappedKept(t.mem, MapFrom(t, arenaEnd, table, tree[table].level, leaf, va,
                                      MakeEntry(pa, permissions, !leaf.PT?)).0.mem, root, leaf, va)
    decreases tree[table].level.Rank()
  {
    hide WellFormed, EnsureChild, WriteLeaf, Walk, Piece, TablePiece, MakeEntry, MappedKept;
    var at := tree[table].level;
    if at == leaf {
      LeafKeeps(t, root, tree, table, va, leaf, pa, permissions);
    } else {
      var tree1 := EnsureChildStep(t, root, tree, arenaEnd, table, va);
      EnsureChildKeeps(t, root, tree, arenaEnd, table, leaf, va);
      var (t1, r) := EnsureChild(t, arenaEnd, table, va, at);
      if r.Ok? {
        forall xd | LeafMaps(t1.mem, xd, root, leaf, va) ensures LeafMaps(t.mem, xd, root, leaf, va) {
          assert Walk(t1.mem, xd, root, va, PML4, TABLE_PERMISSIONS) == Walk(t.mem, xd, root, va, PML4, TABLE_PERMISSIONS);
        }
        MapFromKeeps(t1, root, tree1, arenaEnd, r.value, leaf, va, pa, permissions);
        MappedKeptTwice(t.mem, t1.mem, MapFrom(t1, arenaEnd, r.value, at.Child(), leaf, va,
                                               MakeEntry(pa, permissions, !leaf.PT?)).0.mem, root, leaf, va);
      }
    }
  }

  lemma MapKeeps(t: Tables, root: nat, tree: Tree, arenaEnd: nat, leaf: Level, va: Qword, pa: Qword, permissions: Permissions)
    requires WellFormed(t, root, tree) && !leaf.PML4?
    ensures MappedKept(t.mem, Map(t, arenaEnd, root, leaf, va, pa, permissions).0.mem, root, leaf, va)
  {
    RootIsOnEveryPath(t, root, tree, va);
    RootInTree(t, root, tree);
    hide WellFormed, MapFrom, Walk, Piece, TablePiece, MakeEntry, MappedKept;
    NothingKept(t.mem, root, leaf, va);
    if va % leaf.Span() == 0 && pa % leaf.Span() == 0 {
      MapFromKeeps(t, root, tree, arenaEnd, root, leaf, va, pa, permissions);
    }
  }

  /** The page of a canonical address is determined by its piece: both halves of the space are whole pages. */
  lemma PageFromPiece(va: Qword, span: nat, half: nat)
    requires IsCanonical(va) && span > 0 && half > 0 && span * half == 0x8000_0000_0000
    ensures va % TWO_48 / span < half <==> va < 0x8000_0000_0000
    ensures va - va % span == span * (va % TWO_48 / span) + if va < 0x8000_0000_0000 then 0 else TWO_64 - TWO_48
  {
    var x := va % TWO_48;
    assert span * (2 * half) == TWO_48;
    ModMod(va, span, 2 * half);
    assert x == span * (x / span) + x % span;
    MulOrder(span, half, x / span);
    MulOrder(span, x / span + 1, half);
  }

  lemma SamePieceSamePage(va: Qword, other: Qword, level: Level)
    requires IsCanonical(va) && IsCanonical(other) && !level.PML4? && Piece(va, level) == Piece(other, level)
    ensures PageBase(va, level) == PageBase(other, level)
  {
    var half := 0x8000_0000_0000 / level.Span();
    PageFromPiece(va, level.Span(), half);
    PageFromPiece(other, level.Span(), half);
  }
}
