/**
 What an address space forgets: when the builder throws, map_page keeps its old arena cursor, but tables
 that the builder had already linked stay linked.
 */
module AddressSpaceTables {
  import opened MemoryBus
  import opened Results
  import opened Paging
  import opened PageTableWalker
  import opened PageTableBuilder
  import opened PageMap
  import opened AddressSpace
  import PageMapRuns

  /** How many tables above the leaf the path of an address lacks. */
  function MissingTables(mem: Memory, table: nat, at: Level, leaf: Level, va: Qword): nat
    requires leaf.Rank() <= at.Rank()
    decreases at.Rank()
  {
    var a := EntryAddress(table, va, at);
    if at == leaf || !ContainsRange(mem, a, 8) then 0
    else
      var f := Decode(LoadEntry(mem, a));
      if !f.present then at.Rank() - leaf.Rank()
      else if IsLarge(f, at) then 0
      else MissingTables(mem, f.address, at.Child(), leaf, va)
  }

  /** On the path of an address a large page stands where a table is needed, or a table where the leaf is to go. */
  predicate Blocked(mem: Memory, table: nat, at: Level, leaf: Level, va: Qword)
    requires leaf.Rank() <= at.Rank()
    decreases at.Rank()
  {
    var a := EntryAddress(table, va, at);
    ContainsRange(mem, a, 8) &&
    var f := Decode(LoadEntry(mem, a));
    f.present && if at == leaf then !IsLeaf(f, at) else IsLarge(f, at) || Blocked(mem, f.address, at.Child(), leaf, va)
  }

  /** Table pages from the cursor to the end of the arena, or of memory if that comes first. */
  function PagesLeft(t: Tables, arenaEnd: nat): nat
  {
    var end := if arenaEnd == 0 || |t.mem| < arenaEnd then |t.mem| else arenaEnd;
    if end < t.next then 0 else (end - t.next) / PAGE_4K
  }

  function Least(a: nat, b: nat): nat
  {
    if a < b then a else b
  }

  lemma RoomIsPagesLeft(t: Tables, arenaEnd: nat)
    ensures HasRoomForTable(t, arenaEnd) <==> PagesLeft(t, arenaEnd) > 0
    ensures PagesLeft(t, arenaEnd) > 0 ==>
              forall mem: Memory :: |mem| == |t.mem| ==>
                PagesLeft(Tables(mem, t.next + PAGE_4K), arenaEnd) == PagesLeft(t, arenaEnd) - 1
  {
  }

  /** In any memory, the cursor of the builder moves exactly when a table is missing and there is room for one. */
  lemma {:induction false} CursorMovesIff(t: Tables, arenaEnd: nat, table: nat, at: Level, leaf: Level, va: Qword, raw: Qword)
    requires leaf.Rank() <= at.Rank()
    ensures MapFrom(t, arenaEnd, table, at, leaf, va, raw).0.next >= t.next
    ensures MapFrom(t, arenaEnd, table, at, leaf, va, raw).0.next != t.next <==>
            MissingTables(t.mem, table, at, leaf, va) > 0 && PagesLeft(t, arenaEnd) > 0
    decreases at.Rank()
  {
    hide Decode, LoadEntry, StoreEntry, ClearTable, EntryAddress, HasRoomForTable, PagesLeft;
    RoomIsPagesLeft(t, arenaEnd);
    if at != leaf {
      var (t1, child) := EnsureChild(t, arenaEnd, table, va, at);
      if child.Ok? {
        CursorMovesIff(t1, arenaEnd, child.value, at.Child(), leaf, va, raw);
      }
    }
  }

  /** One level of the builder: what is missing below, and what is left, after ensuring one table. */
  lemma EnsureChildTakes(t: Tables, root: nat, tree: Tree, arenaEnd: nat, table: nat, leaf: Level, va: Qword)
    requires WellFormed(t, root, tree) && table in tree && leaf.Rank() < tree[table].level.Rank()
    requires tree[table].piece == TablePiece(va, tree[table].level)
    ensures var at := tree[table].level;
            var (t1, child) := EnsureChild(t, arenaEnd, table, va, at);
            var missing, left := MissingTables(t.mem, table, at, leaf, va), PagesLeft(t, arenaEnd);
            && (child.Err? ==> t1 == t && (if child.error == LogicError then Blocked(t.mem, table, at, leaf, va) && missing == 0
                                           else child.error == OutOfRange && left == 0 < missing && !Blocked(t.mem, table, at, leaf, va)))
            && (child.Ok? && t1.next == t.next ==>
                  && t1 == t && missing == MissingTables(t.mem, child.value, at.Child(), leaf, va)
                  && Blocked(t.mem, table, at, leaf, va) == Blocked(t.mem, child.value, at.Child(), leaf, va))
            && (child.Ok? && t1.next != t.next ==>
                  && t1.next == t.next + PAGE_4K && left > 0 && PagesLeft(t1, arenaEnd) == left - 1
                  && missing == 1 + MissingTables(t1.mem, child.value, at.Child(), leaf, va)
                  && !Blocked(t.mem, table, at, leaf, va) && !Blocked(t1.mem, child.value, at.Child(), leaf, va))
  {
    hide WellFormed, Decode, LoadEntry, StoreEntry, ClearTable, HasRoomForTable, PagesLeft, TableIndex, TablePiece, MakeEntry;
    TableInRange(t, root, tree, table);
    RoomIsPagesLeft(t, arenaEnd);
    var at := tree[table].level;
    if !Entry(t.mem, table, TableIndex(va, at)).present && HasRoomForTable(t, arenaEnd) {
      NewTable(t, root, tree, arenaEnd, table, va);
      var t1 := EnsureChild(t, arenaEnd, table, va, at).0;
      assert !Entry(t1.mem, t.next, TableIndex(va, at.Child())).present;
    }
  }

  lemma BlockedNeedsNoTable(mem: Memory, table: nat, at: Level, leaf: Level, va: Qword)
    requires leaf.Rank() <= at.Rank()
    ensures Blocked(mem, table, at, leaf, va) ==> MissingTables(mem, table, at, leaf, va) == 0
    decreases at.Rank()
  {
    hide Decode, LoadEntry, EntryAddress;
  }

  /**
   The builder takes the missing tables as far as the arena goes, and succeeds exactly when they all fit and
   neither a large page nor a table is in the way.
   */
  lemma {:induction false} BuilderTakes(t: Tables, root: nat, tree: Tree, arenaEnd: nat, table: nat, leaf: Level, va: Qword, raw: Qword)
    requires WellFormed(t, root, tree) && table in tree && tree[table].piece == TablePiece(va, tree[table].level)
    requires leaf.Rank() <= tree[table].level.Rank()
    ensures var at := tree[table].level;
            var (t', r) := MapFrom(t, arenaEnd, table, at, leaf, va, raw);
            var missing, left := MissingTables(t.mem, table, at, leaf, va), PagesLeft(t, arenaEnd);
            && t'.next == t.next + PAGE_4K * Least(missing, left)
            && (r.Ok? <==> missing <= left && !Blocked(t.mem, table, at, leaf, va))
            && (r == Err(LogicError) <==> Blocked(t.mem, table, at, leaf, va))
            && (r == Err(OutOfRange) <==> left < missing)
    decreases tree[table].level.Rank()
  {
    hide WellFormed, EnsureChild, PagesLeft, TablePiece, Walk, Entry, MissingTables, Blocked, WriteLeaf;
    var at := tree[table].level;
    BlockedNeedsNoTable(t.mem, table, at, leaf, va);
    if at == leaf {
      AtLeaf(t, root, tree, arenaEnd, table, va, raw);
    } else {
      EnsureChildTakes(t, root, tree, arenaEnd, table, leaf, va);
      var tree1 := EnsureChildStep(t, root, tree, arenaEnd, table, va);
      var (t1, child) := EnsureChild(t, arenaEnd, table, va, at);
      if child.Ok? {
        BuilderTakes(t1, root, tree1, arenaEnd, child.value, leaf, va, raw);
      }
    }
  }

  lemma AtLeaf(t: Tables, root: nat, tree: Tree, arenaEnd: nat, table: nat, va: Qword, raw: Qword)
    requires WellFormed(t, root, tree) && table in tree
    ensures var at := tree[table].level;
            var (t', r) := WriteLeaf(t, table, va, at, raw);
            && MissingTables(t.mem, table, at, at, va) == 0 && t'.next == t.next
            && r == if Blocked(t.mem, table, at, at, va) then Err(LogicError) else Ok(())
  {
    TableInRange(t, root, tree, table);
  }

  /** map_4k, map_2m and map_1g succeed exactly for aligned addresses whose missing tables fit where nothing blocks the page; with the error otherwise. */
  lemma MapSucceedsIff(t: Tables, root: nat, tree: Tree, arenaEnd: nat, leaf: Level, va: Qword, pa: Qword, permissions: Permissions)
    requires WellFormed(t, root, tree) && !leaf.PML4?
    ensures var r := Map(t, arenaEnd, root, leaf, va, pa, permissions).1;
            var size := if leaf.PT? then 0x1000 else if leaf.PD? then 0x20_0000 else 0x4000_0000;
            var aligned := va % size == 0 && pa % size == 0;
            var fits := MissingTables(t.mem, root, PML4, leaf, va) <= PagesLeft(t, arenaEnd);
            && (r.Ok? <==> aligned && fits && !Blocked(t.mem, root, PML4, leaf, va))
            && (r == Err(LogicError) <==> aligned && Blocked(t.mem, root, PML4, leaf, va))
            && (r == Err(OutOfRange) <==> !aligned || !fits)
  {
    hide WellFormed, MapFrom, MissingTables, PagesLeft, Blocked, MakeEntry, TablePiece;
    RootIsOnEveryPath(t, root, tree, va);
    RootInTree(t, root, tree);
    BuilderTakes(t, root, tree, arenaEnd, root, leaf, va, MakeEntry(pa, permissions, !leaf.PT?));
  }

  /** A mapped address lacks no table, and has a large page in its way exactly when one maps it. */
  lemma {:induction false} MappedNeedsNoTable(mem: Memory, xd: bool, table: nat, at: Level, va: Qword, permissions: Permissions)
    requires Walk(mem, xd, table, va, at, permissions).Mapped?
    ensures MissingTables(mem, table, at, PT, va) == 0
    ensures Blocked(mem, table, at, PT, va) <==> Walk(mem, xd, table, va, at, permissions).leaf.level != PT
    decreases at.Rank()
  {
    hide Decode, LoadEntry, EntryAddress, FrameOf, HasReservedBits;
    var a := EntryAddress(table, va, at);
    var f := Decode(LoadEntry(mem, a));
    if !IsLeaf(f, at) {
      MappedNeedsNoTable(mem, xd, f.address, at.Child(), va, Restrict(permissions, f));
    }
  }

  /** A call that needs no table does not depend on the cursor. */
  lemma {:induction false} CursorUnused(t: Tables, next: nat, arenaEnd: nat, table: nat, at: Level, va: Qword, raw: Qword)
    requires MissingTables(t.mem, table, at, PT, va) == 0
    ensures var (t', r) := MapFrom(t, arenaEnd, table, at, PT, va, raw);
            MapFrom(t.(next := next), arenaEnd, table, at, PT, va, raw) == (t'.(next := next), r) && t'.next == t.next
    decreases at.Rank()
  {
    hide Decode, LoadEntry, StoreEntry, ClearTable, EntryAddress, HasRoomForTable;
    if at != PT {
      var (t1, child) := EnsureChild(t, arenaEnd, table, va, at);
      if child.Ok? {
        CursorUnused(t1, next, arenaEnd, child.value, at.Child(), va, raw);
      }
    }
  }

  /** Any two trees for the same memory and root agree on the tables of the first. */
  lemma {:induction false} SameTables(t: Tables, next: nat, root: nat, tree: Tree, other: Tree, c: nat)
    requires WellFormed(t, root, tree) && WellFormed(Tables(t.mem, next), root, other) && c in tree
    ensures c in other && other[c].level == tree[c].level && other[c].piece == tree[c].piece
    decreases 4 - tree[c].level.Rank()
  {
    hide Decode, LoadEntry, HasReservedBits, WellFormed;
    LinkIsOk(t, root, tree, c);
    RootInTree(t, root, tree);
    RootInTree(Tables(t.mem, next), root, other);
    if c == root {
      LinkIsOk(Tables(t.mem, next), root, other, root);
    } else {
      var node := tree[c];
      SameTables(t, next, root, tree, other, node.parent);
      EntryIsOk(Tables(t.mem, next), root, other, node.parent, node.piece % 512);
    }
  }

  /**
   map_page leaves the tables in order exactly when the arena does not run out half way, which a caller
   can see beforehand: if the arena holds some of the missing tables and not all of them, the pages
   that the builder linked lie beyond the cursor that the address space keeps.
   */
  lemma MapPageForgetsIff(t: Tables, root: nat, tree: Tree, arenaEnd: nat, va: Qword, pa: Qword, permissions: Permissions)
    requires WellFormed(t, root, tree) && va % PAGE_4K == 0 && pa % PAGE_4K == 0
    ensures var missing, left := MissingTables(t.mem, root, PML4, PT, va), PagesLeft(t, arenaEnd);
            && ((exists tree' :: WellFormed(MapOnePage(t, arenaEnd, root, va, pa, permissions).0, root, tree')) <==>
                !(0 < left < missing))
            && (Map(t, arenaEnd, root, PT, va, pa, permissions).1.Ok? <==>
                missing <= left && !Blocked(t.mem, root, PML4, PT, va))
  {
    hide WellFormed, MapFrom, MissingTables, PagesLeft, Blocked, MakeEntry, SameWalks, Walk, TablePiece;
    RootIsOnEveryPath(t, root, tree, va);
    RootInTree(t, root, tree);
    BuilderTakes(t, root, tree, arenaEnd, root, PT, va, MakeEntry(pa, permissions, false));
    BlockedNeedsNoTable(t.mem, root, PML4, PT, va);
    var tree', a := MapStep(t, root, tree, arenaEnd, PT, va, pa, permissions);
    var t' := Map(t, arenaEnd, root, PT, va, pa, permissions).0;
    var after := MapOnePage(t, arenaEnd, root, va, pa, permissions).0;
    if after == t' {
      assert WellFormed(after, root, tree');
    } else {
      forall other: Tree ensures !WellFormed(after, root, other) {
        if WellFormed(after, root, other) {
          ForgottenIsFatal(t, t', root, tree, tree', other);
        }
      }
    }
  }

  lemma ForgottenIsFatal(t: Tables, t': Tables, root: nat, tree: Tree, tree': Tree, other: Tree)
    requires WellFormed(t', root, tree') && Grew(t, t', tree, tree') && t'.next != t.next
    ensures !WellFormed(Tables(t'.mem, t.next), root, other)
  {
    hide WellFormed;
    if WellFormed(Tables(t'.mem, t.next), root, other) {
      SameTables(t', t.next, root, tree', other, t.next);
      TableInRange(Tables(t'.mem, t.next), root, other, t.next);
      assert false;
    }
  }

  // ---------- A forgotten table is handed out again ----------

  function Link(table: nat): Fields
  {
    Fields(true, true, true, false, false, false, false, false, table)
  }

  /** Every entry of every page is the same, except those of a new table, which are absent, and one entry. */
  ghost predicate EntriesAfter(before: Memory, after: Memory, cleared: Option<nat>, table: nat, i: nat, f: Fields)
  {
    && |after| == |before|
    && forall c: nat, j: nat {:trigger Entry(after, c, j)} :: c % PAGE_4K == 0 && ContainsRange(before, c, PAGE_4K) && j < 512 ==>
         if (c, j) == (table, i) then Entry(after, c, j) == f
         else if cleared == Some(c) then !Entry(after, c, j).present
         else Entry(after, c, j) == Entry(before, c, j)
  }

  /** ensure_child_table on an absent entry, in any memory: the page at the cursor is cleared and linked. */
  lemma TakesPageAtCursor(t: Tables, arenaEnd: nat, table: nat, va: Qword, level: Level)
    requires table % PAGE_4K == 0 && ContainsRange(t.mem, table, PAGE_4K) && !Entry(t.mem, table, TableIndex(va, level)).present
    requires t.next % PAGE_4K == 0 && t.next != table && HasRoomForTable(t, arenaEnd) && |t.mem| <= TWO_52
    ensures var (t', r) := EnsureChild(t, arenaEnd, table, va, level);
            && r == Ok(t.next) && t'.next == t.next + PAGE_4K
            && EntriesAfter(t.mem, t'.mem, Some(t.next), table, TableIndex(va, level), Link(t.next))
  {
    hide Decode, LoadEntry, StoreEntry, ClearTable, TableIndex;
    var (t', r) := EnsureChild(t, arenaEnd, table, va, level);
    var i := TableIndex(va, level);
    var link := MakeEntry(t.next % TWO_64, TABLE_PERMISSIONS, false);
    var cleared := ClearTable(t.mem, t.next);
    NextFits(t.next);
    forall c: nat, j: nat | c % PAGE_4K == 0 && ContainsRange(t.mem, c, PAGE_4K) && j < 512
      ensures if (c, j) == (table, i) then Entry(t'.mem, c, j) == Link(t.next)
              else if c == t.next then !Entry(t'.mem, c, j).present
              else Entry(t'.mem, c, j) == Entry(t.mem, c, j)
    {
      ClearedPage(t.mem, t.next, c, j);
      EntryPlacesDiffer(c, j, table, i);
      EntryPlacesDiffer(table, i, table, i);
      EntryAfterStore(cleared, table + 8 * i, link, c + 8 * j);
    }
  }

  lemma FollowsLink(t: Tables, arenaEnd: nat, table: nat, va: Qword, level: Level, child: nat)
    requires ContainsRange(t.mem, table, PAGE_4K) && Entry(t.mem, table, TableIndex(va, level)) == Link(child)
    ensures EnsureChild(t, arenaEnd, table, va, level) == (t, Ok(child))
  {
    hide Decode, LoadEntry, TableIndex;
  }

  lemma PutsLeaf(t: Tables, table: nat, va: Qword, pa: Qword)
    requires table % PAGE_4K == 0 && ContainsRange(t.mem, table, PAGE_4K) && pa % PAGE_4K == 0 && pa < TWO_52
    ensures var (t', r) := WriteLeaf(t, table, va, PT, MakeEntry(pa, TABLE_PERMISSIONS, false));
            r.Ok? && t'.next == t.next && EntriesAfter(t.mem, t'.mem, None, table, TableIndex(va, PT), Link(pa))
  {
    hide Decode, LoadEntry, StoreEntry, TableIndex;
    var raw := MakeEntry(pa, TABLE_PERMISSIONS, false);
    var t' := WriteLeaf(t, table, va, PT, raw).0;
    var i := TableIndex(va, PT);
    assert pa % TWO_52 / PAGE_4K * PAGE_4K == pa;
    forall c: nat, j: nat | c % PAGE_4K == 0 && ContainsRange(t.mem, c, PAGE_4K) && j < 512
      ensures if (c, j) == (table, i) then Entry(t'.mem, c, j) == Link(pa) else Entry(t'.mem, c, j) == Entry(t.mem, c, j)
    {
      EntryPlacesDiffer(c, j, table, i);
      EntryPlacesDiffer(table, i, table, i);
      EntryAfterStore(t.mem, table + 8 * i, raw, c + 8 * j);
    }
  }

  // The run: eight pages of memory with the root in page 0 and the arena ending at page 6. Page 6 is
  // a data page whose first quadword happens to look like a large-page entry.

  const P: nat := PAGE_4K
  const ARENA_END: nat := 6 * PAGE_4K
  const FAR: Qword := 0x80_0000_0000
  const NEAR: Qword := 0x20_0000

  function LargePageEntry(): Fields
  {
    Fields(true, true, true, false, false, true, false, false, 0)
  }

  /** What matters of the tables after the first call: one path of three tables, and free entries beside it. */
  ghost predicate OnePath(mem: Memory)
  {
    && |mem| == 8 * P
    && Entry(mem, 0, 0) == Link(P) && Entry(mem, P, 0) == Link(2 * P) && !Entry(mem, 2 * P, 1).present
    && Entry(mem, 6 * P, 0) == LargePageEntry()
  }

  lemma FirstCall(t: Tables)
    requires |t.mem| == 8 * P && t.next == P && (forall j :: 0 <= j < 512 ==> !Entry(t.mem, 0, j).present)
    requires Entry(t.mem, 6 * P, 0) == LargePageEntry()
    ensures var t' := MapOnePage(t, ARENA_END, 0, 0, 7 * P, TABLE_PERMISSIONS).0;
            Map(t, ARENA_END, 0, PT, 0, 7 * P, TABLE_PERMISSIONS).1.Ok?
            && t'.next == 4 * P && OnePath(t'.mem) && !Entry(t'.mem, 0, 1).present
  {
    hide EnsureChild, WriteLeaf, MakeEntry, Entry, Map;
    assert TableIndex(0, PML4) == TableIndex(0, PDPT) == TableIndex(0, PD) == TableIndex(0, PT) == 0;
    hide TableIndex;
    TakesPageAtCursor(t, ARENA_END, 0, 0, PML4);
    var t1 := EnsureChild(t, ARENA_END, 0, 0, PML4).0;
    TakesPageAtCursor(t1, ARENA_END, P, 0, PDPT);
    var t2 := EnsureChild(t1, ARENA_END, P, 0, PDPT).0;
    TakesPageAtCursor(t2, ARENA_END, 2 * P, 0, PD);
    var t3 := EnsureChild(t2, ARENA_END, 2 * P, 0, PD).0;
    PutsLeaf(t3, 3 * P, 0, 7 * P);
    MapIs(t, ARENA_END, 0, 7 * P);
  }

  /** The three tables and the leaf of a 4 KiB mapping, one after the other. */
  lemma MapIs(t: Tables, arenaEnd: nat, va: Qword, pa: Qword)
    requires va % P == 0 && pa % P == 0
    ensures Map(t, arenaEnd, 0, PT, va, pa, TABLE_PERMISSIONS) ==
            var (t1, a) := EnsureChild(t, arenaEnd, 0, va, PML4);
            if a.Err? then (t1, Err(a.error))
            else
              var (t2, b) := EnsureChild(t1, arenaEnd, a.value, va, PDPT);
              if b.Err? then (t2, Err(b.error))
              else
                var (t3, c) := EnsureChild(t2, arenaEnd, b.value, va, PD);
                if c.Err? then (t3, Err(c.error)) else WriteLeaf(t3, c.value, va, PT, MakeEntry(pa, TABLE_PERMISSIONS, false))
  {
    hide EnsureChild, WriteLeaf, MakeEntry;
  }

  lemma SecondCall(t: Tables)
    requires t.next == 4 * P && OnePath(t.mem) && !Entry(t.mem, 0, 1).present
    ensures var t' := MapOnePage(t, ARENA_END, 0, FAR, 7 * P, TABLE_PERMISSIONS).0;
            && Map(t, ARENA_END, 0, PT, FAR, 7 * P, TABLE_PERMISSIONS).1 == Err(OutOfRange)
            && t'.next == 4 * P && OnePath(t'.mem) && Entry(t'.mem, 0, 1) == Link(4 * P) && Entry(t'.mem, 4 * P, 0) == Link(5 * P)
            && Walk(t'.mem, true, 0, FAR, PML4, TABLE_PERMISSIONS) == Unmapped(NOT_PRESENT)
  {
    hide EnsureChild, WriteLeaf, MakeEntry, Entry, Walk, Map;
    assert TableIndex(FAR, PML4) == 1 && TableIndex(FAR, PDPT) == TableIndex(FAR, PD) == 0;
    hide TableIndex;
    TakesPageAtCursor(t, ARENA_END, 0, FAR, PML4);
    var t1 := EnsureChild(t, ARENA_END, 0, FAR, PML4).0;
    TakesPageAtCursor(t1, ARENA_END, 4 * P, FAR, PDPT);
    var t2 := EnsureChild(t1, ARENA_END, 4 * P, FAR, PDPT).0;
    NoChildStep(t2, ARENA_END, 5 * P, FAR, PD);
    MapIs(t, ARENA_END, FAR, 7 * P);
    WalkIs(t2.mem, FAR);
  }

  /** Where a walk through two links gets to. */
  lemma WalkIs(mem: Memory, va: Qword)
    requires |mem| == 8 * P
    requires Entry(mem, 0, TableIndex(va, PML4)) == Link(4 * P)
    ensures var f := Entry(mem, 4 * P, TableIndex(va, PDPT));
            (f == Link(5 * P) || f == Link(6 * P)) ==>
              var g := Entry(mem, f.address, TableIndex(va, PD));
              && (!g.present ==> Walk(mem, true, 0, va, PML4, TABLE_PERMISSIONS) == Unmapped(NOT_PRESENT))
              && (g == LargePageEntry() ==>
                    Walk(mem, true, 0, va, PML4, TABLE_PERMISSIONS)
                    == Mapped(Leaf(PD, f.address + 8 * TableIndex(va, PD), 0, TABLE_PERMISSIONS)))
  {
    hide Decode, LoadEntry, TableIndex;
  }

  lemma ThirdCall(t: Tables)
    requires t.next == 4 * P && OnePath(t.mem) && Entry(t.mem, 0, 1) == Link(4 * P)
    ensures var t' := MapOnePage(t, ARENA_END, 0, NEAR, 6 * P, TABLE_PERMISSIONS).0;
            && Map(t, ARENA_END, 0, PT, NEAR, 6 * P, TABLE_PERMISSIONS).1.Ok?
            && Walk(t'.mem, true, 0, FAR, PML4, TABLE_PERMISSIONS) == Mapped(Leaf(PD, 6 * P, 0, TABLE_PERMISSIONS))
  {
    hide EnsureChild, WriteLeaf, MakeEntry, Entry, Walk, Map;
    assert TableIndex(FAR, PML4) == 1 && TableIndex(FAR, PDPT) == TableIndex(FAR, PD) == 0;
    assert TableIndex(NEAR, PML4) == TableIndex(NEAR, PDPT) == TableIndex(NEAR, PT) == 0 && TableIndex(NEAR, PD) == 1;
    hide TableIndex;
    FollowsLink(t, ARENA_END, 0, NEAR, PML4, P);
    FollowsLink(t, ARENA_END, P, NEAR, PDPT, 2 * P);
    TakesPageAtCursor(t, ARENA_END, 2 * P, NEAR, PD);
    var t3 := EnsureChild(t, ARENA_END, 2 * P, NEAR, PD).0;
    PutsLeaf(t3, 4 * P, NEAR, 6 * P);
    var t4 := WriteLeaf(t3, 4 * P, NEAR, PT, MakeEntry(6 * P, TABLE_PERMISSIONS, false)).0;
    MapIs(t, ARENA_END, NEAR, 6 * P);
    WalkIs(t4.mem, FAR);
  }

  /**
   Three calls on an address space with room for five tables. The second fails after linking two tables
   for a far address and forgets them; the third takes the first of the two again, for a near address, and
   the far address, which was never mapped and was not present before, reads a data page as a table.
   */
  lemma ForgottenTableIsHandedOutAgain(mem: Memory)
    requires |mem| == 8 * P && Entry(mem, 6 * P, 0) == LargePageEntry()
    ensures var t0 := Tables(ClearTable(mem, 0), P);
            var t1 := MapOnePage(t0, ARENA_END, 0, 0, 7 * P, TABLE_PERMISSIONS).0;
            var t2 := MapOnePage(t1, ARENA_END, 0, FAR, 7 * P, TABLE_PERMISSIONS).0;
            var t3 := MapOnePage(t2, ARENA_END, 0, NEAR, 6 * P, TABLE_PERMISSIONS).0;
            && (exists tree :: WellFormed(t0, 0, tree))
            && Map(t0, ARENA_END, 0, PT, 0, 7 * P, TABLE_PERMISSIONS).1.Ok?
            && Map(t1, ARENA_END, 0, PT, FAR, 7 * P, TABLE_PERMISSIONS).1 == Err(OutOfRange)
            && t2.next == 4 * P && Entry(t2.mem, 0, 1) == Link(4 * P) && Entry(t2.mem, 4 * P, 0) == Link(5 * P)
            && Map(t2, ARENA_END, 0, PT, NEAR, 6 * P, TABLE_PERMISSIONS).1.Ok?
            && Walk(t2.mem, true, 0, FAR, PML4, TABLE_PERMISSIONS) == Unmapped(NOT_PRESENT)
            && Walk(t3.mem, true, 0, FAR, PML4, TABLE_PERMISSIONS) == Mapped(Leaf(PD, 6 * P, 0, TABLE_PERMISSIONS))
  {
    hide Entry, Map, Walk, WellFormed, ClearTable, OnePath;
    var t0 := Tables(ClearTable(mem, 0), P);
    var tree := PageMapRuns.ClearedRoot(mem, 0, P);
    forall j | 0 <= j < 512 ensures !Entry(t0.mem, 0, j).present {
      ClearedPage(mem, 0, 0, j);
    }
    ClearedPage(mem, 0, 6 * P, 0);
    FirstCall(t0);
    var t1 := MapOnePage(t0, ARENA_END, 0, 0, 7 * P, TABLE_PERMISSIONS).0;
    SecondCall(t1);
    ThirdCall(MapOnePage(t1, ARENA_END, 0, FAR, 7 * P, TABLE_PERMISSIONS).0);
  }
}
