/**
 Table edits of the kernel as steps of the TLB theorems: with one tree of tables for each context, all in
 one memory, which invalidation each map call and permission change needs.
 */
module ArenaEdits {
  import opened MemoryBus
  import opened Results
  import opened Paging
  import opened PageTableWalker
  import opened PageTableBuilder
  import opened PageMap
  import opened AddressSpace
  import opened Tlb
  import opened Mmu
  import opened TlbInvisibility
  import opened TlbRuns
  import opened TableEdits
  import opened TableArenas
  import ShootdownProtocol

  /** Each context's root is the root of an arena of its own. */
  ghost predicate Bound(roots: map<nat, Qword>, arenas: map<nat, Arena>)
  {
    forall q :: q in roots ==> q in arenas && arenas[q].root == roots[q]
  }

  /** Memory after a map call of the builder that fills an arena. */
  function MapAt(mem: Memory, a: Arena, leaf: Level, va: Qword, pa: Qword, permissions: Permissions): (after: Memory)
    requires !leaf.PML4?
    ensures |after| == |mem|
  {
    Map(Tables(mem, a.used), a.end, a.root, leaf, va, pa, permissions).0.mem
  }

  /** The arenas are in order after the edit, and only the tables of one context can have changed. */
  ghost predicate OthersKept(mem: Memory, after: Memory, arenas: map<nat, Arena>, arenas': map<nat, Arena>, p: nat)
  {
    && ArenasOk(after, arenas') && arenas'.Keys == arenas.Keys && (forall q :: q in arenas ==> SamePlace(arenas[q], arenas'[q]))
    && forall q, va: Qword, xd {:trigger TraceKept(mem, after, xd, arenas[q].root, va)} ::
         q in arenas && q != p ==> TraceKept(mem, after, xd, arenas[q].root, va)
  }

  lemma MapKeepsOthers(mem: Memory, arenas: map<nat, Arena>, p: nat, leaf: Level, va: Qword, pa: Qword, permissions: Permissions)
    returns (arenas': map<nat, Arena>)
    requires ArenasOk(mem, arenas) && p in arenas && !leaf.PML4?
    ensures OthersKept(mem, MapAt(mem, arenas[p], leaf, va, pa, permissions), arenas, arenas', p)
  {
    hide WellFormed, Within, SameBeyond, Map, TraceKept, Grew, SameWalks, MapsPage;
    assert ArenaOk(mem, arenas[p]);
    var b := arenas[p];
    var t := Tables(mem, b.used);
    var t' := Map(t, b.end, b.root, leaf, va, pa, permissions).0;
    var tree, _ := MapStep(t, b.root, b.tree, b.end, leaf, va, pa, permissions);
    GrewWithin(t, t', b.tree, tree, b.lo);
    CursorPastRoot(t, b.root, b.tree);
    MapStays(t, b.root, b.tree, b.lo, b.end, leaf, va, pa, permissions);
    var a := b.(used := t'.next, tree := tree);
    ArenaWrite(mem, t'.mem, arenas, p, a);
    arenas' := arenas[p := a];
  }

  lemma CursorPastRoot(t: Tables, root: nat, tree: Tree)
    requires WellFormed(t, root, tree)
    ensures 0 < t.next
  {
    assert IsTablePage(t.mem, root, t.next);
  }

  lemma SetKeepsOthers(mem: Memory, arenas: map<nat, Arena>, p: nat, va: Qword, permissions: Permissions)
    requires ArenasOk(mem, arenas) && p in arenas && IsCanonical(va)
    ensures OthersKept(mem, SetPermissions(mem, arenas[p].root, va, permissions).0, arenas, arenas, p)
  {
    hide WellFormed, Within, SameBeyond, SetPermissions, TraceKept, SameWalks, MapsPage, IsCanonical, Walk;
    assert ArenaOk(mem, arenas[p]);
    var a := arenas[p];
    var t := Tables(mem, a.used);
    SetPermissionsStays(t, a.root, a.tree, a.lo, va, permissions);
    PermissionStep(t, a.root, a.tree, va, permissions);
    ArenaWrite(mem, SetPermissions(mem, a.root, va, permissions).0, arenas, p, a);
    assert arenas[p := a] == arenas;
  }

  /** Accesses keep the arenas in order. */
  lemma AccessKeepsArenas(mem: Memory, arenas: map<nat, Arena>, p: nat, ps: PagingState, va: Qword, kind: AccessKind, privilege: Privilege)
    requires ArenasOk(mem, arenas) && p in arenas && ps.cr3 == arenas[p].root && IsCanonical(va)
    ensures OthersKept(mem, Translate(mem, ps, va, kind, privilege).0, arenas, arenas, p)
  {
    hide WellFormed, Within, SameBeyond, Translate, TraceKept, OnlyMarks, IsCanonical, WalkRoot, LeafDirty;
    assert ArenaOk(mem, arenas[p]);
    var a := arenas[p];
    var t := Tables(mem, a.used);
    RootAligned(t, a.root, a.tree);
    TranslateFollowsWalk(mem, ps, va, kind, privilege);
    MarksKeepTree(t, Translate(mem, ps, va, kind, privilege).0, a.root, a.tree);
    TranslateStays(t, a.root, a.tree, a.lo, ps, va, kind, privilege);
    ArenaWrite(mem, Translate(mem, ps, va, kind, privilege).0, arenas, p, a);
    assert arenas[p := a] == arenas;
  }

  // ---------- Mapping a mapped page ----------

  /** Mapping a page that is mapped in this size writes one entry, that of its leaf. */
  lemma {:induction false} RemapWritesLeaf(t: Tables, root: nat, tree: Tree, arenaEnd: nat, table: nat, leaf: Level, va: Qword, pa: Qword,
                                          permissions: Permissions, xd: bool) returns (place: nat)
    requires WellFormed(t, root, tree) && table in tree && tree[table].piece == TablePiece(va, tree[table].level)
    requires !leaf.PML4? && leaf.Rank() <= tree[table].level.Rank() && pa % leaf.Span() == 0
    requires var walked := Walk(t.mem, xd, table, va, tree[table].level, TABLE_PERMISSIONS); walked.Mapped? && walked.leaf.level == leaf
    ensures place in tree && tree[place].level == leaf && tree[place].piece == TablePiece(va, leaf)
    ensures SameExcept(t.mem, MapFrom(t, arenaEnd, table, tree[table].level, leaf, va, MakeEntry(pa, permissions, !leaf.PT?)).0.mem, tree,
                       place, TableIndex(va, leaf))
    decreases tree[table].level.Rank()
  {
    hide WellFormed, EnsureChild, WriteLeaf, Piece, TablePiece, MakeEntry, SameExcept, Decode, LoadEntry, TableIndex, HasReservedBits, FrameOf;
    var at := tree[table].level;
    place := table;
    EntryPiece(va, at);
    EntryIsOk(t, root, tree, table, TableIndex(va, at));
    if at == leaf {
      LeafWritten(t, root, tree, table, va, leaf, pa, permissions);
      NothingExcept(t, root, tree, table, TableIndex(va, leaf));
    } else {
      var f := Entry(t.mem, table, TableIndex(va, at));
      LinkIsFollowed(f, at, xd);
      OldChildStep(t, root, tree, arenaEnd, table, va);
      FollowsPresent(t, arenaEnd, table, va, at);
      place := RemapWritesLeaf(t, root, tree, arenaEnd, f.address, leaf, va, pa, permissions, xd);
    }
  }

  lemma FollowsPresent(t: Tables, arenaEnd: nat, table: nat, va: Qword, level: Level)
    requires ContainsRange(t.mem, table, PAGE_4K) && Entry(t.mem, table, TableIndex(va, level)).present
    requires !IsLeaf(Entry(t.mem, table, TableIndex(va, level)), level)
    ensures EnsureChild(t, arenaEnd, table, va, level) == (t, Ok(Entry(t.mem, table, TableIndex(va, level)).address))
  {
    hide Decode, LoadEntry, TableIndex;
  }

  lemma NothingExcept(t: Tables, root: nat, tree: Tree, table: nat, i: nat)
    requires WellFormed(t, root, tree)
    ensures SameExcept(t.mem, t.mem, tree, table, i)
  {
    hide EntryOk, LinkOk;
    assert forall c :: c in tree ==> IsTablePage(t.mem, c, t.next);
  }

  lemma LeafEditOnly(t: Tables, after: Memory, root: nat, tree: Tree, place: nat, leaf: Level, va: Qword, inPage: Qword, other: Qword, xd: bool)
    requires WellFormed(t, root, tree) && place in tree && tree[place].level == leaf && tree[place].piece == TablePiece(va, leaf)
    requires SameExcept(t.mem, after, tree, place, TableIndex(va, leaf)) && !leaf.PML4?
    requires Piece(inPage, leaf) == Piece(va, leaf)
    requires IsCanonical(inPage) && IsCanonical(other) && PageBase(other, leaf) != PageBase(inPage, leaf)
    ensures TraceKept(t.mem, after, xd, root, other)
  {
    hide WellFormed, SameExcept, TraceKept, Piece, TablePiece, TableIndex, PageBase, IsCanonical;
    EntryPiece(va, leaf);
    if Piece(other, leaf) == Piece(va, leaf) {
      SamePieceSamePage(inPage, other, leaf);
      assert false;
    }
    TraceElsewhere(t, after, root, tree, place, TableIndex(va, leaf), other, xd);
  }

  /** Addresses with one piece are mapped by one leaf. */
  lemma LeafMapsPiece(t: Tables, root: nat, tree: Tree, leaf: Level, inPage: Qword, va: Qword, xd: bool)
    requires WellFormed(t, root, tree) && LeafMaps(t.mem, xd, root, leaf, inPage) && Piece(inPage, leaf) == Piece(va, leaf)
    ensures LeafMaps(t.mem, xd, root, leaf, va)
  {
    hide WellFormed, Piece, TablePiece, TableIndex, Decode, LoadEntry, FrameOf, HasReservedBits;
    RootInTree(t, root, tree);
    RootIsOnEveryPath(t, root, tree, inPage);
    var table := LeafIsInTree(t, root, tree, root, inPage, xd);
    EntryPiece(va, leaf);
    EntryPiece(inPage, leaf);
    assert TableIndex(inPage, leaf) == TableIndex(va, leaf) && TablePiece(inPage, leaf) == TablePiece(va, leaf);
    WalkReaches(t, root, tree, table, va, xd);
  }

  lemma RemapEditsPage(mem: Memory, a: Arena, leaf: Level, va: Qword, pa: Qword, permissions: Permissions, inPage: Qword, other: Qword, xd: bool)
    requires ArenaOk(mem, a) && !leaf.PML4? && LeafMaps(mem, xd, a.root, leaf, inPage) && Piece(inPage, leaf) == Piece(va, leaf)
    requires IsCanonical(inPage) && IsCanonical(other) && PageBase(other, leaf) != PageBase(inPage, leaf)
    ensures TraceKept(mem, MapAt(mem, a, leaf, va, pa, permissions), xd, a.root, other)
  {
    hide WellFormed, SameExcept, TraceKept, Piece, TablePiece, TableIndex, PageBase, IsCanonical, Walk, MapFrom, MakeEntry, Within;
    var t := Tables(mem, a.used);
    RootIsOnEveryPath(t, a.root, a.tree, va);
    RootInTree(t, a.root, a.tree);
    LeafMapsPiece(t, a.root, a.tree, leaf, inPage, va, xd);
    if va % leaf.Span() == 0 && pa % leaf.Span() == 0 {
      var place := RemapWritesLeaf(t, a.root, a.tree, a.end, a.root, leaf, va, pa, permissions, xd);
      LeafEditOnly(t, MapAt(mem, a, leaf, va, pa, permissions), a.root, a.tree, place, leaf, va, inPage, other, xd);
    } else {
      TraceSame(mem, xd, a.root, other);
    }
  }

  lemma TraceSame(mem: Memory, xd: bool, root: nat, va: Qword)
    ensures TraceKept(mem, mem, xd, root, va)
  {
    hide Walk, PathAccessed, LeafDirty;
  }

  /** The edit of one context concerns one page of it, and no other context. */
  lemma OnlyPage(mem: Memory, after: Memory, roots: map<nat, Qword>, arenas: map<nat, Arena>, arenas': map<nat, Arena>, pcid: nat, va: Qword,
                 leaf: Level, xd: bool)
    requires Bound(roots, arenas) && pcid in roots && OthersKept(mem, after, arenas, arenas', pcid)
    requires forall other: Qword :: IsCanonical(other) && PageBase(other, leaf) != PageBase(va, leaf) ==>
               TraceKept(mem, after, xd, roots[pcid], other)
    ensures EditsOnlyPage(mem, after, xd, roots, pcid, va, leaf)
  {
    hide TraceKept, PageBase, IsCanonical, ArenasOk;
    forall q: nat, other: Qword | q in roots && IsCanonical(other) && !(q == pcid && PageBase(other, leaf) == PageBase(va, leaf))
      ensures TraceKept(mem, after, xd, roots[q], other)
    {
      assert q != pcid ==> TraceKept(mem, after, xd, arenas[q].root, other);
    }
  }

  lemma BoundMoves(mem: Memory, after: Memory, roots: map<nat, Qword>, arenas: map<nat, Arena>, arenas': map<nat, Arena>, p: nat)
    requires Bound(roots, arenas) && OthersKept(mem, after, arenas, arenas', p)
    ensures Bound(roots, arenas')
  {
    hide ArenasOk, TraceKept;
    forall q | q in roots ensures q in arenas' && arenas'[q].root == roots[q] {
      assert q in arenas && SamePlace(arenas[q], arenas'[q]);
    }
  }

  /**
   A map call on a page that is mapped in its size is a page edit of the shootdown protocol, with any address
   of the page as the one to invalidate, whatever the other contexts map.
   */
  lemma RemapIsPageEdit(s: ShootdownProtocol.System, arenas: map<nat, Arena>, core: nat, pcid: nat, leaf: Level, va: Qword, pa: Qword,
                        permissions: Permissions, inPage: Qword) returns (arenas': map<nat, Arena>)
    requires ArenasOk(s.mem, arenas) && Bound(s.roots, arenas) && core < |s.tlbs| && pcid in s.roots && !leaf.PML4?
    requires IsCanonical(inPage) && Piece(inPage, leaf) == Piece(va, leaf) && LeafMaps(s.mem, s.xd, s.roots[pcid], leaf, inPage)
    ensures var after := MapAt(s.mem, arenas[pcid], leaf, va, pa, permissions);
            && ShootdownProtocol.Enabled(s, ShootdownProtocol.PageEdit(core, after, pcid, inPage))
            && ArenasOk(after, arenas') && Bound(s.roots, arenas')
  {
    hide ArenaOk, TraceKept, PageBase, IsCanonical, Walk, MapAt, EditsOnlyPage;
    var after := MapAt(s.mem, arenas[pcid], leaf, va, pa, permissions);
    arenas' := MapKeepsOthers(s.mem, arenas, pcid, leaf, va, pa, permissions);
    forall other: Qword | IsCanonical(other) && PageBase(other, leaf) != PageBase(inPage, leaf)
      ensures TraceKept(s.mem, after, s.xd, s.roots[pcid], other)
    {
      RemapEditsPage(s.mem, arenas[pcid], leaf, va, pa, permissions, inPage, other, s.xd);
    }
    OnlyPage(s.mem, after, s.roots, arenas, arenas', pcid, inPage, leaf, s.xd);
    BoundMoves(s.mem, after, s.roots, arenas, arenas', pcid);
  }

  // ---------- Mapping an absent page ----------

  /** After a map call on a page that was not mapped in its size, every mapped address of every context is translated as before. */
  lemma MappedStay(mem: Memory, arenas: map<nat, Arena>, arenas': map<nat, Arena>, roots: map<nat, Qword>, pcid: nat, leaf: Level, va: Qword,
                   pa: Qword, permissions: Permissions, xd: bool, q: nat, other: Qword)
    requires ArenasOk(mem, arenas) && Bound(roots, arenas) && pcid in roots && q in roots && !leaf.PML4?
    requires OthersKept(mem, MapAt(mem, arenas[pcid], leaf, va, pa, permissions), arenas, arenas', pcid)
    requires !LeafMaps(mem, xd, roots[pcid], leaf, va) && Walk(mem, xd, roots[q], other, PML4, TABLE_PERMISSIONS).Mapped?
    ensures TraceKept(mem, MapAt(mem, arenas[pcid], leaf, va, pa, permissions), xd, roots[q], other)
  {
    hide WellFormed, Within, TraceKept, Walk, Map, LeafMaps, Piece;
    assert ArenaOk(mem, arenas[pcid]);
    var a := arenas[pcid];
    MapKeeps(Tables(mem, a.used), a.root, a.tree, a.end, leaf, va, pa, permissions);
    assert q != pcid ==> TraceKept(mem, MapAt(mem, a, leaf, va, pa, permissions), xd, arenas[q].root, other);
  }

  /** A map call on a page that is not mapped in its size, whether it succeeds or throws, is an edit that needs no invalidation. */
  lemma MapIsAbsentEdit(s: ShootdownProtocol.System, arenas: map<nat, Arena>, pcid: nat, leaf: Level, va: Qword, pa: Qword,
                        permissions: Permissions) returns (arenas': map<nat, Arena>)
    requires ArenasOk(s.mem, arenas) && Bound(s.roots, arenas) && pcid in s.roots
    requires !leaf.PML4? && !LeafMaps(s.mem, s.xd, s.roots[pcid], leaf, va)
    ensures var after := MapAt(s.mem, arenas[pcid], leaf, va, pa, permissions);
            && ShootdownProtocol.Enabled(s, ShootdownProtocol.AbsentEdit(after))
            && ArenasOk(after, arenas') && Bound(s.roots, arenas')
  {
    hide ArenasOk, TraceKept, Walk, MapAt, LeafMaps;
    var after := MapAt(s.mem, arenas[pcid], leaf, va, pa, permissions);
    arenas' := MapKeepsOthers(s.mem, arenas, pcid, leaf, va, pa, permissions);
    forall q: nat, other: Qword | q in s.roots && Walk(s.mem, s.xd, s.roots[q], other, PML4, TABLE_PERMISSIONS).Mapped?
      ensures TraceKept(s.mem, after, s.xd, s.roots[q], other)
    {
      MappedStay(s.mem, arenas, arenas', s.roots, pcid, leaf, va, pa, permissions, s.xd, q, other);
    }
    BoundMoves(s.mem, after, s.roots, arenas, arenas', pcid);
  }

  // ---------- Changing permissions ----------

  lemma {:induction false} LeafAligned(mem: Memory, xd: bool, table: nat, va: Qword, level: Level, permissions: Permissions)
    requires table % 8 == 0 && Walk(mem, xd, table, va, level, permissions).Mapped?
    ensures var a := Walk(mem, xd, table, va, level, permissions).leaf.entryAddress; a % 8 == 0 && ContainsRange(mem, a, 8)
    decreases level.Rank()
  {
    hide Decode, HasReservedBits, FrameOf, TableIndex, LoadEntry;
    var a := EntryAddress(table, va, level);
    var f := Decode(LoadEntry(mem, a));
    AddressAligned(LoadEntry(mem, a));
    if !IsLeaf(f, level) {
      LeafAligned(mem, xd, f.address, va, level.Child(), Restrict(permissions, f));
    }
  }

  /** Accessed and dirty bits change no trace. */
  lemma MarksKeepTrace(before: Memory, after: Memory, xd: bool, root: nat, va: Qword)
    requires OnlyMarks(before, after) && root % PAGE_4K == 0
    ensures TraceKept(before, after, xd, root, va)
  {
    PageAligned(root);
    hide Walk, PathAccessed, OnlyMarks, Decode, LoadEntry;
    MarksKeepWalk(before, after, xd, root, va, PML4, TABLE_PERMISSIONS);
    if PathAccessed(before, xd, root, va, PML4) {
      MarksKeepPath(before, after, xd, root, va, PML4);
    }
    var walked := Walk(before, xd, root, va, PML4, TABLE_PERMISSIONS);
    if walked.Mapped? {
      LeafAligned(before, xd, root, va, PML4, TABLE_PERMISSIONS);
      MarkedStays(before, after, walked.leaf.entryAddress, PML4, xd);
      SameLength(before, after);
    }
  }

  lemma SameLength(before: Memory, after: Memory)
    requires OnlyMarks(before, after)
    ensures |after| == |before|
  {
  }

  lemma TraceKeptTwice(m0: Memory, m1: Memory, m2: Memory, xd: bool, root: nat, va: Qword)
    requires TraceKept(m0, m1, xd, root, va) && TraceKept(m1, m2, xd, root, va)
    ensures TraceKept(m0, m2, xd, root, va)
  {
    hide Walk, PathAccessed, LeafDirty;
  }

  /** Rewriting the leaf of a 4 KiB page, wherever walks with or without the execute-disable bit find it, concerns that page alone. */
  lemma RewriteEditsPage(t: Tables, root: nat, tree: Tree, va: Qword, raw: Qword, other: Qword, xd: bool)
    requires WellFormed(t, root, tree) && LeafMaps(t.mem, true, root, PT, va)
    requires IsCanonical(va) && IsCanonical(other) && PageBase(other, PT) != PageBase(va, PT)
    ensures var a := Walk(t.mem, true, root, va, PML4, TABLE_PERMISSIONS).leaf.entryAddress;
            ContainsRange(t.mem, a, 8) && TraceKept(t.mem, StoreEntry(t.mem, a, raw), xd, root, other)
  {
    hide WellFormed, Walk, TraceKept, PageBase, IsCanonical, TablePiece, TableIndex, SameExcept, StoreEntry, Decode, LoadEntry;
    RootInTree(t, root, tree);
    RootIsOnEveryPath(t, root, tree, va);
    var table := LeafIsInTree(t, root, tree, root, va, true);
    StoreIsLocal(t, root, tree, table, TableIndex(va, PT), raw);
    LeafEditOnly(t, StoreEntry(t.mem, table + 8 * TableIndex(va, PT), raw), root, tree, table, PT, va, va, other, xd);
  }

  /** An address that is mapped is mapped by the same entry when the execute-disable bit is allowed. */
  lemma {:induction false} MappedWithExecuteDisable(mem: Memory, xd: bool, table: nat, va: Qword, level: Level, permissions: Permissions)
    requires Walk(mem, xd, table, va, level, permissions).Mapped?
    ensures Walk(mem, true, table, va, level, permissions) == Walk(mem, xd, table, va, level, permissions)
    decreases level.Rank()
  {
    hide Decode, FrameOf, TableIndex, LoadEntry;
    var f := Decode(LoadEntry(mem, EntryAddress(table, va, level)));
    if !IsLeaf(f, level) {
      MappedWithExecuteDisable(mem, xd, f.address, va, level.Child(), Restrict(permissions, f));
    }
  }

  lemma SetEditsPage(mem: Memory, a: Arena, va: Qword, permissions: Permissions, other: Qword, xd: bool)
    requires ArenaOk(mem, a) && IsCanonical(va) && IsCanonical(other) && Walk(mem, xd, a.root, va, PML4, TABLE_PERMISSIONS).Mapped?
    requires var level := Walk(mem, xd, a.root, va, PML4, TABLE_PERMISSIONS).leaf.level; PageBase(other, level) != PageBase(va, level)
    ensures TraceKept(mem, SetPermissions(mem, a.root, va, permissions).0, xd, a.root, other)
  {
    hide WellFormed, Within, Walk, TraceKept, PageBase, IsCanonical, Translate, OnlyMarks, StoreEntry, LoadEntry, WithPermissions, LeafDirty, Denial;
    var t, ps := Tables(mem, a.used), FreshState(a.root);
    RootAligned(t, a.root, a.tree);
    TranslateFollowsWalk(mem, ps, va, READ, RING0);
    var mem1 := Translate(mem, ps, va, READ, RING0).0;
    MarksKeepTree(t, mem1, a.root, a.tree);
    MarksKeepTrace(mem, mem1, xd, a.root, other);
    TraceSame(mem, xd, a.root, other);
    MappedWithExecuteDisable(mem, xd, a.root, va, PML4, TABLE_PERMISSIONS);
    var leaf := Walk(mem, true, a.root, va, PML4, TABLE_PERMISSIONS).leaf;
    assert WalkRoot(mem1, ps, va) == WalkRoot(mem, ps, va);
    if leaf.level == PT {
      LeafAligned(mem1, true, a.root, va, PML4, TABLE_PERMISSIONS) by { PageAligned(a.root); }
      var raw := WithPermissions(LoadEntry(mem1, leaf.entryAddress), permissions);
      RewriteEditsPage(t.(mem := mem1), a.root, a.tree, va, raw, other, xd);
      TraceKeptTwice(mem, mem1, StoreEntry(mem1, leaf.entryAddress, raw), xd, a.root, other);
    }
  }

  /** A permission change on a mapped page is a page edit of the shootdown protocol, whatever the other contexts map. */
  lemma SetPermissionsIsPageEdit(s: ShootdownProtocol.System, arenas: map<nat, Arena>, core: nat, pcid: nat, va: Qword, permissions: Permissions)
    requires ArenasOk(s.mem, arenas) && Bound(s.roots, arenas) && core < |s.tlbs| && pcid in s.roots
    requires IsCanonical(va) && Walk(s.mem, s.xd, s.roots[pcid], va, PML4, TABLE_PERMISSIONS).Mapped?
    ensures var after := SetPermissions(s.mem, s.roots[pcid], va, permissions).0;
            ShootdownProtocol.Enabled(s, ShootdownProtocol.PageEdit(core, after, pcid, va)) && ArenasOk(after, arenas)
  {
    hide ArenaOk, TraceKept, PageBase, IsCanonical, Walk, SetPermissions, EditsOnlyPage;
    var after := SetPermissions(s.mem, s.roots[pcid], va, permissions).0;
    var level := Walk(s.mem, s.xd, s.roots[pcid], va, PML4, TABLE_PERMISSIONS).leaf.level;
    SetKeepsOthers(s.mem, arenas, pcid, va, permissions);
    forall other: Qword | IsCanonical(other) && PageBase(other, level) != PageBase(va, level)
      ensures TraceKept(s.mem, after, s.xd, s.roots[pcid], other)
    {
      SetEditsPage(s.mem, arenas[pcid], va, permissions, other, s.xd);
    }
    OnlyPage(s.mem, after, s.roots, arenas, arenas, pcid, va, level, s.xd);
  }

  // ---------- One core ----------

  /** Mapping a page that is not mapped keeps a TLB with entries of any number of contexts coherent without invalidation. */
  lemma MappingAbsentPageIsSafe(m: MmuState, ps: PagingState, roots: map<nat, Qword>, arenas: map<nat, Arena>, pcid: nat, leaf: Level,
                                va: Qword, pa: Qword, permissions: Permissions)
    requires ArenasOk(m.mem, arenas) && Bound(roots, arenas) && pcid in roots && !leaf.PML4? && Coherent(m, ps, roots)
    requires !LeafMaps(m.mem, ps.executeDisable, roots[pcid], leaf, va)
    ensures Coherent(MmuState(m.entries, MapAt(m.mem, arenas[pcid], leaf, va, pa, permissions)), ps, roots)
  {
    hide Walk, ArenasOk, Coherent, MapAt, TraceKept, LeafMaps, OthersKept;
    var after := MapAt(m.mem, arenas[pcid], leaf, va, pa, permissions);
    var arenas' := MapKeepsOthers(m.mem, arenas, pcid, leaf, va, pa, permissions);
    forall q: nat, other: Qword | q in roots && Walk(m.mem, ps.executeDisable, roots[q], other, PML4, TABLE_PERMISSIONS).Mapped?
      ensures TraceKept(m.mem, after, ps.executeDisable, roots[q], other)
    {
      MappedStay(m.mem, arenas, arenas', roots, pcid, leaf, va, pa, permissions, ps.executeDisable, q, other);
    }
    AbsentPagesNeedNoInvalidation(m, after, ps, roots);
  }

  /** Remapping a mapped page and then invalidating any one of its addresses keeps a TLB with entries of any number of contexts coherent. */
  lemma RemappingThenInvalidatingIsSafe(m: MmuState, ps: PagingState, roots: map<nat, Qword>, arenas: map<nat, Arena>, pcid: nat, leaf: Level,
                                        va: Qword, pa: Qword, permissions: Permissions, inPage: Qword)
    requires ArenasOk(m.mem, arenas) && Bound(roots, arenas) && pcid in roots && !leaf.PML4? && Coherent(m, ps, roots)
    requires IsCanonical(inPage) && Piece(inPage, leaf) == Piece(va, leaf) && LeafMaps(m.mem, ps.executeDisable, roots[pcid], leaf, inPage)
    ensures Coherent(MmuState(Invalidate(m.entries, Invalidation(Some(inPage), Some(pcid))), MapAt(m.mem, arenas[pcid], leaf, va, pa, permissions)),
                     ps, roots)
  {
    hide ArenaOk, Coherent, MapAt, TraceKept, OthersKept, PageBase, IsCanonical, Walk, EditsOnlyPage, Reaches;
    var after := MapAt(m.mem, arenas[pcid], leaf, va, pa, permissions);
    var arenas' := MapKeepsOthers(m.mem, arenas, pcid, leaf, va, pa, permissions);
    forall other: Qword | IsCanonical(other) && PageBase(other, leaf) != PageBase(inPage, leaf)
      ensures TraceKept(m.mem, after, ps.executeDisable, roots[pcid], other)
    {
      RemapEditsPage(m.mem, arenas[pcid], leaf, va, pa, permissions, inPage, other, ps.executeDisable);
    }
    OnlyPage(m.mem, after, roots, arenas, arenas', pcid, inPage, leaf, ps.executeDisable);
    LeafEditIsReached(m, after, ps, roots, pcid, inPage);
    EditThenInvalidate(m, after, ps, roots, Invalidation(Some(inPage), Some(pcid)));
  }
}
