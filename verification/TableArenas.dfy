/** Several page tables in one memory: each tree keeps to its own arena, and nothing outside an arena touches its tree. */
module TableArenas {
  import opened LittleEndian
  import opened MemoryBus
  import opened Results
  import opened Paging
  import opened PageTableWalker
  import opened PageTableBuilder
  import opened PageMap
  import opened AddressSpace
  import opened TlbInvisibility
  import opened TlbRuns

  // ---------- Memory inside and outside a range ----------

  ghost predicate SameInside(before: Memory, after: Memory, lo: nat, hi: nat)
  {
    |after| == |before| && forall a :: 0 <= a < |before| && lo <= a < hi ==> after[a] == before[a]
  }

  ghost predicate SameBeyond(before: Memory, after: Memory, lo: nat, hi: nat)
  {
    |after| == |before| && forall a :: 0 <= a < |before| && (a < lo || hi <= a) ==> after[a] == before[a]
  }

  lemma BeyondTrans(m0: Memory, m1: Memory, m2: Memory, lo: nat, hi: nat, hi': nat)
    requires SameBeyond(m0, m1, lo, hi) && SameBeyond(m1, m2, lo, hi') && hi <= hi'
    ensures SameBeyond(m0, m2, lo, hi')
  {
  }

  lemma BeyondIsInside(before: Memory, after: Memory, lo: nat, hi: nat, lo': nat, hi': nat)
    requires SameBeyond(before, after, lo, hi) && (hi <= lo' || hi' <= lo)
    ensures SameInside(before, after, lo', hi')
  {
  }

  lemma StoreIsBeyond(mem: Memory, a: nat, raw: Qword, lo: nat, hi: nat)
    requires ContainsRange(mem, a, 8) && lo <= a && a + 8 <= hi
    ensures SameBeyond(mem, StoreEntry(mem, a, raw), lo, hi)
  {
    StoreBytes(mem, a, 8, raw);
  }

  lemma ClearIsBeyond(mem: Memory, page: nat, lo: nat, hi: nat)
    requires ContainsRange(mem, page, PAGE_4K) && lo <= page && page + PAGE_4K <= hi
    ensures SameBeyond(mem, ClearTable(mem, page), lo, hi)
  {
    var after := ClearTable(mem, page);
    forall a | 0 <= a < |mem| && (a < lo || hi <= a) ensures after[a] == mem[a] {
    }
  }

  lemma EntryInside(before: Memory, after: Memory, lo: nat, hi: nat, c: nat, i: nat)
    requires SameInside(before, after, lo, hi) && lo <= c && c + PAGE_4K <= hi && ContainsRange(before, c, PAGE_4K) && i < 512
    ensures LoadEntry(after, c + 8 * i) == LoadEntry(before, c + 8 * i) && Entry(after, c, i) == Entry(before, c, i)
  {
    var a := c + 8 * i;
    assert after[a..a + 8] == before[a..a + 8];
  }

  // ---------- A tree in its arena ----------

  /** All tables of the tree lie from lo on; well-formedness bounds them by the cursor. */
  ghost predicate Within(tree: Tree, lo: nat)
  {
    forall c :: c in tree ==> lo <= c
  }

  lemma TableWithin(t: Tables, root: nat, tree: Tree, lo: nat, c: nat)
    requires WellFormed(t, root, tree) && Within(tree, lo) && c in tree
    ensures lo <= c && c + PAGE_4K <= t.next && c % PAGE_4K == 0 && ContainsRange(t.mem, c, PAGE_4K)
  {
    assert IsTablePage(t.mem, c, t.next);
  }

  /** What one table and everything below it say about an address depends on the arena alone. */
  lemma {:induction false} PathStays(t: Tables, after: Memory, root: nat, tree: Tree, lo: nat, c: nat, va: Qword, xd: bool)
    requires WellFormed(t, root, tree) && Within(tree, lo) && SameInside(t.mem, after, lo, t.next)
    requires c in tree && tree[c].piece == TablePiece(va, tree[c].level)
    ensures var walked := Walk(t.mem, xd, c, va, tree[c].level, TABLE_PERMISSIONS);
            && Walk(after, xd, c, va, tree[c].level, TABLE_PERMISSIONS) == walked
            && PathAccessed(after, xd, c, va, tree[c].level) == PathAccessed(t.mem, xd, c, va, tree[c].level)
            && LeafDirty(walked, after) == LeafDirty(walked, t.mem)
    decreases tree[c].level.Rank()
  {
    hide Decode, Piece, TableIndex, HasReservedBits, FrameOf, LoadEntry, WellFormed, SameInside;
    var node := tree[c];
    EntryPiece(va, node.level);
    var j := TableIndex(va, node.level);
    TableWithin(t, root, tree, lo, c);
    EntryInside(t.mem, after, lo, t.next, c, j);
    InsideLength(t.mem, after, lo, t.next);
    EntryIsOk(t, root, tree, c, j);
    var f := Entry(t.mem, c, j);
    if f.present && !IsLeaf(f, node.level) {
      LinkIsFollowed(f, node.level, xd);
      PathStays(t, after, root, tree, lo, f.address, va, xd);
    }
  }

  lemma InsideLength(before: Memory, after: Memory, lo: nat, hi: nat)
    requires SameInside(before, after, lo, hi)
    ensures |after| == |before|
  {
  }

  lemma TraceStays(t: Tables, after: Memory, root: nat, tree: Tree, lo: nat, va: Qword, xd: bool)
    requires WellFormed(t, root, tree) && Within(tree, lo) && SameInside(t.mem, after, lo, t.next)
    ensures TraceKept(t.mem, after, xd, root, va)
  {
    hide WellFormed, Walk, PathAccessed, LeafDirty, TablePiece, SameInside, Within;
    RootIsOnEveryPath(t, root, tree, va);
    RootInTree(t, root, tree);
    PathStays(t, after, root, tree, lo, root, va, xd);
  }

  /** Writes outside its arena leave a tree as it is. */
  lemma TreeStays(t: Tables, after: Memory, root: nat, tree: Tree, lo: nat)
    requires WellFormed(t, root, tree) && Within(tree, lo) && SameInside(t.mem, after, lo, t.next)
    ensures WellFormed(t.(mem := after), root, tree)
  {
    hide Decode, LoadEntry, HasReservedBits, SameInside, Entry;
    InsideLength(t.mem, after, lo, t.next);
    forall c | c in tree ensures IsTablePage(after, c, t.next) {
      assert IsTablePage(t.mem, c, t.next);
    }
    forall c, i | c in tree && 0 <= i < 512 ensures EntryOk(after, tree, c, i) {
      assert IsTablePage(t.mem, c, t.next) && EntryOk(t.mem, tree, c, i);
      EntryInside(t.mem, after, lo, t.next, c, i);
    }
    forall c | c in tree ensures LinkOk(after, root, tree, c) {
      assert LinkOk(t.mem, root, tree, c);
      if c != root {
        assert IsTablePage(t.mem, tree[c].parent, t.next);
        EntryInside(t.mem, after, lo, t.next, tree[c].parent, tree[c].piece % 512);
      }
    }
  }

  // ---------- What the operations touch ----------

  lemma {:induction false} TranslateFromStays(t: Tables, root: nat, tree: Tree, lo: nat, ps: PagingState, c: nat, va: Qword,
                                             permissions: Permissions, kind: AccessKind, privilege: Privilege)
    requires WellFormed(t, root, tree) && Within(tree, lo) && c in tree && tree[c].piece == TablePiece(va, tree[c].level)
    ensures SameBeyond(t.mem, TranslateFrom(t.mem, ps, c, va, tree[c].level, permissions, kind, privilege).0, lo, t.next)
    decreases tree[c].level.Rank()
  {
    hide Decode, Piece, TableIndex, HasReservedBits, FrameOf, LoadEntry, StoreEntry, WellFormed, Marked, SameBeyond, Denial, PageBase;
    var node := tree[c];
    EntryPiece(va, node.level);
    var j := TableIndex(va, node.level);
    TableWithin(t, root, tree, lo, c);
    EntryIsOk(t, root, tree, c, j);
    NothingBeyond(t.mem, lo, t.next);
    var a := EntryAddress(c, va, node.level);
    var raw := LoadEntry(t.mem, a);
    var f := Decode(raw);
    StoreIsBeyond(t.mem, a, Marked(raw, true, kind), lo, t.next);
    if f.present && !HasReservedBits(f, node.level, ps.executeDisable) && !IsLeaf(f, node.level) {
      var mem1 := StoreEntry(t.mem, a, Marked(raw, false, kind));
      EntryPlacesDiffer(c, j, c, j);
      MarkingOnlyMarks(t.mem, a, false, kind);
      MarksKeepTree(t, mem1, root, tree);
      StoreIsBeyond(t.mem, a, Marked(raw, false, kind), lo, t.next);
      TranslateFromStays(t.(mem := mem1), root, tree, lo, ps, f.address, va, Restrict(permissions, f), kind, privilege);
      BeyondTrans(t.mem, mem1, TranslateFrom(mem1, ps, f.address, va, node.level.Child(), Restrict(permissions, f), kind, privilege).0,
                  lo, t.next, t.next);
    }
  }

  lemma NothingBeyond(mem: Memory, lo: nat, hi: nat)
    ensures SameBeyond(mem, mem, lo, hi)
  {
  }

  /** An access writes accessed and dirty bits inside the arena of its tables and nothing else. */
  lemma TranslateStays(t: Tables, root: nat, tree: Tree, lo: nat, ps: PagingState, va: Qword, kind: AccessKind, privilege: Privilege)
    requires WellFormed(t, root, tree) && Within(tree, lo) && ps.cr3 == root
    ensures SameBeyond(t.mem, Translate(t.mem, ps, va, kind, privilege).0, lo, t.next)
  {
    hide WellFormed, TranslateFrom, TablePiece, SameBeyond, Within;
    NothingBeyond(t.mem, lo, t.next);
    RootIsOnEveryPath(t, root, tree, va);
    RootInTree(t, root, tree);
    TranslateFromStays(t, root, tree, lo, ps, root, va, TABLE_PERMISSIONS, kind, privilege);
  }

  lemma EnsureChildStays(t: Tables, root: nat, tree: Tree, lo: nat, arenaEnd: nat, table: nat, va: Qword, level: Level)
    requires WellFormed(t, root, tree) && Within(tree, lo) && lo <= t.next && table in tree
    ensures var t' := EnsureChild(t, arenaEnd, table, va, level).0;
            && SameBeyond(t.mem, t'.mem, lo, t'.next) && t.next <= t'.next
            && (arenaEnd != 0 && t.next <= arenaEnd ==> t'.next <= arenaEnd)
  {
    hide Decode, LoadEntry, StoreEntry, ClearTable, WellFormed, TableIndex, SameBeyond, MakeEntry;
    TableWithin(t, root, tree, lo, table);
    NothingBeyond(t.mem, lo, t.next);
    var (t', r) := EnsureChild(t, arenaEnd, table, va, level);
    if t'.next != t.next {
      var cleared := ClearTable(t.mem, t.next);
      var link := MakeEntry(t.next % TWO_64, TABLE_PERMISSIONS, false);
      ClearIsBeyond(t.mem, t.next, lo, t'.next);
      StoreIsBeyond(cleared, EntryAddress(table, va, level), link, lo, t'.next);
      BeyondTrans(t.mem, cleared, t'.mem, lo, t'.next, t'.next);
    }
  }

  lemma WriteLeafStays(t: Tables, root: nat, tree: Tree, lo: nat, table: nat, va: Qword, level: Level, raw: Qword)
    requires WellFormed(t, root, tree) && Within(tree, lo) && table in tree
    ensures SameBeyond(t.mem, WriteLeaf(t, table, va, level, raw).0.mem, lo, t.next)
    ensures WriteLeaf(t, table, va, level, raw).0.next == t.next
  {
    hide Decode, LoadEntry, StoreEntry, WellFormed, TableIndex, SameBeyond;
    TableWithin(t, root, tree, lo, table);
    NothingBeyond(t.mem, lo, t.next);
    StoreIsBeyond(t.mem, EntryAddress(table, va, level), raw, lo, t.next);
  }

  lemma {:induction false} MapFromStays(t: Tables, root: nat, tree: Tree, lo: nat, arenaEnd: nat, table: nat, leaf: Level, va: Qword, raw: Qword)
    requires WellFormed(t, root, tree) && Within(tree, lo) && lo <= t.next
    requires table in tree && tree[table].piece == TablePiece(va, tree[table].level) && leaf.Rank() <= tree[table].level.Rank()
    ensures var t' := MapFrom(t, arenaEnd, table, tree[table].level, leaf, va, raw).0;
            && SameBeyond(t.mem, t'.mem, lo, t'.next) && t.next <= t'.next
            && (arenaEnd != 0 && t.next <= arenaEnd ==> t'.next <= arenaEnd)
    decreases tree[table].level.Rank()
  {
    hide WellFormed, EnsureChild, WriteLeaf, TablePiece, SameBeyond, Walk;
    var at := tree[table].level;
    if at == leaf {
      WriteLeafStays(t, root, tree, lo, table, va, at, raw);
    } else {
      EnsureChildStays(t, root, tree, lo, arenaEnd, table, va, at);
      var tree1 := EnsureChildStep(t, root, tree, arenaEnd, table, va);
      var (t1, r) := EnsureChild(t, arenaEnd, table, va, at);
      if r.Ok? {
        MapFromStays(t1, root, tree1, lo, arenaEnd, r.value, leaf, va, raw);
        var t2 := MapFrom(t1, arenaEnd, r.value, at.Child(), leaf, va, raw).0;
        BeyondTrans(t.mem, t1.mem, t2.mem, lo, t1.next, t2.next);
      }
    }
  }

  /** Mapping writes inside its arena, up to the new cursor, and nothing else. */
  lemma MapStays(t: Tables, root: nat, tree: Tree, lo: nat, arenaEnd: nat, leaf: Level, va: Qword, pa: Qword, permissions: Permissions)
    requires WellFormed(t, root, tree) && Within(tree, lo) && lo <= t.next && !leaf.PML4?
    ensures var t' := Map(t, arenaEnd, root, leaf, va, pa, permissions).0;
            && SameBeyond(t.mem, t'.mem, lo, t'.next) && t.next <= t'.next
            && (arenaEnd != 0 && t.next <= arenaEnd ==> t'.next <= arenaEnd)
  {
    hide WellFormed, MapFrom, TablePiece, SameBeyond, Within, MakeEntry;
    NothingBeyond(t.mem, lo, t.next);
    RootIsOnEveryPath(t, root, tree, va);
    RootInTree(t, root, tree);
    MapFromStays(t, root, tree, lo, arenaEnd, root, leaf, va, MakeEntry(pa, permissions, !leaf.PT?));
  }

  lemma GrewWithin(t: Tables, t': Tables, tree: Tree, tree': Tree, lo: nat)
    requires Grew(t, t', tree, tree') && Within(tree, lo) && lo <= t.next
    ensures Within(tree', lo)
  {
  }

  /** Changing permissions writes inside the arena and nothing else. */
  lemma SetPermissionsStays(t: Tables, root: Qword, tree: Tree, lo: nat, va: Qword, permissions: Permissions)
    requires WellFormed(t, root, tree) && Within(tree, lo) && IsCanonical(va)
    ensures SameBeyond(t.mem, SetPermissions(t.mem, root, va, permissions).0, lo, t.next)
  {
    hide Decode, LoadEntry, StoreEntry, Walk, Translate, OnlyMarks, WellFormed, LeafDirty, Denial, PageBase, WithPermissions, SameBeyond, Within,
         TablePiece, TableIndex;
    NothingBeyond(t.mem, lo, t.next);
    var ps := FreshState(root);
    RootAligned(t, root, tree);
    TranslateFollowsWalk(t.mem, ps, va, READ, RING0);
    TranslateStays(t, root, tree, lo, ps, va, READ, RING0);
    var mem1 := Translate(t.mem, ps, va, READ, RING0).0;
    MarksKeepTree(t, mem1, root, tree);
    var walked := WalkRoot(t.mem, ps, va);
    if walked.Mapped? {
      RootIsOnEveryPath(t, root, tree, va);
      RootInTree(t, root, tree);
      var table := LeafIsInTree(t, root, tree, root, va, true);
      TableWithin(t, root, tree, lo, table);
      var a := walked.leaf.entryAddress;
      if ContainsRange(mem1, a, 8) {
        StoreIsBeyond(mem1, a, WithPermissions(LoadEntry(mem1, a), permissions), lo, t.next);
        BeyondTrans(t.mem, mem1, StoreEntry(mem1, a, WithPermissions(LoadEntry(mem1, a), permissions)), lo, t.next, t.next);
      }
    }
  }

  // ---------- Several arenas ----------

  /** An address space's tables: the root, the bounds of the arena, and the tree that fills it up to used. */
  datatype Arena = Arena(root: Qword, lo: nat, end: nat, used: nat, tree: Tree)

  ghost predicate ArenaOk(mem: Memory, a: Arena)
  {
    WellFormed(Tables(mem, a.used), a.root, a.tree) && Within(a.tree, a.lo) && a.lo <= a.used <= a.end
  }

  predicate SamePlace(a: Arena, b: Arena)
  {
    a.root == b.root && a.lo == b.lo && a.end == b.end
  }

  ghost predicate ArenasOk(mem: Memory, arenas: map<nat, Arena>)
  {
    && (forall p :: p in arenas ==> ArenaOk(mem, arenas[p]))
    && (forall p, q :: p in arenas && q in arenas && p != q ==> arenas[p].end <= arenas[q].lo || arenas[q].end <= arenas[p].lo)
  }

  lemma ArenaStays(mem: Memory, after: Memory, a: Arena)
    requires ArenaOk(mem, a) && SameInside(mem, after, a.lo, a.used)
    ensures ArenaOk(after, a)
    ensures forall va: Qword, xd :: TraceKept(mem, after, xd, a.root, va)
  {
    hide WellFormed, Within, SameInside, TraceKept;
    var t := Tables(mem, a.used);
    TreeStays(t, after, a.root, a.tree, a.lo);
    forall va: Qword, xd ensures TraceKept(mem, after, xd, a.root, va) {
      TraceStays(t, after, a.root, a.tree, a.lo, va, xd);
    }
  }

  /** Writing in one arena, so that its own tree stays in order, keeps all other trees and everything they say. */
  lemma ArenaWrite(mem: Memory, after: Memory, arenas: map<nat, Arena>, p: nat, a: Arena)
    requires ArenasOk(mem, arenas) && p in arenas && SamePlace(arenas[p], a)
    requires ArenaOk(after, a) && SameBeyond(mem, after, a.lo, a.used)
    ensures ArenasOk(after, arenas[p := a])
    ensures forall q, va: Qword, xd {:trigger TraceKept(mem, after, xd, arenas[q].root, va)} ::
              q in arenas && q != p ==> TraceKept(mem, after, xd, arenas[q].root, va)
  {
    hide WellFormed, Within, SameInside, TraceKept, SameBeyond;
    forall q | q in arenas && q != p
      ensures ArenaOk(after, arenas[q]) && forall va: Qword, xd :: TraceKept(mem, after, xd, arenas[q].root, va)
    {
      assert ArenaOk(mem, arenas[q]);
      BeyondIsInside(mem, after, a.lo, a.used, arenas[q].lo, arenas[q].used);
      ArenaStays(mem, after, arenas[q]);
    }
  }

  /** Writing outside all arenas keeps every tree. */
  lemma DataWrite(mem: Memory, after: Memory, arenas: map<nat, Arena>)
    requires ArenasOk(mem, arenas)
    requires forall p :: p in arenas ==> SameInside(mem, after, arenas[p].lo, arenas[p].end)
    ensures ArenasOk(after, arenas)
    ensures forall q, va: Qword, xd {:trigger TraceKept(mem, after, xd, arenas[q].root, va)} ::
              q in arenas ==> TraceKept(mem, after, xd, arenas[q].root, va)
  {
    hide WellFormed, Within, TraceKept;
    forall q | q in arenas
      ensures ArenaOk(after, arenas[q]) && forall va: Qword, xd :: TraceKept(mem, after, xd, arenas[q].root, va)
    {
      assert ArenaOk(mem, arenas[q]);
      assert SameInside(mem, after, arenas[q].lo, arenas[q].used);
      ArenaStays(mem, after, arenas[q]);
    }
  }
}
