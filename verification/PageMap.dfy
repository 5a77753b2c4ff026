/**
 The tables in memory are a page map: after any run of map calls, walks and permission
 changes, a walk finds the latest mapping that covers the address.
 */
module PageMap {
  import opened Arithmetic
  import opened MemoryBus
  import opened Results
  import opened Paging
  import opened PageTableWalker
  import opened PageTableBuilder

  // ---------- The tree of tables ----------

  /** A table page: its level, which piece of the address space it translates, and the table above it. */
  datatype Node = Node(level: Level, piece: nat, parent: nat)

  type Tree = map<nat, Node>

  /** The piece of the address space that the table used for va at this level translates. */
  function TablePiece(va: Qword, level: Level): nat
  {
    match level
    case PML4 => 0
    case PDPT => Piece(va, PML4)
    case PD => Piece(va, PDPT)
    case PT => Piece(va, PD)
  }

  lemma EntryPiece(va: Qword, level: Level)
    ensures Piece(va, level) == 512 * TablePiece(va, level) + TableIndex(va, level)
  {
    PieceSplits(va, level);
  }

  function Entry(mem: Memory, table: nat, i: nat): Fields
    requires ContainsRange(mem, table, PAGE_4K) && i < 512
  {
    Decode(LoadEntry(mem, table + 8 * i))
  }

  ghost predicate IsTablePage(mem: Memory, table: nat, next: nat)
  {
    table % PAGE_4K == 0 && ContainsRange(mem, table, PAGE_4K) && table + PAGE_4K <= next && table < TWO_52
  }

  /** A present entry has no reserved bits, and if it is not a leaf it links to the table for its piece. */
  ghost predicate EntryOk(mem: Memory, tree: Tree, table: nat, i: nat)
    requires table in tree && ContainsRange(mem, table, PAGE_4K) && i < 512
  {
    var f := Entry(mem, table, i);
    var node := tree[table];
    f.present ==>
      && !HasReservedBits(f, node.level, true)
      && (!IsLeaf(f, node.level) ==>
            && f.writable && f.user && !f.noExecute
            && f.address in tree
            && tree[f.address].level == node.level.Child()
            && tree[f.address].piece == 512 * node.piece + i)
  }

  /** A table other than the root is linked from the entry of its parent that covers its piece. */
  ghost predicate LinkOk(mem: Memory, root: nat, tree: Tree, table: nat)
    requires table in tree && forall c :: c in tree ==> ContainsRange(mem, c, PAGE_4K)
  {
    var node := tree[table];
    if table == root then node.level == PML4 && node.piece == 0
    else
      && node.parent in tree
      && var above := tree[node.parent];
         && !above.level.PT? && above.level.Child() == node.level && above.piece == node.piece / 512
         && var f := Entry(mem, node.parent, node.piece % 512);
            f.present && !IsLeaf(f, above.level) && f.address == table
  }

  ghost predicate WellFormed(t: Tables, root: nat, tree: Tree)
  {
    && |t.mem| <= TWO_52 && t.next % PAGE_4K == 0
    && root in tree
    && (forall c :: c in tree ==> IsTablePage(t.mem, c, t.next))
    && (forall c, i :: c in tree && 0 <= i < 512 ==> EntryOk(t.mem, tree, c, i))
    && (forall c :: c in tree ==> LinkOk(t.mem, root, tree, c))
  }

  lemma EntryPlacesDiffer(c: nat, i: nat, d: nat, j: nat)
    requires c % PAGE_4K == 0 && d % PAGE_4K == 0 && i < 512 && j < 512
    ensures c + 8 * i == d + 8 * j <==> c == d && i == j
    ensures (c + 8 * i) % 8 == 0
  {
    DivUnique(c + 8 * i, PAGE_4K, c / PAGE_4K, 8 * i);
    DivUnique(d + 8 * j, PAGE_4K, d / PAGE_4K, 8 * j);
    PageAligned(c);
    DivUnique(c + 8 * i, 8, c / 8 + i, 0);
  }

  lemma TableInRange(t: Tables, root: nat, tree: Tree, table: nat)
    requires WellFormed(t, root, tree) && table in tree
    ensures IsTablePage(t.mem, table, t.next) && ContainsRange(t.mem, table, PAGE_4K)
  {
  }

  lemma EntryIsOk(t: Tables, root: nat, tree: Tree, table: nat, i: nat)
    requires WellFormed(t, root, tree) && table in tree && i < 512
    ensures ContainsRange(t.mem, table, PAGE_4K) && EntryOk(t.mem, tree, table, i)
  {
    assert IsTablePage(t.mem, table, t.next);
  }

  lemma LinkIsOk(t: Tables, root: nat, tree: Tree, table: nat)
    requires WellFormed(t, root, tree) && table in tree
    ensures (forall c :: c in tree ==> ContainsRange(t.mem, c, PAGE_4K)) && LinkOk(t.mem, root, tree, table)
  {
    assert forall c :: c in tree ==> IsTablePage(t.mem, c, t.next);
  }

  /** A table that is on the path of an address is reached by the walk from the root. */
  lemma {:induction false} WalkReaches(t: Tables, root: nat, tree: Tree, table: nat, va: Qword, xd: bool)
    requires WellFormed(t, root, tree) && table in tree && tree[table].piece == TablePiece(va, tree[table].level)
    ensures Walk(t.mem, xd, root, va, PML4, TABLE_PERMISSIONS)
            == Walk(t.mem, xd, table, va, tree[table].level, TABLE_PERMISSIONS)
    decreases 4 - tree[table].level.Rank()
  {
    hide Decode, Piece, TableIndex, HasReservedBits, FrameOf, LoadEntry, WellFormed;
    LinkIsOk(t, root, tree, table);
    if table != root {
      var node := tree[table];
      var above := tree[node.parent];
      EntryPiece(va, above.level);
      var i := TableIndex(va, above.level);
      DivUnique(node.piece, 512, TablePiece(va, above.level), i);
      EntryIsOk(t, root, tree, node.parent, i);
      WalkReaches(t, root, tree, node.parent, va, xd);
      LinkIsFollowed(Entry(t.mem, node.parent, i), above.level, xd);
    }
  }

  lemma LinkIsFollowed(f: Fields, level: Level, xd: bool)
    requires !HasReservedBits(f, level, true) && f.writable && f.user && !f.noExecute
    ensures !HasReservedBits(f, level, xd) && Restrict(TABLE_PERMISSIONS, f) == TABLE_PERMISSIONS
  {
  }

  // ---------- Effect of changing one entry ----------

  /** Both memories hold the same entries in the tables of the tree, except at one place. */
  ghost predicate SameExcept(before: Memory, after: Memory, tree: Tree, table: nat, i: nat)
  {
    && |before| == |after|
    && (forall c :: c in tree ==> ContainsRange(before, c, PAGE_4K))
    && forall c, j :: c in tree && 0 <= j < 512 && (c, j) != (table, i) ==> Entry(after, c, j) == Entry(before, c, j)
  }

  lemma SameAt(before: Memory, after: Memory, tree: Tree, table: nat, i: nat, c: nat, j: nat)
    requires SameExcept(before, after, tree, table, i) && c in tree && j < 512 && (c, j) != (table, i)
    ensures |before| == |after| && ContainsRange(before, c, PAGE_4K) && Entry(after, c, j) == Entry(before, c, j)
  {
  }

  /** Addresses outside the piece of the changed entry are translated as before. */
  lemma {:induction false} WalkElsewhere(t: Tables, after: Memory, root: nat, tree: Tree, table: nat, i: nat,
                                        c: nat, va: Qword, xd: bool)
    requires WellFormed(t, root, tree) && table in tree && i < 512 && SameExcept(t.mem, after, tree, table, i)
    requires c in tree && tree[c].piece == TablePiece(va, tree[c].level)
    requires Piece(va, tree[table].level) != 512 * tree[table].piece + i
    ensures Walk(after, xd, c, va, tree[c].level, TABLE_PERMISSIONS)
            == Walk(t.mem, xd, c, va, tree[c].level, TABLE_PERMISSIONS)
    decreases tree[c].level.Rank()
  {
    hide Decode, Piece, TableIndex, HasReservedBits, FrameOf, LoadEntry, WellFormed, SameExcept;
    var node := tree[c];
    EntryPiece(va, node.level);
    var j := TableIndex(va, node.level);
    SameAt(t.mem, after, tree, table, i, c, j);
    EntryIsOk(t, root, tree, c, j);
    var f := Entry(t.mem, c, j);
    if f.present && !IsLeaf(f, node.level) {
      LinkIsFollowed(f, node.level, xd);
      WalkElsewhere(t, after, root, tree, table, i, f.address, va, xd);
    }
  }

  lemma RootIsOnEveryPath(t: Tables, root: nat, tree: Tree, va: Qword)
    requires WellFormed(t, root, tree)
    ensures tree[root].level == PML4 && tree[root].piece == TablePiece(va, PML4)
  {
    assert LinkOk(t.mem, root, tree, root);
  }

  // ---------- Writing a leaf ----------

  lemma StoreIsLocal(t: Tables, root: nat, tree: Tree, table: nat, i: nat, raw: Qword)
    requires WellFormed(t, root, tree) && table in tree && i < 512
    ensures ContainsRange(t.mem, table + 8 * i, 8)
    ensures var after := StoreEntry(t.mem, table + 8 * i, raw);
            SameExcept(t.mem, after, tree, table, i) && Entry(after, table, i) == Decode(raw)
  {
    hide Decode, LoadEntry, StoreEntry, EntryOk, LinkOk;
    assert IsTablePage(t.mem, table, t.next);
    var after := StoreEntry(t.mem, table + 8 * i, raw);
    EntryPlacesDiffer(table, i, table, i);
    EntryAfterStore(t.mem, table + 8 * i, raw, table + 8 * i);
    forall c, j | c in tree && 0 <= j < 512 && (c, j) != (table, i)
      ensures Entry(after, c, j) == Entry(t.mem, c, j)
    {
      assert IsTablePage(t.mem, c, t.next);
      EntryPlacesDiffer(c, j, table, i);
      EntryAfterStore(t.mem, table + 8 * i, raw, c + 8 * j);
    }
  }

  /** Replacing an entry that links to no table by one that links to no table keeps the tree. */
  lemma LeafKeepsTree(t: Tables, root: nat, tree: Tree, table: nat, i: nat, after: Memory)
    requires WellFormed(t, root, tree) && table in tree && i < 512 && SameExcept(t.mem, after, tree, table, i)
    requires var f := Entry(t.mem, table, i); f.present ==> IsLeaf(f, tree[table].level)
    requires EntryOk(after, tree, table, i) && IsLeaf(Entry(after, table, i), tree[table].level)
    ensures WellFormed(t.(mem := after), root, tree)
  {
    hide Entry, HasReservedBits;
    forall c, j | c in tree && 0 <= j < 512
      ensures EntryOk(after, tree, c, j)
    {
      assert EntryOk(t.mem, tree, c, j);
    }
    forall c | c in tree
      ensures LinkOk(after, root, tree, c)
    {
      assert LinkOk(t.mem, root, tree, c);
    }
  }

  /** What a leaf for this frame means to a walk. */
  function LeafWalk(level: Level, a: nat, pa: Qword, permissions: Permissions, xd: bool): Walked
  {
    if !xd && !permissions.executable then Unmapped(RESERVED_BIT) else Mapped(Leaf(level, a, pa % TWO_52, permissions))
  }

  lemma FrameSurvives(pa: Qword, level: Level, f: Fields)
    requires !level.PML4? && pa % level.Span() == 0 && f.address == pa % TWO_52 / PAGE_4K * PAGE_4K
    ensures f.address % level.Span() == 0 && FrameOf(f, level) == pa % TWO_52
  {
    match level
    case PT => MultipleSurvives(pa, 0x1000, 0x100_0000_0000, 1);
    case PD => MultipleSurvives(pa, 0x20_0000, 0x8000_0000, 512);
    case PDPT => MultipleSurvives(pa, 0x4000_0000, 0x40_0000, 0x4_0000);
  }

  lemma MultipleSurvives(pa: nat, span: nat, k: nat, j: nat)
    requires span > 0 && k > 0 && j > 0 && span * k == TWO_52 && PAGE_4K * j == span && pa % span == 0
    ensures var x := pa % TWO_52; x / PAGE_4K * PAGE_4K == x && x % span == 0 && x / span * span == x
  {
    var x := pa % TWO_52;
    ModMod(pa, span, k);
    ModMod(x, PAGE_4K, j);
    assert x % PAGE_4K == 0;
    assert x == span * (x / span) + x % span;
  }

  /** The fields of a leaf that maps this frame with these permissions; accessed and dirty may be anything. */
  ghost predicate IsLeafFor(f: Fields, level: Level, pa: Qword, permissions: Permissions)
  {
    && f.present && !f.reservedHigh && IsLeaf(f, level)
    && f.address == pa % TWO_52 / PAGE_4K * PAGE_4K
    && permissions == Permissions(f.writable, f.user, !f.noExecute)
  }

  /** A written leaf is well formed, and a walk that arrives at it reads back exactly what was written. */
  lemma LeafReadsBack(mem: Memory, tree: Tree, table: nat, va: Qword, level: Level, pa: Qword, permissions: Permissions, xd: bool)
    requires ContainsRange(mem, table, PAGE_4K) && table in tree && tree[table].level == level
    requires !level.PML4? && pa % level.Span() == 0
    requires IsLeafFor(Entry(mem, table, TableIndex(va, level)), level, pa, permissions)
    ensures EntryOk(mem, tree, table, TableIndex(va, level))
    ensures IsLeaf(Entry(mem, table, TableIndex(va, level)), level)
    ensures Walk(mem, xd, table, va, level, TABLE_PERMISSIONS)
            == LeafWalk(level, EntryAddress(table, va, level), pa, permissions, xd)
  {
    hide Decode, LoadEntry, TableIndex, FrameOf;
    var f := Entry(mem, table, TableIndex(va, level));
    FrameSurvives(pa, level, f);
  }

  lemma LeafStep(t: Tables, root: nat, tree: Tree, table: nat, va: Qword, level: Level, pa: Qword, permissions: Permissions)
    requires WellFormed(t, root, tree) && table in tree && tree[table].level == level && !level.PML4?
    requires tree[table].piece == TablePiece(va, level) && pa % level.Span() == 0
    ensures var (t', r) := WriteLeaf(t, table, va, level, MakeEntry(pa, permissions, !level.PT?));
            && (r.Err? ==> t' == t)
            && (r.Ok? ==>
                  && t'.next == t.next && WellFormed(t', root, tree)
                  && forall other: Qword, xd :: Walk(t'.mem, xd, root, other, PML4, TABLE_PERMISSIONS) ==
                       if Piece(other, level) == Piece(va, level)
                       then LeafWalk(level, EntryAddress(table, va, level), pa, permissions, xd)
                       else Walk(t.mem, xd, root, other, PML4, TABLE_PERMISSIONS))
  {
    LeafWritten(t, root, tree, table, va, level, pa, permissions);
    hide *;
    var (t', r) := WriteLeaf(t, table, va, level, MakeEntry(pa, permissions, !level.PT?));
    if r.Ok? {
      forall other: Qword, xd
        ensures Walk(t'.mem, xd, root, other, PML4, TABLE_PERMISSIONS) ==
                if Piece(other, level) == Piece(va, level)
                then LeafWalk(level, EntryAddress(table, va, level), pa, permissions, xd)
                else Walk(t.mem, xd, root, other, PML4, TABLE_PERMISSIONS)
      {
        LeafStepAt(t, t', root, tree, table, va, level, pa, permissions, other, xd);
      }
    }
  }

  lemma LeafWritten(t: Tables, root: nat, tree: Tree, table: nat, va: Qword, level: Level, pa: Qword, permissions: Permissions)
    requires WellFormed(t, root, tree) && table in tree && tree[table].level == level && !level.PML4?
    requires pa % level.Span() == 0
    ensures var (t', r) := WriteLeaf(t, table, va, level, MakeEntry(pa, permissions, !level.PT?));
            var i := TableIndex(va, level);
            && (r.Err? ==> t' == t)
            && (r.Ok? ==>
                  && t'.next == t.next && WellFormed(t', root, tree) && SameExcept(t.mem, t'.mem, tree, table, i)
                  && ContainsRange(t'.mem, table, PAGE_4K)
                  && IsLeafFor(Entry(t'.mem, table, i), level, pa, permissions))
  {
    hide Decode, LoadEntry, StoreEntry, WellFormed, SameExcept, TableIndex, EntryOk, Level.Span;
    var raw := MakeEntry(pa, permissions, !level.PT?);
    var (t', r) := WriteLeaf(t, table, va, level, raw);
    var i := TableIndex(va, level);
    TableInRange(t, root, tree, table);
    StoreIsLocal(t, root, tree, table, i, raw);
    if r.Ok? {
      LeafReadsBack(t'.mem, tree, table, va, level, pa, permissions, true);
      LeafKeepsTree(t, root, tree, table, i, t'.mem);
    }
  }

  lemma LeafStepAt(t: Tables, t': Tables, root: nat, tree: Tree, table: nat, va: Qword, level: Level, pa: Qword,
                   permissions: Permissions, other: Qword, xd: bool)
    requires WellFormed(t, root, tree) && table in tree && tree[table].level == level && !level.PML4?
    requires tree[table].piece == TablePiece(va, level) && pa % level.Span() == 0
    requires WellFormed(t', root, tree) && SameExcept(t.mem, t'.mem, tree, table, TableIndex(va, level))
    requires IsLeafFor(Entry(t'.mem, table, TableIndex(va, level)), level, pa, permissions)
    ensures Walk(t'.mem, xd, root, other, PML4, TABLE_PERMISSIONS) ==
            if Piece(other, level) == Piece(va, level)
            then LeafWalk(level, EntryAddress(table, va, level), pa, permissions, xd)
            else Walk(t.mem, xd, root, other, PML4, TABLE_PERMISSIONS)
  {
    hide WellFormed, SameExcept, Decode, LoadEntry, MakeEntry, Walk, Piece, TableIndex, TablePiece, LeafWalk;
    EntryPiece(va, level);
    EntryPiece(other, level);
    if Piece(other, level) == Piece(va, level) {
      assert TableIndex(other, level) == TableIndex(va, level) && TablePiece(other, level) == TablePiece(va, level);
      TableInRange(t', root, tree, table);
      LeafReadsBack(t'.mem, tree, table, other, level, pa, permissions, xd);
      WalkReaches(t', root, tree, table, other, xd);
    } else {
      RootIsOnEveryPath(t, root, tree, other);
      RootInTree(t, root, tree);
      WalkElsewhere(t, t'.mem, root, tree, table, TableIndex(va, level), root, other, xd);
    }
  }

  lemma RootInTree(t: Tables, root: nat, tree: Tree)
    requires WellFormed(t, root, tree)
    ensures root in tree
  {
  }

  // ---------- Adding a table ----------

  lemma ClearedPage(mem: Memory, page: nat, c: nat, i: nat)
    requires page % PAGE_4K == 0 && ContainsRange(mem, page, PAGE_4K)
    requires c % PAGE_4K == 0 && ContainsRange(mem, c, PAGE_4K) && i < 512
    ensures c != page ==> Entry(ClearTable(mem, page), c, i) == Entry(mem, c, i)
    ensures c == page ==> !Entry(ClearTable(mem, page), c, i).present
  {
    var a := c + 8 * i;
    var after := ClearTable(mem, page);
    if c != page {
      PagesApart(c, page);
      assert after[a..a + 8] == mem[a..a + 8];
    } else {
      assert after[a..a + 8] == [0] + after[a..a + 8][1..];
      EvenIsAbsent(after, a);
    }
  }

  lemma PagesApart(c: nat, d: nat)
    requires c % PAGE_4K == 0 && d % PAGE_4K == 0 && c != d
    ensures c + PAGE_4K <= d || d + PAGE_4K <= c
  {
  }

  lemma EvenIsAbsent(mem: Memory, a: nat)
    requires ContainsRange(mem, a, 8) && mem[a] == 0
    ensures !Decode(LoadEntry(mem, a)).present
  {
    assert mem[a..a + 8][0] == 0;
    assert LoadEntry(mem, a) % 256 == 0;
  }

  /** Memory in which a fresh empty table at t.next has been linked from the entry for va. */
  ghost predicate Linked(t: Tables, root: nat, tree: Tree, table: nat, va: Qword, after: Memory)
  {
    && WellFormed(t, root, tree) && table in tree && !tree[table].level.PT?
    && tree[table].piece == TablePiece(va, tree[table].level)
    && t.next !in tree && t.next + PAGE_4K <= TWO_52 && ContainsRange(t.mem, t.next, PAGE_4K)
    && SameExcept(t.mem, after, tree, table, TableIndex(va, tree[table].level))
    && !Entry(t.mem, table, TableIndex(va, tree[table].level)).present
    && (forall j :: 0 <= j < 512 ==> !Entry(after, t.next, j).present)
    && Entry(after, table, TableIndex(va, tree[table].level))
       == Fields(true, true, true, false, false, false, false, false, t.next)
  }

  ghost function WithTable(t: Tables, tree: Tree, table: nat, va: Qword): Tree
    requires table in tree && !tree[table].level.PT?
  {
    tree[t.next := Node(tree[table].level.Child(), Piece(va, tree[table].level), table)]
  }

  lemma LinkedEntry(t: Tables, root: nat, tree: Tree, table: nat, va: Qword, after: Memory, c: nat, j: nat)
    requires Linked(t, root, tree, table, va, after) && (c in tree || c == t.next) && j < 512
    ensures EntryOk(after, WithTable(t, tree, table, va), c, j)
  {
    hide Entry, TablePiece, Piece, TableIndex, HasReservedBits;
    var level := tree[table].level;
    EntryPiece(va, level);
    if c == t.next {
    } else if (c, j) == (table, TableIndex(va, level)) {
      NoReservedBits(level, t.next);
    } else {
      assert EntryOk(t.mem, tree, c, j);
    }
  }

  lemma NoReservedBits(level: Level, address: nat)
    ensures !HasReservedBits(Fields(true, true, true, false, false, false, false, false, address), level, true)
  {
  }

  lemma LinkedLink(t: Tables, root: nat, tree: Tree, table: nat, va: Qword, after: Memory, c: nat)
    requires Linked(t, root, tree, table, va, after) && (c in tree || c == t.next)
    requires forall d :: d in WithTable(t, tree, table, va) ==> ContainsRange(after, d, PAGE_4K)
    ensures LinkOk(after, root, WithTable(t, tree, table, va), c)
  {
    hide Entry, TablePiece, Piece, TableIndex, EntryOk;
    var level := tree[table].level;
    if c == t.next {
      EntryPiece(va, level);
      DivUnique(Piece(va, level), 512, tree[table].piece, TableIndex(va, level));
    } else {
      assert LinkOk(t.mem, root, tree, c);
    }
  }

  lemma NewTableKeepsTree(t: Tables, root: nat, tree: Tree, table: nat, va: Qword, after: Memory)
    requires Linked(t, root, tree, table, va, after)
    ensures WellFormed(Tables(after, t.next + PAGE_4K), root, WithTable(t, tree, table, va))
  {
    hide Entry, TablePiece, Piece, TableIndex, EntryOk, LinkOk;
    var tree' := WithTable(t, tree, table, va);
    forall c | c in tree' ensures IsTablePage(after, c, t.next + PAGE_4K) {
      assert c != t.next ==> IsTablePage(t.mem, c, t.next);
    }
    forall c, j | c in tree' && 0 <= j < 512 ensures EntryOk(after, tree', c, j) {
      LinkedEntry(t, root, tree, table, va, after, c, j);
    }
    forall c | c in tree' ensures LinkOk(after, root, tree', c) {
      LinkedLink(t, root, tree, table, va, after, c);
    }
  }

  /** The tree keeps its tables, takes new ones from the cursor on, and has the first of them if the cursor moved. */
  ghost predicate Grew(t: Tables, t': Tables, tree: Tree, tree': Tree)
  {
    && t.next <= t'.next
    && (forall c :: c in tree ==> c in tree')
    && (forall c :: c in tree' ==> c in tree || t.next <= c)
    && (t'.next != t.next ==> t.next in tree')
  }

  lemma GrewTrans(t: Tables, t1: Tables, t2: Tables, tree: Tree, tree1: Tree, tree2: Tree)
    requires Grew(t, t1, tree, tree1) && Grew(t1, t2, tree1, tree2)
    ensures Grew(t, t2, tree, tree2)
  {
  }

  lemma GrewNothing(t: Tables, t': Tables, tree: Tree)
    requires t'.next == t.next
    ensures Grew(t, t', tree, tree)
  {
  }

  /** ensure_child_table leaves every translation as it was; when it fails it changes nothing at all. */
  lemma EnsureChildStep(t: Tables, root: nat, tree: Tree, arenaEnd: nat, table: nat, va: Qword) returns (tree': Tree)
    requires WellFormed(t, root, tree) && table in tree && !tree[table].level.PT?
    requires tree[table].piece == TablePiece(va, tree[table].level)
    ensures var level := tree[table].level;
            var (t', r) := EnsureChild(t, arenaEnd, table, va, level);
            && (r.Err? ==> t' == t)
            && Grew(t, t', tree, tree')
            && (r.Ok? ==>
                  && WellFormed(t', root, tree') && r.value in tree'
                  && tree'[r.value].level == level.Child() && tree'[r.value].piece == TablePiece(va, level.Child())
                  && forall other: Qword, xd :: Walk(t'.mem, xd, root, other, PML4, TABLE_PERMISSIONS)
                                                == Walk(t.mem, xd, root, other, PML4, TABLE_PERMISSIONS))
  {
    hide *;
    tree' := tree;
    TableInRange(t, root, tree, table);
    GrewNothing(t, t, tree);
    if Entry(t.mem, table, TableIndex(va, tree[table].level)).present {
      OldChildStep(t, root, tree, arenaEnd, table, va);
    } else if HasRoomForTable(t, arenaEnd) {
      NewChildStep(t, root, tree, arenaEnd, table, va);
      tree' := WithTable(t, tree, table, va);
    } else {
      NoChildStep(t, arenaEnd, table, va, tree[table].level);
    }
  }

  lemma OldChildStep(t: Tables, root: nat, tree: Tree, arenaEnd: nat, table: nat, va: Qword)
    requires WellFormed(t, root, tree) && table in tree && !tree[table].level.PT?
    requires tree[table].piece == TablePiece(va, tree[table].level) && ContainsRange(t.mem, table, PAGE_4K)
    requires Entry(t.mem, table, TableIndex(va, tree[table].level)).present
    ensures var level := tree[table].level;
            var (t', r) := EnsureChild(t, arenaEnd, table, va, level);
            && t' == t
            && (r.Ok? ==> r.value in tree && tree[r.value].level == level.Child()
                          && tree[r.value].piece == TablePiece(va, level.Child()))
  {
    hide Piece, Decode, LoadEntry, LinkOk;
    EntryPiece(va, tree[table].level);
    assert EntryOk(t.mem, tree, table, TableIndex(va, tree[table].level));
  }

  lemma NoChildStep(t: Tables, arenaEnd: nat, table: nat, va: Qword, level: Level)
    requires ContainsRange(t.mem, table, PAGE_4K) && !Entry(t.mem, table, TableIndex(va, level)).present
    requires !HasRoomForTable(t, arenaEnd)
    ensures EnsureChild(t, arenaEnd, table, va, level) == (t, Err(OutOfRange))
  {
    hide Decode, LoadEntry;
  }

  lemma NewChildStep(t: Tables, root: nat, tree: Tree, arenaEnd: nat, table: nat, va: Qword)
    requires WellFormed(t, root, tree) && table in tree && !tree[table].level.PT?
    requires tree[table].piece == TablePiece(va, tree[table].level) && ContainsRange(t.mem, table, PAGE_4K)
    requires !Entry(t.mem, table, TableIndex(va, tree[table].level)).present && HasRoomForTable(t, arenaEnd)
    ensures var level := tree[table].level;
            var (t', r) := EnsureChild(t, arenaEnd, table, va, level);
            var tree' := WithTable(t, tree, table, va);
            && r.Ok? && WellFormed(t', root, tree') && r.value in tree' && Grew(t, t', tree, tree')
            && tree'[r.value].level == level.Child() && tree'[r.value].piece == TablePiece(va, level.Child())
            && forall other: Qword, xd :: Walk(t'.mem, xd, root, other, PML4, TABLE_PERMISSIONS)
                                          == Walk(t.mem, xd, root, other, PML4, TABLE_PERMISSIONS)
  {
    hide Piece, Decode, LoadEntry, WellFormed, EnsureChild, Linked, Walk;
    var t' := EnsureChild(t, arenaEnd, table, va, tree[table].level).0;
    NewTable(t, root, tree, arenaEnd, table, va);
    NewTableKeepsTree(t, root, tree, table, va, t'.mem);
    forall other: Qword, xd
      ensures Walk(t'.mem, xd, root, other, PML4, TABLE_PERMISSIONS)
              == Walk(t.mem, xd, root, other, PML4, TABLE_PERMISSIONS)
    {
      NewTableWalk(t, t', root, tree, table, va, other, xd);
    }
  }

  lemma NewTable(t: Tables, root: nat, tree: Tree, arenaEnd: nat, table: nat, va: Qword)
    requires WellFormed(t, root, tree) && table in tree && !tree[table].level.PT?
    requires tree[table].piece == TablePiece(va, tree[table].level)
    requires ContainsRange(t.mem, table, PAGE_4K) && !Entry(t.mem, table, TableIndex(va, tree[table].level)).present
    requires HasRoomForTable(t, arenaEnd)
    ensures var (t', r) := EnsureChild(t, arenaEnd, table, va, tree[table].level);
            && r == Ok(t.next) && t'.next == t.next + PAGE_4K
            && Linked(t, root, tree, table, va, t'.mem)
  {
    hide Piece, TablePiece, Decode, LoadEntry, StoreEntry, ClearTable, TableIndex, EntryOk, LinkOk;
    var level := tree[table].level;
    var (t', r) := EnsureChild(t, arenaEnd, table, va, level);
    var i := TableIndex(va, level);
    assert IsTablePage(t.mem, table, t.next);
    assert t.next in tree ==> IsTablePage(t.mem, t.next, t.next);
    var link := MakeEntry(t.next % TWO_64, TABLE_PERMISSIONS, false);
    var cleared := ClearTable(t.mem, t.next);
    var a := table + 8 * i;
    assert t'.mem == StoreEntry(cleared, a, link);
    forall c, j | (c in tree || c == t.next) && 0 <= j < 512
      ensures ContainsRange(t.mem, c, PAGE_4K)
      ensures c == t.next ==> !Entry(t'.mem, c, j).present
      ensures c in tree && (c, j) != (table, i) ==> Entry(t'.mem, c, j) == Entry(t.mem, c, j)
      ensures c == table && j == i ==> Entry(t'.mem, c, j) == Decode(link)
    {
      assert c in tree ==> IsTablePage(t.mem, c, t.next);
      ClearedPage(t.mem, t.next, c, j);
      EntryPlacesDiffer(c, j, table, i);
      EntryPlacesDiffer(table, i, table, i);
      EntryAfterStore(cleared, a, link, c + 8 * j);
    }
    NextFits(t.next);
  }

  lemma NextFits(next: nat)
    requires next % PAGE_4K == 0 && next + PAGE_4K <= TWO_52
    ensures next % TWO_64 % TWO_52 / PAGE_4K * PAGE_4K == next
  {
  }

  lemma NewTableWalk(t: Tables, t': Tables, root: nat, tree: Tree, table: nat, va: Qword, other: Qword, xd: bool)
    requires Linked(t, root, tree, table, va, t'.mem) && WellFormed(t', root, WithTable(t, tree, table, va))
    ensures Walk(t'.mem, xd, root, other, PML4, TABLE_PERMISSIONS) == Walk(t.mem, xd, root, other, PML4, TABLE_PERMISSIONS)
  {
    hide WellFormed, SameExcept, Decode, LoadEntry, Piece, TableIndex, HasReservedBits, FrameOf;
    var level := tree[table].level;
    EntryPiece(va, level);
    EntryPiece(other, level);
    if Piece(other, level) == Piece(va, level) {
      assert TableIndex(other, level) == TableIndex(va, level) && TablePiece(other, level) == TablePiece(va, level);
      assert TablePiece(other, level.Child()) == Piece(other, level);
      WalkReaches(t, root, tree, table, other, xd);
      WalkReaches(t', root, WithTable(t, tree, table, va), t.next, other, xd);
      TableInRange(t', root, WithTable(t, tree, table, va), t.next);
      TableInRange(t, root, tree, table);
      assert !Entry(t'.mem, t.next, TableIndex(other, level.Child())).present;
    } else {
      RootIsOnEveryPath(t, root, tree, other);
      RootInTree(t, root, tree);
      WalkElsewhere(t, t'.mem, root, tree, table, TableIndex(va, level), root, other, xd);
    }
  }

  // ---------- One map call ----------

  /** The translation of every address after a call that succeeded: new inside the mapped page, unchanged outside. */
  ghost predicate MapsPage(before: Memory, after: Memory, root: nat, level: Level, va: Qword, pa: Qword,
                           permissions: Permissions, a: nat)
  {
    forall other: Qword, xd ::
      Walk(after, xd, root, other, PML4, TABLE_PERMISSIONS)
      == if Piece(other, level) == Piece(va, level) then LeafWalk(level, a, pa, permissions, xd)
         else Walk(before, xd, root, other, PML4, TABLE_PERMISSIONS)
  }

  ghost predicate SameWalks(before: Memory, after: Memory, root: nat)
  {
    forall other: Qword, xd :: Walk(after, xd, root, other, PML4, TABLE_PERMISSIONS)
                               == Walk(before, xd, root, other, PML4, TABLE_PERMISSIONS)
  }

  lemma LeafTakesNoTable(t: Tables, table: nat, va: Qword, level: Level, raw: Qword)
    ensures WriteLeaf(t, table, va, level, raw).0.next == t.next
  {
  }

  lemma {:induction false} MapFromStep(t: Tables, root: nat, tree: Tree, arenaEnd: nat, table: nat, leaf: Level, va: Qword,
                                       pa: Qword, permissions: Permissions) returns (tree': Tree, a: nat)
    requires WellFormed(t, root, tree) && table in tree && tree[table].piece == TablePiece(va, tree[table].level)
    requires !leaf.PML4? && leaf.Rank() <= tree[table].level.Rank() && pa % leaf.Span() == 0
    ensures var (t', r) := MapFrom(t, arenaEnd, table, tree[table].level, leaf, va, MakeEntry(pa, permissions, !leaf.PT?));
            && WellFormed(t', root, tree') && Grew(t, t', tree, tree')
            && (r.Err? ==> SameWalks(t.mem, t'.mem, root))
            && (r.Ok? ==> MapsPage(t.mem, t'.mem, root, leaf, va, pa, permissions, a))
    decreases tree[table].level.Rank()
  {
    hide WellFormed, EnsureChild, WriteLeaf, Walk, Piece, TablePiece, LeafWalk, MakeEntry;
    tree', a := tree, EntryAddress(table, va, leaf);
    var at := tree[table].level;
    if at == leaf {
      LeafStep(t, root, tree, table, va, leaf, pa, permissions);
      LeafTakesNoTable(t, table, va, leaf, MakeEntry(pa, permissions, !leaf.PT?));
    } else {
      tree' := EnsureChildStep(t, root, tree, arenaEnd, table, va);
      var (t1, r) := EnsureChild(t, arenaEnd, table, va, at);
      if r.Ok? {
        var tree1 := tree';
        tree', a := MapFromStep(t1, root, tree1, arenaEnd, r.value, leaf, va, pa, permissions);
        GrewTrans(t, t1, MapFrom(t, arenaEnd, table, at, leaf, va, MakeEntry(pa, permissions, !leaf.PT?)).0, tree, tree1, tree');
      } else {
        tree' := tree;
      }
    }
  }

  /**
   map_4k, map_2m and map_1g: a call that succeeds maps its page and changes no other
   translation; a call that throws changes no translation, even if it had to add tables.
   */
  lemma MapStep(t: Tables, root: nat, tree: Tree, arenaEnd: nat, leaf: Level, va: Qword, pa: Qword, permissions: Permissions)
    returns (tree': Tree, a: nat)
    requires WellFormed(t, root, tree) && !leaf.PML4?
    ensures var (t', r) := Map(t, arenaEnd, root, leaf, va, pa, permissions);
            && WellFormed(t', root, tree') && Grew(t, t', tree, tree')
            && (r.Err? ==> SameWalks(t.mem, t'.mem, root))
            && (r.Ok? ==> MapsPage(t.mem, t'.mem, root, leaf, va, pa, permissions, a))
  {
    RootIsOnEveryPath(t, root, tree, va);
    RootInTree(t, root, tree);
    hide WellFormed, MapFrom, Walk, Piece, TablePiece, LeafWalk, MakeEntry, MapsPage;
    tree', a := tree, 0;
    if va % leaf.Span() == 0 && pa % leaf.Span() == 0 {
      tree', a := MapFromStep(t, root, tree, arenaEnd, root, leaf, va, pa, permissions);
    }
  }
}
