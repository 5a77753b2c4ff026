/**
 Address spaces: page mappings on top of the table builder and walker, and the theorem that
 whole runs of mapping, permission changes and accesses behave as a plain list of mappings.
 */
module AddressSpace {
  import opened Arithmetic
  import opened MemoryBus
  import opened Results
  import opened Paging
  import opened PageTableWalker
  import opened PageTableBuilder
  import opened PageMap

  // ---------- Operations ----------

  /** A walk with paging just enabled on this root, as page_translation and set_page_permissions use it. */
  function FreshState(root: Qword): PagingState
  {
    PagingState(root, 0, 2, true, false, true, true)
  }

  /** set_page_permissions: walk as a supervisor read, then rewrite the permission bits of a 4 KiB leaf. */
  function SetPermissions(mem: Memory, root: Qword, va: Qword, permissions: Permissions): (r: (Memory, Result<()>))
    ensures |r.0| == |mem|
  {
    if va % PAGE_4K != 0 then (mem, Err(InvalidArgument))
    else
      var (mem', outcome) := Translate(mem, FreshState(root), va, READ, RING0);
      match outcome
      case Thrown(e) => (mem', Err(e))
      case PageFault(_, _, _, _) => (mem', Err(RuntimeError))
      case Translated(x) =>
        if x.size != PAGE_4K then (mem', Err(LogicError))
        else if !ContainsRange(mem', x.leafAddress, 8) then (mem', Err(OutOfRange))
        else (StoreEntry(mem', x.leafAddress, WithPermissions(LoadEntry(mem', x.leafAddress), permissions)), Ok(()))
  }

  /** map_page: the builder works on its own cursor, which is taken over only when the builder does not throw. */
  function MapOnePage(t: Tables, arenaEnd: nat, root: nat, va: Qword, pa: Qword, permissions: Permissions): (r: (Tables, Result<()>))
    ensures |r.0.mem| == |t.mem|
  {
    if va % PAGE_4K != 0 || pa % PAGE_4K != 0 then (t, Err(InvalidArgument))
    else
      var (t', r) := Map(t, arenaEnd, root, PT, va, pa, permissions);
      (if r.Ok? then t' else Tables(t'.mem, t.next), r)
  }

  /** The cursor moves by whole pages and never past the end of the arena. */
  lemma {:induction false} CursorStaysInArena(t: Tables, arenaEnd: nat, table: nat, at: Level, leaf: Level, va: Qword, raw: Qword)
    requires leaf.Rank() <= at.Rank() && t.next % PAGE_4K == 0 && arenaEnd != 0 && t.next <= arenaEnd
    ensures var t' := MapFrom(t, arenaEnd, table, at, leaf, va, raw).0;
            t'.next % PAGE_4K == 0 && t.next <= t'.next <= arenaEnd
    decreases at.Rank()
  {
    hide Decode, LoadEntry, StoreEntry, ClearTable, EntryAddress, MakeEntry;
    if at != leaf {
      var (t1, child) := EnsureChild(t, arenaEnd, table, va, at);
      if child.Ok? {
        CursorStaysInArena(t1, arenaEnd, child.value, at.Child(), leaf, va, raw);
      }
    }
  }

  class AddressSpace {
    const memory: PhysicalMemory
    const root: Qword
    const arenaEnd: nat
    var next: nat

    ghost function State(): Tables
      reads this, memory
    {
      Tables(memory.bytes, next)
    }

    /** What the constructor demands and every operation keeps: aligned addresses, and the cursor inside the arena. */
    ghost predicate Valid()
      reads this
    {
      root % PAGE_4K == 0 && next % PAGE_4K == 0 && arenaEnd % PAGE_4K == 0 && root < arenaEnd && next <= arenaEnd
    }

    constructor (memory: PhysicalMemory, root: Qword, next: nat, arenaEnd: nat)
      requires root % PAGE_4K == 0 && next % PAGE_4K == 0 && arenaEnd % PAGE_4K == 0
      requires root < arenaEnd && root <= next <= arenaEnd
      requires ContainsRange(memory.bytes, root, PAGE_4K)
      modifies memory
      ensures Valid() && this.memory == memory && this.root == root && this.next == next && this.arenaEnd == arenaEnd
      ensures memory.bytes == ClearTable(old(memory.bytes), root)
    {
      this.memory, this.root, this.next, this.arenaEnd := memory, root, next, arenaEnd;
      new;
      var builder := new PageTableBuilder(memory, root, next, arenaEnd);
      builder.Clear(root);
    }

    method MapPage(va: Qword, pa: Qword, permissions: Permissions) returns (r: Result<()>)
      requires Valid()
      modifies this, memory
      ensures Valid()
      ensures (State(), r) == MapOnePage(old(State()), arenaEnd, root, va, pa, permissions)
    {
      if va % PAGE_4K != 0 || pa % PAGE_4K != 0 {
        return Err(InvalidArgument);
      }
      CursorStaysInArena(State(), arenaEnd, root, PML4, PT, va, MakeEntry(pa, permissions, false));
      var builder := new PageTableBuilder(memory, root, next, arenaEnd);
      r := builder.Map4K(va, pa, permissions);
      if r.Ok? {
        next := builder.next;
      }
    }

    method PageTranslation(va: Qword, kind: AccessKind, privilege: Privilege) returns (outcome: Outcome)
      modifies memory
      ensures (memory.bytes, outcome) == Translate(old(memory.bytes), FreshState(root), va, kind, privilege)
    {
      outcome := TranslateAddress(memory, FreshState(root), va, kind, privilege);
    }

    method SetPagePermissions(va: Qword, permissions: Permissions) returns (r: Result<()>)
      modifies memory
      ensures (memory.bytes, r) == SetPermissions(old(memory.bytes), root, va, permissions)
    {
      if va % PAGE_4K != 0 {
        return Err(InvalidArgument);
      }
      var outcome := PageTranslation(va, READ, RING0);
      match outcome {
        case Thrown(e) => return Err(e);
        case PageFault(_, _, _, _) => return Err(RuntimeError);
        case Translated(x) =>
          if x.size != PAGE_4K {
            return Err(LogicError);
          }
          var read := memory.Read(x.leafAddress, 8);
          if read.Err? {
            return Err(read.error);
          }
          var raw := LoadEntry(memory.bytes, x.leafAddress);
          r := memory.Write(x.leafAddress, 8, WithPermissions(raw, permissions));
      }
    }
  }

  // ---------- Accesses keep the tree ----------

  lemma MarksKeepEntry(before: Memory, after: Memory, table: nat, i: nat)
    requires OnlyMarks(before, after) && table % PAGE_4K == 0 && ContainsRange(before, table, PAGE_4K) && i < 512
    ensures WithoutMarks(Entry(before, table, i)) == WithoutMarks(Entry(after, table, i))
  {
    hide Decode, LoadEntry;
    EntryPlacesDiffer(table, i, table, i);
  }

  lemma MarksKeepTree(t: Tables, after: Memory, root: nat, tree: Tree)
    requires WellFormed(t, root, tree) && OnlyMarks(t.mem, after)
    ensures WellFormed(t.(mem := after), root, tree)
  {
    hide Decode, LoadEntry, HasReservedBits, FrameOf, Entry;
    forall c | c in tree ensures IsTablePage(after, c, t.next) {
      assert IsTablePage(t.mem, c, t.next);
    }
    forall c, i | c in tree && 0 <= i < 512 ensures EntryOk(after, tree, c, i) {
      assert IsTablePage(t.mem, c, t.next) && EntryOk(t.mem, tree, c, i);
      MarksKeepEntry(t.mem, after, c, i);
      MarksMeanNothing(Entry(t.mem, c, i), Entry(after, c, i), tree[c].level, true);
    }
    forall c | c in tree ensures LinkOk(after, root, tree, c) {
      assert LinkOk(t.mem, root, tree, c);
      if c != root {
        var node := tree[c];
        assert IsTablePage(t.mem, node.parent, t.next);
        MarksKeepEntry(t.mem, after, node.parent, node.piece % 512);
      }
    }
  }

  lemma MarksKeepSameWalks(t: Tables, after: Memory, root: nat, tree: Tree)
    requires WellFormed(t, root, tree) && OnlyMarks(t.mem, after)
    ensures SameWalks(t.mem, after, root)
  {
    assert IsTablePage(t.mem, root, t.next);
    PageAligned(root);
    hide *;
    assert SameWalks(t.mem, after, root) by {
      SameWalksFromMarks(t.mem, after, root);
    }
  }

  lemma SameWalksFromMarks(before: Memory, after: Memory, root: nat)
    requires OnlyMarks(before, after) && root % 8 == 0
    ensures SameWalks(before, after, root)
  {
    hide Walk, OnlyMarks;
    forall va: Qword, xd
      ensures Walk(after, xd, root, va, PML4, TABLE_PERMISSIONS) == Walk(before, xd, root, va, PML4, TABLE_PERMISSIONS)
    {
      MarksKeepWalk(before, after, xd, root, va, PML4, TABLE_PERMISSIONS);
    }
  }

  // ---------- Changing permissions ----------

  /** A mapped address has its leaf in the table of the tree that covers it. */
  lemma {:induction false} LeafIsInTree(t: Tables, root: nat, tree: Tree, c: nat, va: Qword, xd: bool) returns (table: nat)
    requires WellFormed(t, root, tree) && c in tree && tree[c].piece == TablePiece(va, tree[c].level)
    requires Walk(t.mem, xd, c, va, tree[c].level, TABLE_PERMISSIONS).Mapped?
    ensures var leaf := Walk(t.mem, xd, c, va, tree[c].level, TABLE_PERMISSIONS).leaf;
            && table in tree && tree[table].level == leaf.level && tree[table].piece == TablePiece(va, leaf.level)
            && leaf.entryAddress == table + 8 * TableIndex(va, leaf.level)
            && ContainsRange(t.mem, table, PAGE_4K)
            && var f := Entry(t.mem, table, TableIndex(va, leaf.level));
               && f.present && IsLeaf(f, leaf.level) && !HasReservedBits(f, leaf.level, xd)
               && leaf.frame == FrameOf(f, leaf.level)
               && leaf.permissions == Permissions(f.writable, f.user, !f.noExecute)
    decreases tree[c].level.Rank()
  {
    hide Decode, Piece, TableIndex, HasReservedBits, FrameOf, LoadEntry;
    table := c;
    var node := tree[c];
    EntryPiece(va, node.level);
    var j := TableIndex(va, node.level);
    assert IsTablePage(t.mem, c, t.next) && EntryOk(t.mem, tree, c, j);
    var f := Entry(t.mem, c, j);
    if !IsLeaf(f, node.level) {
      LinkIsFollowed(f, node.level, xd);
      table := LeafIsInTree(t, root, tree, f.address, va, xd);
    }
  }


  lemma RootAligned(t: Tables, root: nat, tree: Tree)
    requires WellFormed(t, root, tree)
    ensures root % PAGE_4K == 0
  {
    assert IsTablePage(t.mem, root, t.next);
  }

  /** Rewriting the permission bits of a 4 KiB leaf changes the permissions of its page and nothing else. */
  lemma RewriteStep(t: Tables, root: nat, tree: Tree, va: Qword, permissions: Permissions)
    requires WellFormed(t, root, tree)
    requires var walked := Walk(t.mem, true, root, va, PML4, TABLE_PERMISSIONS); walked.Mapped? && walked.leaf.level == PT
    ensures var leaf := Walk(t.mem, true, root, va, PML4, TABLE_PERMISSIONS).leaf;
            && ContainsRange(t.mem, leaf.entryAddress, 8) && leaf.frame < TWO_52
            && var mem' := StoreEntry(t.mem, leaf.entryAddress, WithPermissions(LoadEntry(t.mem, leaf.entryAddress), permissions));
               && WellFormed(t.(mem := mem'), root, tree)
               && MapsPage(t.mem, mem', root, PT, va, leaf.frame, permissions, leaf.entryAddress)
  {
    hide Decode, LoadEntry, StoreEntry, Walk, Piece, TablePiece, TableIndex, WithPermissions, EntryOk, LinkOk, HasReservedBits;
    RootIsOnEveryPath(t, root, tree, va);
    var leaf := Walk(t.mem, true, root, va, PML4, TABLE_PERMISSIONS).leaf;
    var table := LeafIsInTree(t, root, tree, root, va, true);
    var i := TableIndex(va, PT);
    var raw := LoadEntry(t.mem, leaf.entryAddress);
    WithPermissionsDecodes(raw, permissions);
    StoreIsLocal(t, root, tree, table, i, WithPermissions(raw, permissions));
    var t' := t.(mem := StoreEntry(t.mem, leaf.entryAddress, WithPermissions(raw, permissions)));
    FrameOfPage(raw);
    LeafFields(Entry(t.mem, table, i), Entry(t'.mem, table, i), leaf.frame, permissions);
    LeafReadsBack(t'.mem, tree, table, va, PT, leaf.frame, permissions, true);
    LeafKeepsTree(t, root, tree, table, i, t'.mem);
    hide *;
    MapsPageFromLeaf(t, t', root, tree, table, va, leaf.frame, permissions);
  }

  lemma FrameOfPage(raw: Qword)
    ensures var f := Decode(raw);
            && FrameOf(f, PT) == f.address < TWO_52 && f.address % PAGE_4K == 0
            && f.address % TWO_52 / PAGE_4K * PAGE_4K == f.address
  {
  }

  lemma LeafFields(f: Fields, g: Fields, frame: Qword, permissions: Permissions)
    requires f.present && !HasReservedBits(f, PT, true) && frame == f.address && frame % TWO_52 / PAGE_4K * PAGE_4K == frame
    requires g == f.(writable := permissions.writable, user := permissions.user, noExecute := !permissions.executable)
    ensures IsLeafFor(g, PT, frame, permissions)
  {
  }

  lemma MapsPageFromLeaf(t: Tables, t': Tables, root: nat, tree: Tree, table: nat, va: Qword, frame: Qword,
                         permissions: Permissions)
    requires WellFormed(t, root, tree) && table in tree && tree[table].level == PT && frame % PAGE_4K == 0
    requires tree[table].piece == TablePiece(va, PT)
    requires WellFormed(t', root, tree) && SameExcept(t.mem, t'.mem, tree, table, TableIndex(va, PT))
    requires IsLeafFor(Entry(t'.mem, table, TableIndex(va, PT)), PT, frame, permissions)
    ensures MapsPage(t.mem, t'.mem, root, PT, va, frame, permissions, table + 8 * TableIndex(va, PT))
  {
    hide WellFormed, SameExcept, Entry, Walk, Piece, TablePiece, TableIndex, LeafWalk, IsLeafFor;
    forall other: Qword, xd
      ensures Walk(t'.mem, xd, root, other, PML4, TABLE_PERMISSIONS)
              == if Piece(other, PT) == Piece(va, PT)
                 then LeafWalk(PT, table + 8 * TableIndex(va, PT), frame, permissions, xd)
                 else Walk(t.mem, xd, root, other, PML4, TABLE_PERMISSIONS)
    {
      LeafStepAt(t, t', root, tree, table, va, PT, frame, permissions, other, xd);
    }
  }

  lemma PermissionStep(t: Tables, root: Qword, tree: Tree, va: Qword, permissions: Permissions)
    requires WellFormed(t, root, tree) && IsCanonical(va)
    ensures var (mem', r) := SetPermissions(t.mem, root, va, permissions);
            var walked := Walk(t.mem, true, root, va, PML4, TABLE_PERMISSIONS);
            && WellFormed(t.(mem := mem'), root, tree)
            && (r.Err? ==> SameWalks(t.mem, mem', root))
            && (r.Ok? ==>
                  && walked.Mapped? && walked.leaf.level == PT && walked.leaf.frame < TWO_52
                  && MapsPage(t.mem, mem', root, PT, va, walked.leaf.frame, permissions, walked.leaf.entryAddress))
  {
    hide Decode, LoadEntry, StoreEntry, Walk, Translate, OnlyMarks, WellFormed, LeafDirty, MapsPage, Denial, PageBase, WithPermissions;
    if va % PAGE_4K == 0 {
      RootAligned(t, root, tree);
      var ps := FreshState(root);
      TranslateFollowsWalk(t.mem, ps, va, READ, RING0);
      var mem1 := Translate(t.mem, ps, va, READ, RING0).0;
      MarksKeepTree(t, mem1, root, tree);
      MarksKeepSameWalks(t, mem1, root, tree);
      var walked := WalkRoot(t.mem, ps, va);
      assert Walk(mem1, true, root, va, PML4, TABLE_PERMISSIONS) == walked;
      if walked.Mapped? && walked.leaf.level == PT {
        RewriteStep(t.(mem := mem1), root, tree, va, permissions);
        MapsPageAfterMarks(t.mem, mem1, StoreEntry(mem1, walked.leaf.entryAddress,
                             WithPermissions(LoadEntry(mem1, walked.leaf.entryAddress), permissions)),
                           root, va, walked.leaf.frame, permissions, walked.leaf.entryAddress);
      }
    }
  }

  lemma MapsPageAfterMarks(m0: Memory, m1: Memory, m2: Memory, root: nat, va: Qword, frame: Qword, permissions: Permissions, a: nat)
    requires SameWalks(m0, m1, root)
    ensures MapsPage(m1, m2, root, PT, va, frame, permissions, a) ==> MapsPage(m0, m2, root, PT, va, frame, permissions, a)
  {
    hide Walk, Piece, LeafWalk;
  }
}
