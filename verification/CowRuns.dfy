/**
 Copy-on-write among processes whose page tables lie in one memory: over every run of forks, faults
 and stores, walks show each process what it would see had every fork copied its pages at once.
 */
module CowRuns {
  import opened LittleEndian
  import opened MemoryBus
  import opened Results
  import opened Paging
  import opened PageTableBuilder
  import opened PageMap
  import opened AddressSpace
  import opened AddressSpaceTables
  import opened TlbRuns
  import opened TableArenas
  import opened CopyOnWrite
  import opened CowTheorems
  import opened CowPageTables
  import PageTableWalker

  /** An address space: its root, and its arena from lo to end with the cursor at next. */
  datatype Process = Process(root: Qword, lo: nat, next: nat, end: nat)

  /** One memory with the tables of all processes and their data. Stale records whose cursor a failed map_page left behind its tables. */
  datatype System = System(mem: Memory, procs: map<nat, Process>, cow: Cow, stale: set<nat>)

  // ---------- The page maps of all processes ----------

  /** What walks show: a page map for each process. */
  ghost function Abs(s: System): (m: Machine)
    ensures m.spaces.Keys == s.procs.Keys
  {
    Machine(map pid | pid in s.procs :: SpaceOf(s.mem, s.procs[pid].root), s.mem, s.cow)
  }

  ghost predicate Placed(p: Process, a: Arena, stale: bool)
  {
    a.root == p.root && a.lo == p.lo && a.end == p.end && p.next <= a.used && (!stale ==> p.next == a.used)
  }

  /** Every process has a tree of tables in an arena of its own, which ends at its cursor unless the cursor is stale. */
  ghost predicate Tabled(s: System, arenas: map<nat, Arena>)
  {
    && ArenasOk(s.mem, arenas) && arenas.Keys == s.procs.Keys
    && forall pid :: pid in s.procs ==> Placed(s.procs[pid], arenas[pid], pid in s.stale)
  }

  ghost predicate Outside(arenas: map<nat, Arena>, frame: nat)
  {
    forall p :: p in arenas ==> frame + PAGE_4K <= arenas[p].lo || arenas[p].end <= frame
  }

  ghost predicate FramesOutside(m: Machine, arenas: map<nat, Arena>)
  {
    forall pid, page :: Mapped(m, pid, page) ==> Outside(arenas, m.spaces[pid][page].frame)
  }

  /** Tables in their arenas, data frames outside all of them, and the page maps as copy-on-write needs them. */
  ghost predicate Sound(s: System, arenas: map<nat, Arena>)
  {
    Tabled(s, arenas) && FramesOutside(Abs(s), arenas) && Inv(Abs(s))
  }

  /** Frames outside the arenas have the same contents. */
  ghost predicate SameData(before: Memory, after: Memory, arenas: map<nat, Arena>)
  {
    && |after| == |before|
    && forall frame: nat {:trigger Outside(arenas, frame)} :: FrameInRange(before, frame) && Outside(arenas, frame) ==>
         Contents(after, frame) == Contents(before, frame)
  }

  ghost predicate SamePlaces(before: map<nat, Arena>, after: map<nat, Arena>)
  {
    after.Keys == before.Keys && forall p :: p in before ==> SamePlace(before[p], after[p])
  }

  /** Machines that differ in the tables' bytes alone. */
  ghost predicate Like(m: Machine, m': Machine, arenas: map<nat, Arena>)
  {
    m'.spaces == m.spaces && m'.cow == m.cow && SameData(m.mem, m'.mem, arenas)
  }

  lemma LikeSeen(m: Machine, m': Machine, arenas: map<nat, Arena>)
    requires Inv(m) && FramesOutside(m, arenas) && Like(m, m', arenas)
    ensures Inv(m') && FramesOutside(m', arenas)
    ensures FramesInRange(m) && FramesInRange(m') && forall q: nat, a: nat :: Seen(m', q, a) == Seen(m, q, a)
  {
    SameMaps(m, m');
    hide PageOk, PairOk, CountsAgree, Unique, Outside;
    forall q, a | Mapped(m', q, a) ensures Outside(arenas, m'.spaces[q][a].frame) {
      assert Mapped(m, q, a);
    }
    forall q: nat, a: nat ensures Seen(m', q, a) == Seen(m, q, a) {
      if Mapped(m, q, a) {
        assert Outside(arenas, m.spaces[q][a].frame) && FrameInRange(m.mem, m.spaces[q][a].frame);
      }
    }
  }

  lemma LikeTrans(m1: Machine, m2: Machine, m3: Machine, arenas: map<nat, Arena>)
    requires Like(m1, m2, arenas) && Like(m2, m3, arenas)
    ensures Like(m1, m3, arenas)
  {
    SameDataTrans(m1.mem, m2.mem, m3.mem, arenas);
  }

  lemma SameDataTrans(m1: Memory, m2: Memory, m3: Memory, arenas: map<nat, Arena>)
    requires SameData(m1, m2, arenas) && SameData(m2, m3, arenas)
    ensures SameData(m1, m3, arenas)
  {
    hide Outside, Contents;
  }

  lemma PlacesMatter(arenas: map<nat, Arena>, arenas': map<nat, Arena>, frame: nat)
    requires SamePlaces(arenas, arenas')
    ensures Outside(arenas, frame) <==> Outside(arenas', frame)
  {
    if Outside(arenas, frame) {
      forall p | p in arenas' ensures frame + PAGE_4K <= arenas'[p].lo || arenas'[p].end <= frame {
        assert p in arenas && SamePlace(arenas[p], arenas'[p]);
      }
    }
    if Outside(arenas', frame) {
      forall p | p in arenas ensures frame + PAGE_4K <= arenas[p].lo || arenas[p].end <= frame {
        assert p in arenas' && SamePlace(arenas[p], arenas'[p]);
      }
    }
  }

  lemma SameDataMoves(before: Memory, after: Memory, arenas: map<nat, Arena>, arenas': map<nat, Arena>)
    requires SamePlaces(arenas, arenas') && SameData(before, after, arenas')
    ensures SameData(before, after, arenas)
  {
    hide Contents;
    forall frame: nat | FrameInRange(before, frame) && Outside(arenas, frame) ensures Contents(after, frame) == Contents(before, frame) {
      PlacesMatter(arenas, arenas', frame);
    }
  }

  // ---------- Writing tables and data ----------

  lemma TraceSameSpace(before: Memory, after: Memory, root: nat)
    requires forall va: Qword, xd :: TraceKept(before, after, xd, root, va)
    ensures SpaceOf(after, root) == SpaceOf(before, root)
  {
    hide PageTableWalker.Walk, SpaceOf;
    forall va: Qword, xd
      ensures PageTableWalker.Walk(after, xd, root, va, PML4, TABLE_PERMISSIONS) == PageTableWalker.Walk(before, xd, root, va, PML4, TABLE_PERMISSIONS)
    {
      assert TraceKept(before, after, xd, root, va);
    }
    SameWalksSameSpace(before, after, root);
  }

  lemma OutsideIsSame(before: Memory, after: Memory, arenas: map<nat, Arena>, p: nat, hi: nat)
    requires p in arenas && hi <= arenas[p].end && SameBeyond(before, after, arenas[p].lo, hi)
    ensures SameData(before, after, arenas)
  {
    forall frame: nat | FrameInRange(before, frame) && Outside(arenas, frame) ensures Contents(after, frame) == Contents(before, frame) {
      assert frame + PAGE_4K <= arenas[p].lo || arenas[p].end <= frame;
      assert Contents(after, frame) == Contents(before, frame);
    }
  }

  /** A process's tables change inside its arena: all other page maps and all data stay. */
  lemma TableWrite(s: System, arenas: map<nat, Arena>, pid: nat, after: Memory, p: Process, a: Arena, stale: set<nat>)
    requires Tabled(s, arenas) && pid in s.procs && SamePlace(arenas[pid], a) && ArenaOk(after, a)
    requires SameBeyond(s.mem, after, a.lo, a.used) && (stale == s.stale || stale == s.stale + {pid}) && Placed(p, a, pid in stale)
    ensures var s' := System(after, s.procs[pid := p], s.cow, stale);
            && Tabled(s', arenas[pid := a]) && SamePlaces(arenas, arenas[pid := a]) && SameData(s.mem, after, arenas)
            && Abs(s').spaces == Abs(s).spaces[pid := SpaceOf(after, p.root)]
  {
    hide ArenasOk, ArenaOk, SameBeyond, SpaceOf, SameData, TraceKept, Abs;
    ArenaWrite(s.mem, after, arenas, pid, a);
    UsedInArena(after, a);
    OutsideIsSame(s.mem, after, arenas, pid, a.used);
    var s' := System(after, s.procs[pid := p], s.cow, stale);
    forall q | q in s'.procs ensures Placed(s'.procs[q], arenas[pid := a][q], q in s'.stale) {
      assert q != pid ==> Placed(s.procs[q], arenas[q], q in s.stale);
    }
    forall q | q in s.procs && q != pid ensures SpaceOf(after, s.procs[q].root) == SpaceOf(s.mem, s.procs[q].root) {
      assert Placed(s.procs[q], arenas[q], q in s.stale);
      TraceSameSpace(s.mem, after, arenas[q].root);
    }
    OtherSpacesStay(s, s', pid);
  }

  lemma OtherSpacesStay(s: System, s': System, pid: nat)
    requires pid in s.procs && s'.procs.Keys == s.procs.Keys
    requires forall q :: q in s.procs && q != pid ==>
               s'.procs[q].root == s.procs[q].root && SpaceOf(s'.mem, s.procs[q].root) == SpaceOf(s.mem, s.procs[q].root)
    ensures Abs(s').spaces == Abs(s).spaces[pid := SpaceOf(s'.mem, s'.procs[pid].root)]
  {
    hide SpaceOf;
  }

  lemma UsedInArena(mem: Memory, a: Arena)
    requires ArenaOk(mem, a)
    ensures a.lo <= a.used <= a.end && WellFormed(Tables(mem, a.used), a.root, a.tree) && Within(a.tree, a.lo)
  {
  }

  /** Data outside the arenas changes: all page maps stay. */
  lemma DataChange(s: System, arenas: map<nat, Arena>, after: Memory)
    requires Tabled(s, arenas) && forall p :: p in arenas ==> SameInside(s.mem, after, arenas[p].lo, arenas[p].end)
    ensures Tabled(s.(mem := after), arenas) && Abs(s.(mem := after)).spaces == Abs(s).spaces
  {
    hide ArenaOk, SpaceOf, TraceKept, SameInside;
    DataWrite(s.mem, after, arenas);
    forall q | q in s.procs ensures SpaceOf(after, s.procs[q].root) == SpaceOf(s.mem, s.procs[q].root) {
      assert Placed(s.procs[q], arenas[q], q in s.stale);
      TraceSameSpace(s.mem, after, arenas[q].root);
    }
  }

  // ---------- The three operations on tables ----------

  lemma ProcessTables(s: System, arenas: map<nat, Arena>, pid: nat)
    requires Tabled(s, arenas) && pid in s.procs
    ensures pid in arenas && ArenaOk(s.mem, arenas[pid]) && Placed(s.procs[pid], arenas[pid], pid in s.stale)
    ensures WellFormed(Tables(s.mem, arenas[pid].used), s.procs[pid].root, arenas[pid].tree) && Within(arenas[pid].tree, arenas[pid].lo)
    ensures Abs(s).spaces[pid] == SpaceOf(s.mem, s.procs[pid].root)
  {
    hide WellFormed;
  }

  /** An access changes no page map and no data: accessed and dirty bits are not part of either. */
  lemma AccessKeeps(s: System, arenas: map<nat, Arena>, pid: nat, ps: PagingState, va: Qword, kind: AccessKind, privilege: Privilege)
    requires Tabled(s, arenas) && pid in s.procs && ps.cr3 == s.procs[pid].root && IsCanonical(va)
    ensures var s' := s.(mem := PageTableWalker.Translate(s.mem, ps, va, kind, privilege).0);
            Tabled(s', arenas) && Like(Abs(s), Abs(s'), arenas)
  {
    hide Tabled, WellFormed, Within, PageTableWalker.Translate, SameBeyond, SpaceOf, SameWalks, IsCanonical, SameData, PageTableWalker.OnlyMarks,
         PageTableWalker.WalkRoot, PageTableWalker.LeafDirty;
    ProcessTables(s, arenas, pid);
    var p, a := s.procs[pid], arenas[pid];
    var t := Tables(s.mem, a.used);
    RootAligned(t, p.root, a.tree);
    PageTableWalker.TranslateFollowsWalk(s.mem, ps, va, kind, privilege);
    var after := PageTableWalker.Translate(s.mem, ps, va, kind, privilege).0;
    MarksKeepTree(t, after, p.root, a.tree);
    MarksKeepSameWalks(t, after, p.root, a.tree);
    TranslateStays(t, p.root, a.tree, a.lo, ps, va, kind, privilege);
    SameWalksSameSpace(s.mem, after, p.root);
    TableWrite(s, arenas, pid, after, p, a, s.stale);
    assert s.procs[pid := p] == s.procs && arenas[pid := a] == arenas;
    assert Abs(s).spaces[pid := SpaceOf(after, p.root)] == Abs(s).spaces;
  }

  /** The arena holds all the tables that a page lacks. */
  predicate Fits(mem: Memory, p: Process, page: Qword)
  {
    MissingTables(mem, p.root, PML4, PT, page) <= PagesLeft(Tables(mem, p.next), p.end)
  }

  /** The arena holds some of the tables that a page lacks, but not all. */
  predicate RunsOutHalfWay(mem: Memory, p: Process, page: Qword)
  {
    0 < PagesLeft(Tables(mem, p.next), p.end) < MissingTables(mem, p.root, PML4, PT, page)
  }

  /** How the call on the process's own cursor compares with the same call on a cursor behind all its tables. */
  lemma MapOutcome(mem: Memory, p: Process, a: Arena, stale: bool, page: Qword, pa: Qword, permissions: Permissions)
    requires ArenaOk(mem, a) && Placed(p, a, stale) && IsPage(page) && pa % PAGE_4K == 0
    requires stale ==> MissingTables(mem, p.root, PML4, PT, page) == 0
    ensures var (t, r) := Map(Tables(mem, a.used), p.end, p.root, PT, page, pa, permissions);
            var (u, ru) := MapOnePage(Tables(mem, p.next), p.end, p.root, page, pa, permissions);
            && u.mem == t.mem && ru == r && u.next <= t.next
            && (!stale && !RunsOutHalfWay(mem, p, page) ==> u.next == t.next)
            && (RunsOutHalfWay(mem, p, page) ==> r.Err?)
            && (page in SpaceOf(mem, p.root) ==> (r.Ok? <==> !SpaceOf(mem, p.root)[page].large))
            && (r.Ok? <==> Fits(mem, p, page) && !(page in SpaceOf(mem, p.root) && SpaceOf(mem, p.root)[page].large))
            && (r.Err? ==> r.error == if page in SpaceOf(mem, p.root) then LogicError else OutOfRange)
  {
    hide WellFormed, SpaceOf, MissingTables, PagesLeft, Blocked, MapFrom, IsCanonical, TablePiece, PageTableWalker.Walk, MakeEntry, Within;
    var t := Tables(mem, a.used);
    UsedInArena(mem, a);
    RootInTree(t, p.root, a.tree);
    RootIsOnEveryPath(t, p.root, a.tree, page);
    var raw := MakeEntry(pa, permissions, false);
    BuilderTakes(t, p.root, a.tree, p.end, p.root, PT, page, raw);
    BlockedNeedsNoTable(mem, p.root, PML4, PT, page);
    if stale {
      CursorUnused(t, p.next, p.end, p.root, PML4, page, raw);
    }
    AlignedIsOwnPage(page);
    WalkShows(t, p.root, a.tree, page);
    if page in SpaceOf(mem, p.root) {
      MappedNeedsNoTable(mem, true, p.root, PML4, page, TABLE_PERMISSIONS);
    } else if Blocked(mem, p.root, PML4, PT, page) {
      LargeIsMapped(t, p.root, a.tree, p.root, page);
    }
  }

  /** A large page in the way of an address maps it. */
  lemma {:induction false} LargeIsMapped(t: Tables, root: nat, tree: Tree, c: nat, va: Qword)
    requires WellFormed(t, root, tree) && c in tree && tree[c].piece == TablePiece(va, tree[c].level)
    requires Blocked(t.mem, c, tree[c].level, PT, va)
    ensures PageTableWalker.Walk(t.mem, true, c, va, tree[c].level, TABLE_PERMISSIONS).Mapped?
    decreases tree[c].level.Rank()
  {
    hide Decode, Piece, TableIndex, LoadEntry, WellFormed, PageTableWalker.HasReservedBits, PageTableWalker.FrameOf;
    var node := tree[c];
    EntryPiece(va, node.level);
    var j := TableIndex(va, node.level);
    EntryIsOk(t, root, tree, c, j);
    var f := Entry(t.mem, c, j);
    if !PageTableWalker.IsLeaf(f, node.level) {
      LinkIsFollowed(f, node.level, true);
      LargeIsMapped(t, root, tree, f.address, va);
    }
  }

  /** What map_page does to the tables of one process. */
  lemma MapInArena(mem: Memory, p: Process, b: Arena, stale: bool, page: Qword, pa: Qword, permissions: Permissions) returns (a: Arena)
    requires ArenaOk(mem, b) && Placed(p, b, stale) && IsPage(page) && pa % PAGE_4K == 0 && pa < TWO_52
    requires stale ==> MissingTables(mem, p.root, PML4, PT, page) == 0
    ensures var (u, r) := MapOnePage(Tables(mem, p.next), p.end, p.root, page, pa, permissions);
            && SamePlace(b, a) && ArenaOk(u.mem, a) && SameBeyond(mem, u.mem, a.lo, a.used)
            && Placed(p.(next := u.next), a, stale || RunsOutHalfWay(mem, p, page))
            && SpaceOf(u.mem, p.root)
               == (if r.Ok? then SpaceOf(mem, p.root) + map[page := Page(pa, permissions, false)] else SpaceOf(mem, p.root))
            && (page in SpaceOf(mem, p.root) ==> (r.Ok? <==> !SpaceOf(mem, p.root)[page].large))
            && (r.Ok? <==> Fits(mem, p, page) && !(page in SpaceOf(mem, p.root) && SpaceOf(mem, p.root)[page].large))
            && (r.Err? ==> r.error == if page in SpaceOf(mem, p.root) then LogicError else OutOfRange)
            && (RunsOutHalfWay(mem, p, page) ==> r.Err?)
  {
    hide WellFormed, Within, SameBeyond, SpaceOf, MissingTables, RunsOutHalfWay, MapOnePage, Map, IsCanonical, Grew, SameWalks, MapsPage;
    UsedInArena(mem, b);
    var t := Tables(mem, b.used);
    var (t', r) := Map(t, p.end, p.root, PT, page, pa, permissions);
    var tree, _ := MapStep(t, p.root, b.tree, p.end, PT, page, pa, permissions);
    GrewWithin(t, t', b.tree, tree, b.lo);
    RootBelowEnd(t, p.root, b.tree);
    MapStays(t, p.root, b.tree, b.lo, p.end, PT, page, pa, permissions);
    MapPageIsPut(t, p.root, b.tree, p.end, page, pa, permissions);
    MapOutcome(mem, p, b, stale, page, pa, permissions);
    a := b.(used := t'.next, tree := tree);
  }

  lemma RootBelowEnd(t: Tables, root: nat, tree: Tree)
    requires WellFormed(t, root, tree)
    ensures 0 < t.next
  {
    assert IsTablePage(t.mem, root, t.next);
  }

  /** map_page on one process of the system. */
  function MapStepOf(s: System, pid: nat, page: Qword, pa: Qword, permissions: Permissions): (System, Result<()>)
    requires pid in s.procs
  {
    var p := s.procs[pid];
    var (t, r) := MapOnePage(Tables(s.mem, p.next), p.end, p.root, page, pa, permissions);
    (System(t.mem, s.procs[pid := p.(next := t.next)], s.cow, if RunsOutHalfWay(s.mem, p, page) then s.stale + {pid} else s.stale), r)
  }

  /** The page maps become those of m, within the same arenas and with the same data. */
  ghost predicate Becomes(s: System, s': System, arenas: map<nat, Arena>, arenas': map<nat, Arena>, m: Machine)
  {
    && Tabled(s', arenas') && SamePlaces(arenas, arenas') && SameData(s.mem, s'.mem, arenas) && s'.cow == s.cow
    && Abs(s').spaces == m.spaces
  }

  /** What map_page on one process means for all page maps. */
  ghost predicate MapsOne(s: System, arenas: map<nat, Arena>, arenas': map<nat, Arena>, pid: nat, page: Qword, pa: Qword, permissions: Permissions)
    requires pid in s.procs
  {
    var (s', r) := MapStepOf(s, pid, page, pa, permissions);
    && Becomes(s, s', arenas, arenas', if r.Ok? then PutPage(Abs(s), pid, page, Page(pa, permissions, false)) else Abs(s))
    && (page in Abs(s).spaces[pid] ==> (r.Ok? <==> !Abs(s).spaces[pid][page].large))
    && (r.Ok? <==> Fits(s.mem, s.procs[pid], page) && !(page in Abs(s).spaces[pid] && Abs(s).spaces[pid][page].large))
    && (r.Err? ==> r.error == if page in Abs(s).spaces[pid] then LogicError else OutOfRange)
    && (RunsOutHalfWay(s.mem, s.procs[pid], page) ==> r.Err?)
  }

  /** The cursor is in order, or the page needs no table. */
  predicate CanMap(s: System, pid: nat, page: Qword)
    requires pid in s.procs
  {
    pid !in s.stale || MissingTables(s.mem, s.procs[pid].root, PML4, PT, page) == 0
  }

  /** map_page, where the cursor is in order or not needed, puts one page into one page map or leaves them all. */
  lemma MapKeeps(s: System, arenas: map<nat, Arena>, pid: nat, page: Qword, pa: Qword, permissions: Permissions)
    returns (arenas': map<nat, Arena>)
    requires Tabled(s, arenas) && pid in s.procs && IsPage(page) && pa % PAGE_4K == 0 && pa < TWO_52 && CanMap(s, pid, page)
    ensures MapsOne(s, arenas, arenas', pid, page, pa, permissions)
  {
    hide Tabled, WellFormed, Within, SameBeyond, SpaceOf, SameData, MissingTables, RunsOutHalfWay, MapOnePage, IsCanonical, ArenaOk;
    ProcessTables(s, arenas, pid);
    var p := s.procs[pid];
    var a := MapInArena(s.mem, p, arenas[pid], pid in s.stale, page, pa, permissions);
    var (u, r) := MapOnePage(Tables(s.mem, p.next), p.end, p.root, page, pa, permissions);
    arenas' := arenas[pid := a];
    TableWrite(s, arenas, pid, u.mem, p.(next := u.next), a, if RunsOutHalfWay(s.mem, p, page) then s.stale + {pid} else s.stale);
    assert Abs(s).spaces[pid := SpaceOf(s.mem, p.root)] == Abs(s).spaces;
  }

  /** set_page_permissions changes the permissions of one mapped 4 KiB page of one process. */
  lemma SetKeeps(s: System, arenas: map<nat, Arena>, pid: nat, page: Qword, permissions: Permissions)
    requires Tabled(s, arenas) && pid in s.procs && IsPage(page)
    ensures var (after, r) := SetPermissions(s.mem, s.procs[pid].root, page, permissions);
            var s' := s.(mem := after);
            && (r.Ok? <==> page in Abs(s).spaces[pid] && !Abs(s).spaces[pid][page].large)
            && Becomes(s, s', arenas, arenas,
                       if r.Ok? then PutPage(Abs(s), pid, page, Abs(s).spaces[pid][page].(permissions := permissions)) else Abs(s))
  {
    hide Tabled, WellFormed, Within, SameBeyond, SpaceOf, SameData, SetPermissions, IsCanonical, SameWalks, MapsPage, PageTableWalker.Walk;
    ProcessTables(s, arenas, pid);
    var p, a := s.procs[pid], arenas[pid];
    var t := Tables(s.mem, a.used);
    SetPermissionsIsPut(t, p.root, a.tree, page, permissions);
    SetPermissionsStays(t, p.root, a.tree, a.lo, page, permissions);
    PermissionStep(t, p.root, a.tree, page, permissions);
    var after := SetPermissions(s.mem, p.root, page, permissions).0;
    TableWrite(s, arenas, pid, after, p, a, s.stale);
    assert s.procs[pid := p] == s.procs && arenas[pid := a] == arenas;
    assert Abs(s).spaces[pid := SpaceOf(s.mem, p.root)] == Abs(s).spaces;
  }

  // ---------- Forks ----------

  /** share_pages for one page: a failure for which the arena runs out half way leaves the child's cursor stale. */
  function ForkPage(s: System, parent: nat, child: nat, page: Qword): (r: (System, Result<bool>))
    requires parent in s.procs && child in s.procs
    ensures r.0.procs.Keys == s.procs.Keys
  {
    var p, c := s.procs[parent], s.procs[child];
    var (t, cow, r) := SharePage(Tables(s.mem, c.next), s.cow, parent, p.root, child, c.root, c.end, page);
    (System(t.mem, s.procs[child := c.(next := t.next)], cow, StaleAfter(s, child, page, r)), r)
  }

  function StaleAfter(s: System, child: nat, page: Qword, r: Result<bool>): set<nat>
    requires child in s.procs
  {
    if r.Err? && RunsOutHalfWay(s.mem, s.procs[child], page) then s.stale + {child} else s.stale
  }

  /** The part of a share that follows the translation of the parent's page. */
  function ForkFrame(s: System, parent: nat, child: nat, page: Qword, x: Translation): (System, Result<bool>)
    requires parent in s.procs && child in s.procs
  {
    var p, c := s.procs[parent], s.procs[child];
    var (t, cow, r) := ShareFrame(Tables(s.mem, c.next), s.cow, parent, p.root, child, c.root, c.end, page, x);
    (System(t.mem, s.procs[child := c.(next := t.next)], cow, StaleAfter(s, child, page, r)), r)
  }

  /** The system did what the machine of page maps does. */
  ghost predicate Simulates(s: System, r: Result<bool>, arenas: map<nat, Arena>, arenas': map<nat, Arena>, m: Machine, rm: Result<bool>)
  {
    Tabled(s, arenas') && SamePlaces(arenas, arenas') && Like(m, Abs(s), arenas) && r == rm
  }

  /** The translation that the walk of the parent's tables gives. */
  ghost predicate Translates(m: Machine, parent: nat, page: Qword, x: Translation)
  {
    && Mapped(m, parent, page) && x.permissions == m.spaces[parent][page].permissions
    && (x.size == PAGE_4K <==> !m.spaces[parent][page].large)
    && (!m.spaces[parent][page].large ==> x.frameBase == m.spaces[parent][page].frame && x.frameBase < TWO_52 && x.frameBase % PAGE_4K == 0)
  }

  lemma NothingHappened(s: System, arenas: map<nat, Arena>, stale: set<nat>)
    requires Tabled(s, arenas) && s.stale <= stale
    ensures Tabled(s.(stale := stale), arenas) && SamePlaces(arenas, arenas) && Abs(s.(stale := stale)) == Abs(s)
    ensures SameData(s.mem, s.mem, arenas)
  {
    hide ArenasOk, SpaceOf, Contents;
    forall pid | pid in s.procs ensures Placed(s.procs[pid], arenas[pid], pid in stale) {
      assert Placed(s.procs[pid], arenas[pid], pid in s.stale);
    }
  }

  lemma CowIsApart(s: System, arenas: map<nat, Arena>, cow: Cow)
    requires Tabled(s, arenas)
    ensures Tabled(s.(cow := cow), arenas) && Abs(s.(cow := cow)).spaces == Abs(s).spaces
  {
    hide ArenasOk, SpaceOf;
  }

  ghost predicate ShareSimulates(s: System, arenas: map<nat, Arena>, arenas': map<nat, Arena>, parent: nat, child: nat, page: Qword,
                                 x: Translation, fits: bool)
    requires parent in s.procs && child in s.procs && parent != child
  {
    var (s', r) := ForkFrame(s, parent, child, page, x);
    var (m, rm) := ShareOne(Abs(s), parent, child, page, fits);
    Simulates(s', r, arenas, arenas', m, rm)
  }

  predicate RefusesShare(m: Machine, parent: nat, child: nat, page: Qword)
    requires Mapped(m, parent, page)
  {
    m.spaces[parent][page].large || (Restored(m, parent, page).writable && Tracked(m.cow.mappings, child, page))
  }

  lemma RefusedShare(s: System, arenas: map<nat, Arena>, parent: nat, child: nat, page: Qword, x: Translation)
    requires Tabled(s, arenas) && parent in s.procs && child in s.procs && parent != child
    requires page % PAGE_4K == 0 && Translates(Abs(s), parent, page, x) && RefusesShare(Abs(s), parent, child, page)
    ensures ShareSimulates(s, arenas, arenas, parent, child, page, x, true)
  {
    hide Tabled, Abs, SameData, SamePlaces, MapOnePage, SetPermissions, RunsOutHalfWay, Track;
    AbsIs(s);
    NothingHappened(s, arenas, s.stale);
    NothingHappened(s, arenas, s.stale + {child});
    var c := s.procs[child];
    assert s.procs[child := c.(next := c.next)] == s.procs;
  }

  lemma AbsIs(s: System)
    ensures Abs(s).cow == s.cow && Abs(s).mem == s.mem && Abs(s).spaces.Keys == s.procs.Keys
  {
    hide SpaceOf;
  }

  /** The child's page is mapped, or could not be, and the parent's page stays as it is. */
  lemma MappedShare(s: System, arenas: map<nat, Arena>, arenas': map<nat, Arena>, parent: nat, child: nat, page: Qword, x: Translation)
    requires Tabled(s, arenas) && parent in s.procs && child in s.procs && parent != child
    requires page % PAGE_4K == 0 && Translates(Abs(s), parent, page, x) && !RefusesShare(Abs(s), parent, child, page)
    requires MapsOne(s, arenas, arenas', child, page, x.frameBase, ReadOnly(Restored(Abs(s), parent, page)))
    requires var r := MapStepOf(s, child, page, x.frameBase, ReadOnly(Restored(Abs(s), parent, page))).1;
             r.Ok? && Restored(Abs(s), parent, page).writable ==> Tracked(s.cow.mappings, parent, page)
    ensures ShareSimulates(s, arenas, arenas', parent, child, page, x,
                           MapStepOf(s, child, page, x.frameBase, ReadOnly(Restored(Abs(s), parent, page))).1.Ok?)
  {
    hide Tabled, Abs, SameData, SamePlaces, MapOnePage, SetPermissions, RunsOutHalfWay, Track, Fits, Find;
    AbsIs(s);
    var restored := Restored(Abs(s), parent, page);
    var (s2, r) := MapStepOf(s, child, page, x.frameBase, ReadOnly(restored));
    AbsIs(s2);
    assert x.frameBase % TWO_64 == x.frameBase;
    if r.Ok? && restored.writable {
      var cow := Track(s.cow, CowMapping(child, page, x.frameBase, restored));
      hide PutPage;
      CowIsApart(s2, arenas', cow);
      AbsIs(s2.(cow := cow));
      assert ForkFrame(s, parent, child, page, x) == (s2.(cow := cow), Ok(true));
    } else if r.Ok? {
      hide PutPage;
      assert ForkFrame(s, parent, child, page, x) == (s2, Ok(false));
    }
  }

  /** The parent's page becomes read-only and tracked together with the child's. */
  lemma FreshShare(s: System, arenas: map<nat, Arena>, arenas': map<nat, Arena>, parent: nat, child: nat, page: Qword, x: Translation)
    requires Tabled(s, arenas) && parent in s.procs && child in s.procs && parent != child
    requires IsPage(page) && Translates(Abs(s), parent, page, x) && !RefusesShare(Abs(s), parent, child, page)
    requires MapsOne(s, arenas, arenas', child, page, x.frameBase, ReadOnly(Restored(Abs(s), parent, page)))
    requires MapStepOf(s, child, page, x.frameBase, ReadOnly(Restored(Abs(s), parent, page))).1.Ok?
    requires Restored(Abs(s), parent, page).writable && !Tracked(s.cow.mappings, parent, page)
    ensures ShareSimulates(s, arenas, arenas', parent, child, page, x, true)
  {
    hide Tabled, Abs, SameData, SamePlaces, MapOnePage, SetPermissions, RunsOutHalfWay, Track, IsCanonical;
    AbsIs(s);
    var restored := Restored(Abs(s), parent, page);
    var s2 := MapStepOf(s, child, page, x.frameBase, ReadOnly(restored)).0;
    AbsIs(s2);
    assert x.frameBase % TWO_64 == x.frameBase;
    SetKeeps(s2, arenas', parent, page, ReadOnly(restored));
    var s3 := s2.(mem := SetPermissions(s2.mem, s.procs[parent].root, page, ReadOnly(restored)).0);
    AbsIs(s3);
    SameDataMoves(s2.mem, s3.mem, arenas, arenas');
    SameDataTrans(s.mem, s2.mem, s3.mem, arenas);
    var cm := CowMapping(child, page, x.frameBase, restored);
    var cow := Track(Track(s.cow, cm.(pid := parent)), cm);
    CowIsApart(s3, arenas', cow);
    AbsIs(s3.(cow := cow));
    assert ForkFrame(s, parent, child, page, x) == (s3.(cow := cow), Ok(true));
  }

  /** Sharing a frame: the child's table, then the parent's if it was not tracked. */
  lemma FrameSimulates(s: System, arenas: map<nat, Arena>, parent: nat, child: nat, page: Qword, x: Translation)
    returns (arenas': map<nat, Arena>)
    requires Tabled(s, arenas) && parent in s.procs && child in s.procs && parent != child && child !in s.stale
    requires IsPage(page) && Translates(Abs(s), parent, page, x)
    ensures ShareSimulates(s, arenas, arenas', parent, child, page, x, Fits(s.mem, s.procs[child], page))
  {
    hide Tabled, Abs, MapOnePage, RunsOutHalfWay, IsCanonical, ShareSimulates, MapsOne, MapStepOf, MissingTables, Fits;
    AbsIs(s);
    arenas' := arenas;
    if RefusesShare(Abs(s), parent, child, page) {
      RefusedShare(s, arenas, parent, child, page, x);
      FitsNotAsked(s, arenas, arenas', parent, child, page, x, true);
    } else {
      var restored := Restored(Abs(s), parent, page);
      arenas' := MapKeeps(s, arenas, child, page, x.frameBase, ReadOnly(restored));
      var mapped := MapStepOf(s, child, page, x.frameBase, ReadOnly(restored)).1.Ok?;
      MapsOneFits(s, arenas, arenas', child, page, x.frameBase, ReadOnly(restored));
      if mapped && restored.writable && !Tracked(s.cow.mappings, parent, page) {
        FreshShare(s, arenas, arenas', parent, child, page, x);
      } else {
        MappedShare(s, arenas, arenas', parent, child, page, x);
        FitsNotAsked(s, arenas, arenas', parent, child, page, x, mapped);
      }
    }
  }

  lemma MapsOneFits(s: System, arenas: map<nat, Arena>, arenas': map<nat, Arena>, pid: nat, page: Qword, pa: Qword, permissions: Permissions)
    requires pid in s.procs && MapsOne(s, arenas, arenas', pid, page, pa, permissions)
    ensures MapStepOf(s, pid, page, pa, permissions).1.Ok? <==>
            Fits(s.mem, s.procs[pid], page) && !(page in Abs(s).spaces[pid] && Abs(s).spaces[pid][page].large)
  {
    hide Abs, MapStepOf, Becomes, Fits, RunsOutHalfWay;
  }

  /** Whether the page fits is not asked of a share that is refused before, or that meets a large page in the child. */
  lemma FitsNotAsked(s: System, arenas: map<nat, Arena>, arenas': map<nat, Arena>, parent: nat, child: nat, page: Qword, x: Translation, fits: bool)
    requires parent in s.procs && child in s.procs && parent != child && Mapped(Abs(s), parent, page)
    requires ShareSimulates(s, arenas, arenas', parent, child, page, x, fits)
    requires RefusesShare(Abs(s), parent, child, page) || fits == Fits(s.mem, s.procs[child], page)
             || (page in Abs(s).spaces[child] && Abs(s).spaces[child][page].large)
    ensures ShareSimulates(s, arenas, arenas', parent, child, page, x, Fits(s.mem, s.procs[child], page))
  {
    hide Abs, ForkFrame, Tabled, SamePlaces, Like, Fits, Find, Track;
  }

  // ---------- A whole share ----------

  /** What is missing for an address depends on the arena alone. */
  lemma {:induction false} MissingStays(t: Tables, after: Memory, root: nat, tree: Tree, lo: nat, c: nat, va: Qword)
    requires WellFormed(t, root, tree) && Within(tree, lo) && SameInside(t.mem, after, lo, t.next)
    requires c in tree && tree[c].piece == TablePiece(va, tree[c].level)
    ensures MissingTables(after, c, tree[c].level, PT, va) == MissingTables(t.mem, c, tree[c].level, PT, va)
    decreases tree[c].level.Rank()
  {
    hide Decode, Piece, TableIndex, LoadEntry, WellFormed, SameInside;
    var node := tree[c];
    EntryPiece(va, node.level);
    var j := TableIndex(va, node.level);
    TableWithin(t, root, tree, lo, c);
    EntryInside(t.mem, after, lo, t.next, c, j);
    InsideLength(t.mem, after, lo, t.next);
    EntryIsOk(t, root, tree, c, j);
    var f := Entry(t.mem, c, j);
    if f.present && !PageTableWalker.IsLeaf(f, node.level) {
      MissingStays(t, after, root, tree, lo, f.address, va);
    }
  }

  /** The walk of the parent's tables does not change what the child's tables lack. */
  lemma AccessKeepsMissing(s: System, arenas: map<nat, Arena>, pid: nat, other: nat, ps: PagingState, va: Qword, page: Qword,
                           kind: AccessKind, privilege: Privilege)
    requires Tabled(s, arenas) && pid in s.procs && other in s.procs && other != pid && ps.cr3 == s.procs[pid].root
    ensures var after := PageTableWalker.Translate(s.mem, ps, va, kind, privilege).0;
            && RunsOutHalfWay(after, s.procs[other], page) == RunsOutHalfWay(s.mem, s.procs[other], page)
            && Fits(after, s.procs[other], page) == Fits(s.mem, s.procs[other], page)
  {
    hide WellFormed, Within, PageTableWalker.Translate, SameBeyond, SameInside, MissingTables, TablePiece;
    ProcessTables(s, arenas, pid);
    ProcessTables(s, arenas, other);
    var a, b := arenas[pid], arenas[other];
    TranslateStays(Tables(s.mem, a.used), a.root, a.tree, a.lo, ps, va, kind, privilege);
    var after := PageTableWalker.Translate(s.mem, ps, va, kind, privilege).0;
    BeyondIsInside(s.mem, after, a.lo, a.used, b.lo, b.used);
    var t := Tables(s.mem, b.used);
    RootIsOnEveryPath(t, b.root, b.tree, page);
    RootInTree(t, b.root, b.tree);
    MissingStays(t, after, b.root, b.tree, b.lo, b.root, page);
  }

  lemma ShareOneLike(m: Machine, m': Machine, arenas: map<nat, Arena>, parent: nat, child: nat, page: nat, fits: bool)
    requires Like(m, m', arenas) && parent in m.spaces && child in m.spaces && parent != child
    ensures Like(ShareOne(m, parent, child, page, fits).0, ShareOne(m', parent, child, page, fits).0, arenas)
    ensures ShareOne(m, parent, child, page, fits).1 == ShareOne(m', parent, child, page, fits).1
  {
    hide SameData, Track, Find;
    assert m' == m.(mem := m'.mem);
  }

  lemma TabledMemory(s: System, arenas: map<nat, Arena>, pid: nat)
    requires Tabled(s, arenas) && pid in s.procs
    ensures |s.mem| <= TWO_52
  {
    ProcessTables(s, arenas, pid);
  }

  lemma PageOfSpace(s: System, pid: nat, page: nat)
    requires pid in s.procs && page in Abs(s).spaces[pid]
    ensures IsPage(page)
  {
    hide IsPage, Shown;
    SpaceIs(s.mem, s.procs[pid].root, page);
  }

  /** The supervisor read with which a share looks at the parent's page. */
  lemma ReadShows(s: System, arenas: map<nat, Arena>, parent: nat, page: Qword)
    requires Sound(s, arenas) && parent in s.procs && IsPage(page)
    ensures var outcome := PageTableWalker.Translate(s.mem, FreshState(s.procs[parent].root), page, READ, RING0).1;
            && (!Mapped(Abs(s), parent, page) ==> outcome.PageFault?)
            && (Mapped(Abs(s), parent, page) ==> outcome.Translated? && Translates(Abs(s), parent, page, outcome.translation))
  {
    hide Tabled, WellFormed, Within, SpaceOf, PageTableWalker.Translate, IsCanonical, PageOk, PairOk, CountsAgree, Unique, PageOf, FramesOutside;
    ProcessTables(s, arenas, parent);
    TabledMemory(s, arenas, parent);
    AlignedIsOwnPage(page);
    AccessJudged(Tables(s.mem, arenas[parent].used), s.procs[parent].root, arenas[parent].tree, FreshState(s.procs[parent].root), page, READ, RING0);
    if Mapped(Abs(s), parent, page) {
      assert FrameInRange(Abs(s).mem, Abs(s).spaces[parent][page].frame);
    }
  }

  ghost predicate PageSimulates(s: System, arenas: map<nat, Arena>, arenas': map<nat, Arena>, parent: nat, child: nat, page: Qword)
    requires parent in s.procs && child in s.procs && parent != child
  {
    var (s', r) := ForkPage(s, parent, child, page);
    var (m, rm) := ShareOne(Abs(s), parent, child, page, Fits(s.mem, s.procs[child], page));
    Simulates(s', r, arenas, arenas', m, if page % PAGE_4K == 0 && !IsPage(page) then Err(OutOfRange) else rm)
  }

  /** A page that the parent does not map, or that is no page, is refused before anything is written but accessed bits. */
  lemma NoPage(s: System, arenas: map<nat, Arena>, parent: nat, child: nat, page: Qword)
    requires Sound(s, arenas) && parent in s.procs && child in s.procs && parent != child && !Mapped(Abs(s), parent, page)
    ensures PageSimulates(s, arenas, arenas, parent, child, page)
  {
    hide Tabled, Abs, SameData, SamePlaces, RunsOutHalfWay, ShareFrame, Inv, FramesOutside, PageTableWalker.TranslateFrom;
    AbsIs(s);
    var c, ps := s.procs[child], FreshState(s.procs[parent].root);
    assert s.procs[child := c.(next := c.next)] == s.procs;
    NothingHappened(s, arenas, s.stale);
    NothingHappened(s, arenas, s.stale + {child});
    if IsPage(page) {
      ReadShows(s, arenas, parent, page);
      AccessKeeps(s, arenas, parent, ps, page, READ, RING0);
      var s1 := s.(mem := PageTableWalker.Translate(s.mem, ps, page, READ, RING0).0);
      NothingHappened(s1, arenas, s1.stale);
      NothingHappened(s1, arenas, s1.stale + {child});
    }
  }

  lemma SomePage(s: System, arenas: map<nat, Arena>, parent: nat, child: nat, page: Qword) returns (arenas': map<nat, Arena>)
    requires Sound(s, arenas) && parent in s.procs && child in s.procs && parent != child && child !in s.stale && Mapped(Abs(s), parent, page)
    ensures PageSimulates(s, arenas, arenas', parent, child, page)
  {
    PageOfSpace(s, parent, page);
    hide Tabled, Abs, SameData, SamePlaces, RunsOutHalfWay, ShareFrame, ShareOne, Inv, FramesOutside, PageTableWalker.Translate, IsCanonical,
         Translates, Fits, Denial;
    AbsIs(s);
    var ps := FreshState(s.procs[parent].root);
    ReadShows(s, arenas, parent, page);
    AccessKeeps(s, arenas, parent, ps, page, READ, RING0);
    AccessKeepsMissing(s, arenas, parent, child, ps, page, page, READ, RING0);
    var (mem1, outcome) := PageTableWalker.Translate(s.mem, ps, page, READ, RING0);
    var s1 := s.(mem := mem1);
    AbsIs(s1);
    LikeTranslates(Abs(s), Abs(s1), arenas, parent, page, outcome.translation);
    var fits := Fits(s.mem, s.procs[child], page);
    arenas' := FrameSimulates(s1, arenas, parent, child, page, outcome.translation);
    ForkPageSplits(s, parent, child, page);
    hide ForkPage, ForkFrame;
    ShareOneLike(Abs(s), Abs(s1), arenas, parent, child, page, fits);
    LikeTrans(ShareOne(Abs(s), parent, child, page, fits).0, ShareOne(Abs(s1), parent, child, page, fits).0,
              Abs(ForkPage(s, parent, child, page).0), arenas);
  }

  /** A share whose translation succeeds goes on with the frame in the memory that the walk left. */
  lemma ForkPageSplits(s: System, parent: nat, child: nat, page: Qword)
    requires parent in s.procs && child in s.procs && page % PAGE_4K == 0
    ensures var (mem1, outcome) := PageTableWalker.Translate(s.mem, FreshState(s.procs[parent].root), page, READ, RING0);
            outcome.Translated? && RunsOutHalfWay(mem1, s.procs[child], page) == RunsOutHalfWay(s.mem, s.procs[child], page) ==>
              ForkPage(s, parent, child, page) == ForkFrame(s.(mem := mem1), parent, child, page, outcome.translation)
  {
    hide PageTableWalker.Translate, ShareFrame, RunsOutHalfWay;
  }

  lemma LikeTranslates(m: Machine, m': Machine, arenas: map<nat, Arena>, parent: nat, page: Qword, x: Translation)
    requires Like(m, m', arenas) && Translates(m, parent, page, x)
    ensures Translates(m', parent, page, x)
  {
  }

  /** share_pages for one page does on the tables what ShareOne does on the page maps. */
  lemma ForkPageSimulates(s: System, arenas: map<nat, Arena>, parent: nat, child: nat, page: Qword)
    returns (arenas': map<nat, Arena>)
    requires Sound(s, arenas) && parent in s.procs && child in s.procs && parent != child && child !in s.stale
    ensures PageSimulates(s, arenas, arenas', parent, child, page)
  {
    hide *;
    if Mapped(Abs(s), parent, page) {
      arenas' := SomePage(s, arenas, parent, child, page);
    } else {
      arenas' := arenas;
      NoPage(s, arenas, parent, child, page);
    }
  }

  // ---------- A fork is an eager copy ----------

  /** Sharing brings no new frame into the page maps. */
  lemma SharedFramesOutside(m: Machine, arenas: map<nat, Arena>, parent: nat, child: nat, page: nat, fits: bool)
    requires Inv(m) && FramesOutside(m, arenas) && parent in m.spaces && child in m.spaces && parent != child
    ensures FramesOutside(ShareOne(m, parent, child, page, fits).0, arenas)
  {
    hide Inv, Outside, ShareOne;
    FailedShareChangesNothing(m, parent, child, page, fits);
    var (m', r) := ShareOne(m, parent, child, page, fits);
    if r.Ok? {
      forall q, a | Mapped(m', q, a) ensures Outside(arenas, m'.spaces[q][a].frame) {
        ShareOneEffect(m, parent, child, page, fits, q, a);
        assert Mapped(m, parent, page) && Outside(arenas, m.spaces[parent][page].frame);
      }
    }
  }

  lemma FramesOutsideMoves(m: Machine, arenas: map<nat, Arena>, arenas': map<nat, Arena>)
    requires FramesOutside(m, arenas) && SamePlaces(arenas, arenas')
    ensures FramesOutside(m, arenas')
  {
    hide Outside, SamePlaces;
    forall q, a | Mapped(m, q, a) ensures Outside(arenas', m.spaces[q][a].frame) {
      PlacesMatter(arenas, arenas', m.spaces[q][a].frame);
    }
  }

  /** A system whose page maps are like those of a machine in order is in order, and shows the same. */
  lemma LikeIsSound(s: System, arenas: map<nat, Arena>, arenas': map<nat, Arena>, m: Machine)
    requires Tabled(s, arenas') && SamePlaces(arenas, arenas') && Like(m, Abs(s), arenas) && Inv(m) && FramesOutside(m, arenas)
    ensures Sound(s, arenas') && FramesInRange(m) && FramesInRange(Abs(s))
    ensures forall e: Eager :: Agrees(m, e) ==> Agrees(Abs(s), e)
  {
    hide Tabled, SamePlaces, Like, Inv, FramesOutside, FramesInRange, Abs, Seen;
    LikeSeen(m, Abs(s), arenas);
    FramesOutsideMoves(Abs(s), arenas, arenas');
    forall e: Eager | Agrees(m, e) ensures Agrees(Abs(s), e) {
      forall q: nat, a: nat ensures Seen(Abs(s), q, a) == EagerSeen(e, q, a) {
        assert Seen(m, q, a) == EagerSeen(e, q, a);
      }
    }
  }

  lemma SoundParts(s: System, arenas: map<nat, Arena>)
    requires Sound(s, arenas)
    ensures Tabled(s, arenas) && FramesOutside(Abs(s), arenas) && Inv(Abs(s)) && FramesInRange(Abs(s))
  {
    hide Tabled, FramesOutside, Abs, PageOk, PairOk, CountsAgree, Unique;
  }

  /** What is kept from one state to the next. */
  ghost predicate Shows(s: System, arenas: map<nat, Arena>, e: Eager)
  {
    Sound(s, arenas) && FramesInRange(Abs(s)) && Agrees(Abs(s), e)
  }

  /** A share shows as an eager copy of the page, and leaves the remaining pages free of missed duplicates. */
  ghost predicate CopiesPage(s: System, arenas': map<nat, Arena>, e: Eager, parent: nat, child: nat, pages: seq<Qword>)
    requires parent in s.procs && child in s.procs && pages != []
  {
    var page := pages[0];
    var (s', r) := ForkPage(s, parent, child, page);
    && (r.Err? ==> Shows(s', arenas', e))
    && (r.Ok? ==>
          && EagerSeen(e, parent, page).Some? && Shows(s', arenas', e[(child, page) := EagerSeen(e, parent, page).value])
          && NoMissed(Abs(s'), parent, child, pages[1..]) && s'.stale == s.stale)
  }

  lemma SimulatedPage(s: System, arenas: map<nat, Arena>, arenas': map<nat, Arena>, parent: nat, child: nat, page: Qword)
    requires parent in s.procs && child in s.procs && parent != child && PageSimulates(s, arenas, arenas', parent, child, page)
    ensures var (s', r) := ForkPage(s, parent, child, page);
            var (m, rm) := ShareOne(Abs(s), parent, child, page, Fits(s.mem, s.procs[child], page));
            Tabled(s', arenas') && SamePlaces(arenas, arenas') && Like(m, Abs(s'), arenas) && r.Ok? == rm.Ok? && (r.Ok? ==> r == rm)
  {
    hide Tabled, SamePlaces, Like, Abs, ForkPage, Fits, IsPage, Find, Track;
    AbsIs(s);
    if !IsPage(page) && Mapped(Abs(s), parent, page) {
      PageOfSpace(s, parent, page);
      assert false;
    }
  }

  lemma ForkPageAgrees(s: System, arenas: map<nat, Arena>, e: Eager, parent: nat, child: nat, pages: seq<Qword>)
    returns (arenas': map<nat, Arena>)
    requires parent in s.procs && child in s.procs && parent != child && child !in s.stale && pages != []
    requires Shows(s, arenas, e) && NoMissed(Abs(s), parent, child, pages)
    ensures CopiesPage(s, arenas', e, parent, child, pages)
  {
    hide Sound, Abs, Inv, FramesInRange, FramesOutside, Agrees, NoMissed, Tabled, Like, SamePlaces, ShareOne, MissedDuplicate, SharePage,
         PageSimulates, Fits;
    AbsIs(s);
    SoundParts(s, arenas);
    var page := pages[0];
    var fits := Fits(s.mem, s.procs[child], page);
    arenas' := ForkPageSimulates(s, arenas, parent, child, page);
    SimulatedPage(s, arenas, arenas', parent, child, page);
    var (s', r) := ForkPage(s, parent, child, page);
    var (m, rm) := ShareOne(Abs(s), parent, child, page, fits);
    ShareOneStaysLegal(Abs(s), parent, child, pages, fits);
    ShareOneAgrees(Abs(s), e, parent, child, page, fits);
    SharedFramesOutside(Abs(s), arenas, parent, child, page, fits);
    LikeIsSound(s', arenas, arenas', m);
    if r.Ok? {
      NoMissedLike(m, Abs(s'), arenas, parent, child, pages[1..]);
    }
  }

  lemma NoMissedLike(m: Machine, m': Machine, arenas: map<nat, Arena>, parent: nat, child: nat, pages: seq<nat>)
    requires Like(m, m', arenas) && NoMissed(m, parent, child, pages)
    ensures NoMissed(m', parent, child, pages)
  {
    hide SameData, Find;
    assert m' == m.(mem := m'.mem);
  }

  /** share_pages: page after page until one throws; also how many were shared. */
  function Fork(s: System, parent: nat, child: nat, pages: seq<Qword>): (r: (System, nat))
    requires parent in s.procs && child in s.procs
    ensures r.1 <= |pages| && r.0.procs.Keys == s.procs.Keys
    decreases |pages|
  {
    if pages == [] then (s, 0)
    else
      var (s1, one) := ForkPage(s, parent, child, pages[0]);
      if one.Err? then (s1, 0)
      else
        var (s2, n) := Fork(s1, parent, child, pages[1..]);
        (s2, n + 1)
  }

  /** The fork of the run is share_pages on the tables of the two processes; every other process is left alone. */
  lemma {:induction false} ForkIsShareAll(s: System, parent: nat, child: nat, pages: seq<Qword>)
    requires parent in s.procs && child in s.procs && parent != child
    ensures var p, c := s.procs[parent], s.procs[child];
            var (t, cow, r) := ShareAll(Tables(s.mem, c.next), s.cow, parent, p.root, child, c.root, c.end, pages);
            var (s', n) := Fork(s, parent, child, pages);
            && s'.mem == t.mem && s'.cow == cow && s'.procs == s.procs[child := c.(next := t.next)]
            && (r.Ok? <==> n == |pages|)
            && (r.Err? ==> n < |pages| && ForkPage(Fork(s, parent, child, pages[..n]).0, parent, child, pages[n]).1 == Err(r.error))
    decreases |pages|
  {
    hide SharePage, StaleAfter;
    if pages == [] {
      var c := s.procs[child];
      assert s.procs[child := c.(next := c.next)] == s.procs;
    } else {
      var (s1, one) := ForkPage(s, parent, child, pages[0]);
      if one.Ok? {
        ForkIsShareAll(s1, parent, child, pages[1..]);
        var n := Fork(s1, parent, child, pages[1..]).1;
        assert pages[..n + 1][1..] == pages[1..][..n];
      }
    }
  }

  /** A fork copies the pages up to the first that throws, as the eager machine does. */
  lemma {:induction false} ForkAgrees(s: System, arenas: map<nat, Arena>, e: Eager, parent: nat, child: nat, pages: seq<Qword>)
    returns (arenas': map<nat, Arena>)
    requires Shows(s, arenas, e) && parent in s.procs && child in s.procs && parent != child && child !in s.stale
    requires NoMissed(Abs(s), parent, child, pages)
    ensures var (s', n) := Fork(s, parent, child, pages); Shows(s', arenas', EagerFork(e, parent, child, pages[..n]))
    decreases |pages|
  {
    hide Shows, Abs, NoMissed, ForkPage;
    arenas' := arenas;
    if pages != [] {
      arenas' := ForkPageAgrees(s, arenas, e, parent, child, pages);
      var (s1, one) := ForkPage(s, parent, child, pages[0]);
      if one.Ok? {
        var e1 := e[(child, pages[0]) := EagerSeen(e, parent, pages[0]).value];
        arenas' := ForkAgrees(s1, arenas', e1, parent, child, pages[1..]);
        var n := Fork(s, parent, child, pages).1;
        assert pages[..n][1..] == pages[1..][..n - 1];
      }
    }
  }

  // ---------- Faults ----------

  ghost predicate Ready(s: System, pid: nat, granted: Option<Qword>)
  {
    pid in s.procs && CowFramesInRange(s.mem, s.cow) && (granted.Some? ==> FrameInRange(s.mem, granted.value))
  }

  /** resolve_write_fault on one process of the system. */
  function FaultStep(s: System, pid: nat, va: Qword, writeProtection: bool, granted: Option<Qword>): (r: (System, Result<FaultResult>))
    requires Ready(s, pid, granted)
    ensures r.0.procs.Keys == s.procs.Keys && |r.0.mem| == |s.mem|
  {
    var p := s.procs[pid];
    var (t, cow, r) := ResolveFault(Tables(s.mem, p.next), s.cow, pid, p.root, p.end, va, writeProtection, granted);
    (System(t.mem, s.procs[pid := p.(next := t.next)], cow, s.stale), r)
  }

  /** A frame that the allocator may grant: no page uses it, and it is not a table. */
  ghost predicate Grantable(s: System, arenas: map<nat, Arena>, granted: Option<Qword>)
  {
    granted.Some? ==> Unused(Abs(s), granted.value) && Outside(arenas, granted.value)
  }

  lemma SoundIsReady(s: System, arenas: map<nat, Arena>, pid: nat, granted: Option<Qword>)
    requires Sound(s, arenas) && pid in s.procs && Grantable(s, arenas, granted)
    ensures Ready(s, pid, granted) && FramesInRange(Abs(s))
  {
    hide Tabled, FramesOutside, PageOk, PairOk, CountsAgree, Unique, SpaceOf, Outside;
    forall i | 0 <= i < |s.cow.mappings| ensures FrameInRange(s.mem, s.cow.mappings[i].frame) {
      assert FrameInRange(Abs(s).mem, Abs(s).cow.mappings[i].frame);
    }
  }

  ghost predicate FaultSimulates(s: System, arenas: map<nat, Arena>, arenas': map<nat, Arena>, pid: nat, va: Qword, writeProtection: bool,
                                 granted: Option<Qword>)
    requires Ready(s, pid, granted) && FramesInRange(Abs(s))
  {
    var (s', r) := FaultStep(s, pid, va, writeProtection, granted);
    var (m, rm) := Resolve(Abs(s), pid, va, writeProtection, granted);
    Tabled(s', arenas') && SamePlaces(arenas, arenas') && Like(m, Abs(s'), arenas) && r == rm
  }

  /** The tracked mapping of the page that faulted. */
  function FaultMapping(s: System, pid: nat, va: Qword): Option<CowMapping>
  {
    var i := Find(s.cow.mappings, pid, PageOf(va));
    if i < |s.cow.mappings| then Some(s.cow.mappings[i]) else None
  }

  /** A fault that is no write to a tracked page, or for which there is no frame, changes nothing. */
  lemma IdleFault(s: System, arenas: map<nat, Arena>, pid: nat, va: Qword, writeProtection: bool, granted: Option<Qword>)
    requires Tabled(s, arenas) && Ready(s, pid, granted) && FramesInRange(Abs(s))
    requires !writeProtection || FaultMapping(s, pid, va).None?
             || (RefCount(s.cow.refs, FaultMapping(s, pid, va).value.frame) > 1 && granted.None?)
    ensures FaultSimulates(s, arenas, arenas, pid, va, writeProtection, granted)
  {
    hide Tabled, Abs, SamePlaces, SameData, FramesInRange, Find, RefCount, SetPermissions, MapOnePage, CopyPage;
    AbsIs(s);
    NothingHappened(s, arenas, s.stale);
    var p := s.procs[pid];
    assert s.procs[pid := p.(next := p.next)] == s.procs;
  }

  /** A tracked page is a mapped 4 KiB page. */
  lemma TrackedIsMapped(s: System, arenas: map<nat, Arena>, pid: nat, va: Qword)
    requires Sound(s, arenas) && pid in s.procs && FaultMapping(s, pid, va).Some?
    ensures var c := FaultMapping(s, pid, va).value;
            && Mapped(Abs(s), pid, PageOf(va)) && IsPage(PageOf(va))
            && Abs(s).spaces[pid][PageOf(va)] == Page(c.frame, ReadOnly(c.restored), false)
            && FrameInRange(s.mem, c.frame) && Outside(arenas, c.frame)
  {
    hide Tabled, PairOk, CountsAgree, Unique, SpaceOf, Outside, IsCanonical, PageOf;
    var page := PageOf(va);
    assert PageOk(Abs(s), pid, page);
    PageOfSpace(s, pid, page);
    assert FrameInRange(Abs(s).mem, Abs(s).spaces[pid][page].frame);
  }

  /** The last reference: the page gets its permissions back. */
  lemma RestoringFault(s: System, arenas: map<nat, Arena>, pid: nat, va: Qword, granted: Option<Qword>)
    requires Sound(s, arenas) && Ready(s, pid, granted) && FramesInRange(Abs(s))
    requires FaultMapping(s, pid, va).Some? && RefCount(s.cow.refs, FaultMapping(s, pid, va).value.frame) <= 1
    ensures FaultSimulates(s, arenas, arenas, pid, va, true, granted)
  {
    hide Sound, Inv, Tabled, Abs, SamePlaces, SameData, FramesInRange, Find, RefCount, SetPermissions, MapOnePage, CopyPage, Untrack, IsCanonical,
         FrameInRange, FramesOutside, Outside;
    SoundParts(s, arenas);
    TrackedIsMapped(s, arenas, pid, va);
    AbsIs(s);
    var c, page, p := FaultMapping(s, pid, va).value, PageOf(va), s.procs[pid];
    SetKeeps(s, arenas, pid, page, c.restored);
    var s1 := s.(mem := SetPermissions(s.mem, p.root, page, c.restored).0);
    AbsIs(s1);
    CowIsApart(s1, arenas, Untrack(s.cow, c));
    AbsIs(s1.(cow := Untrack(s.cow, c)));
    assert s.procs[pid := p.(next := p.next)] == s.procs;
    assert FaultStep(s, pid, va, true, granted) == (s1.(cow := Untrack(s.cow, c)), Ok(RESTORED));
  }

  /** Copying a page to a frame outside the arenas touches no table. */
  lemma CopyIsData(s: System, arenas: map<nat, Arena>, source: nat, target: nat)
    requires Tabled(s, arenas) && FrameInRange(s.mem, source) && FrameInRange(s.mem, target) && Outside(arenas, target)
    ensures var s' := s.(mem := CopyPage(s.mem, source, target)); Tabled(s', arenas) && Abs(s').spaces == Abs(s).spaces
  {
    hide ArenasOk, Tabled, SpaceOf;
    var after := CopyPage(s.mem, source, target);
    forall p | p in arenas ensures SameInside(s.mem, after, arenas[p].lo, arenas[p].end) {
      assert target + PAGE_4K <= arenas[p].lo || arenas[p].end <= target;
    }
    DataChange(s, arenas, after);
  }

  lemma MappedNeedsNone(s: System, arenas: map<nat, Arena>, pid: nat, page: Qword)
    requires Tabled(s, arenas) && pid in s.procs && page in Abs(s).spaces[pid]
    ensures CanMap(s, pid, page) && !RunsOutHalfWay(s.mem, s.procs[pid], page)
  {
    PageOfSpace(s, pid, page);
    hide Tabled, WellFormed, Within, SpaceOf, MissingTables, PagesLeft, Blocked, IsCanonical, PageTableWalker.Walk, PageOf;
    ProcessTables(s, arenas, pid);
    AlignedIsOwnPage(page);
    WalkShows(Tables(s.mem, arenas[pid].used), s.procs[pid].root, arenas[pid].tree, page);
    MappedNeedsNoTable(s.mem, true, s.procs[pid].root, PML4, page, TABLE_PERMISSIONS);
  }

  /** A shared page: copied to the granted frame and mapped there. */
  lemma CopyingFault(s: System, arenas: map<nat, Arena>, pid: nat, va: Qword, granted: Option<Qword>) returns (arenas': map<nat, Arena>)
    requires Sound(s, arenas) && Ready(s, pid, granted) && FramesInRange(Abs(s)) && Grantable(s, arenas, granted) && granted.Some?
    requires FaultMapping(s, pid, va).Some? && RefCount(s.cow.refs, FaultMapping(s, pid, va).value.frame) > 1
    ensures FaultSimulates(s, arenas, arenas', pid, va, true, granted)
  {
    hide Sound, Inv, Tabled, Abs, SamePlaces, SameData, FramesInRange, Find, RefCount, SetPermissions, MapOnePage, CopyPage, Untrack, IsCanonical,
         FramesOutside, Outside, RunsOutHalfWay, CanMap;
    SoundParts(s, arenas);
    TrackedIsMapped(s, arenas, pid, va);
    TabledMemory(s, arenas, pid);
    AbsIs(s);
    var c, page, p, g := FaultMapping(s, pid, va).value, PageOf(va), s.procs[pid], granted.value;
    CopyIsData(s, arenas, c.frame, g);
    var s1 := s.(mem := CopyPage(s.mem, c.frame, g));
    AbsIs(s1);
    MappedNeedsNone(s1, arenas, pid, page);
    arenas' := MapKeeps(s1, arenas, pid, page, g, c.restored);
    var (s2, r2) := MapStepOf(s1, pid, page, g, c.restored);
    AbsIs(s2);
    CowIsApart(s2, arenas', Untrack(s.cow, c));
    AbsIs(s2.(cow := Untrack(s.cow, c)));
    assert FaultStep(s, pid, va, true, granted) == (s2.(cow := Untrack(s.cow, c)), Ok(COPIED));
  }

  /** resolve_write_fault does on the tables what Resolve does on the page maps. */
  lemma FaultIsSimulated(s: System, arenas: map<nat, Arena>, pid: nat, va: Qword, writeProtection: bool, granted: Option<Qword>)
    returns (arenas': map<nat, Arena>)
    requires Sound(s, arenas) && Ready(s, pid, granted) && FramesInRange(Abs(s)) && Grantable(s, arenas, granted)
    ensures FaultSimulates(s, arenas, arenas', pid, va, writeProtection, granted)
  {
    hide *;
    SoundParts(s, arenas);
    var c := FaultMapping(s, pid, va);
    arenas' := arenas;
    if !writeProtection || c.None? || (RefCount(s.cow.refs, c.value.frame) > 1 && granted.None?) {
      IdleFault(s, arenas, pid, va, writeProtection, granted);
    } else if RefCount(s.cow.refs, c.value.frame) <= 1 {
      RestoringFault(s, arenas, pid, va, granted);
    } else {
      arenas' := CopyingFault(s, arenas, pid, va, granted);
    }
  }

  /** Resolving a fault on the tables shows no process any change. */
  lemma FaultAgrees(s: System, arenas: map<nat, Arena>, e: Eager, pid: nat, va: Qword, writeProtection: bool, granted: Option<Qword>)
    returns (arenas': map<nat, Arena>)
    requires Shows(s, arenas, e) && Ready(s, pid, granted) && Grantable(s, arenas, granted)
    ensures var (s', r) := FaultStep(s, pid, va, writeProtection, granted);
            Shows(s', arenas', e) && r == Resolve(Abs(s), pid, va, writeProtection, granted).1
    ensures FaultSimulates(s, arenas, arenas', pid, va, writeProtection, granted)
  {
    hide Sound, Inv, Tabled, Abs, SamePlaces, Like, FramesInRange, FramesOutside, Agrees, FaultStep, Resolve, CowFramesInRange, Outside, Unused;
    SoundParts(s, arenas);
    AbsIs(s);
    arenas' := FaultIsSimulated(s, arenas, pid, va, writeProtection, granted);
    ResolveIsInvisible(Abs(s), pid, va, writeProtection, granted);
    var s' := FaultStep(s, pid, va, writeProtection, granted).0;
    var (m, rm) := Resolve(Abs(s), pid, va, writeProtection, granted);
    ResolvedFramesOutside(Abs(s), arenas, pid, va, writeProtection, granted);
    LikeIsSound(s', arenas, arenas', m);
    SameSeenAgrees(Abs(s), m, e);
  }

  lemma SameSeenAgrees(m: Machine, m': Machine, e: Eager)
    requires FramesInRange(m) && FramesInRange(m') && Agrees(m, e) && forall q: nat, a: nat :: Seen(m', q, a) == Seen(m, q, a)
    ensures Agrees(m', e)
  {
    hide FramesInRange, Seen;
    forall q: nat, a: nat ensures Seen(m', q, a) == EagerSeen(e, q, a) {
      assert Seen(m, q, a) == EagerSeen(e, q, a);
    }
  }

  lemma ResolvedFramesOutside(m: Machine, arenas: map<nat, Arena>, pid: nat, va: Qword, writeProtection: bool, granted: Option<Qword>)
    requires Inv(m) && FramesOutside(m, arenas) && pid in m.spaces
    requires granted.Some? ==> Unused(m, granted.value) && Outside(arenas, granted.value)
    ensures FramesInRange(m) && (granted.Some? ==> FrameInRange(m.mem, granted.value))
    ensures FramesOutside(Resolve(m, pid, va, writeProtection, granted).0, arenas)
  {
    hide Inv, Outside, Unused;
    ResolveReady(m, granted);
    var (m', r) := Resolve(m, pid, va, writeProtection, granted);
    if Resolved(r) {
      hide Resolve, FramesInRange;
      forall q, a | Mapped(m', q, a) ensures Outside(arenas, m'.spaces[q][a].frame) {
        ResolveEffect(m, pid, va, granted, q, a);
        ResolvedPageWas(m, pid, va);
      }
    }
  }

  lemma ResolvedPageWas(m: Machine, pid: nat, va: Qword)
    requires Inv(m) && Lookup(m.cow.mappings, pid, va - va % PAGE_4K).Some?
    ensures Mapped(m, pid, va - va % PAGE_4K)
    ensures m.spaces[pid][va - va % PAGE_4K].frame == Lookup(m.cow.mappings, pid, va - va % PAGE_4K).value.frame
  {
    assert PageOk(m, pid, va - va % PAGE_4K);
  }

  // ---------- Stores ----------

  /** The outcome of an attempt that the page maps predict. */
  predicate SameOutcome(attempt: Attempt, fault: Option<FaultReason>)
  {
    match fault
    case None => attempt.Done?
    case Some(reason) => attempt == Faulted(reason, ErrorCode(WRITE, RING3, reason))
  }

  ghost predicate TrySimulates(s: System, arenas: map<nat, Arena>, pid: nat, va: Qword, b: Byte)
    requires pid in s.procs && FramesInRange(Abs(s))
  {
    var (after, attempt) := TryStore(s.mem, s.procs[pid].root, va, b);
    var (m, fault) := UserWrite(Abs(s), pid, va, b);
    Tabled(s.(mem := after), arenas) && Like(m, Abs(s.(mem := after)), arenas) && SameOutcome(attempt, fault)
  }

  /** The walk of a user store, and the byte it reaches. */
  lemma WriteShows(s: System, arenas: map<nat, Arena>, pid: nat, va: Qword)
    requires Sound(s, arenas) && pid in s.procs && IsCanonical(va)
    ensures var outcome := PageTableWalker.Translate(s.mem, USER_MODE.(cr3 := s.procs[pid].root), va, WRITE, RING3).1;
            var m, page := Abs(s), PageOf(va);
            && (!Mapped(m, pid, page) ==> outcome == Fault(va, WRITE, RING3, NOT_PRESENT))
            && (Mapped(m, pid, page) ==>
                  && FrameInRange(s.mem, m.spaces[pid][page].frame) && Outside(arenas, m.spaces[pid][page].frame)
                  && match Denial(USER_MODE, m.spaces[pid][page].permissions, WRITE, RING3)
                     case Some(reason) => outcome == Fault(va, WRITE, RING3, reason)
                     case None =>
                       && outcome.Translated? && outcome.translation.Covers(va)
                       && outcome.translation.PhysicalAddress(va) == m.spaces[pid][page].frame + va % PAGE_4K)
  {
    hide Tabled, WellFormed, Within, SpaceOf, PageTableWalker.Translate, IsCanonical, PageOk, PairOk, CountsAgree, Unique, PageOf, Outside, ErrorCode;
    ProcessTables(s, arenas, pid);
    var page := PageOf(va);
    AccessJudged(Tables(s.mem, arenas[pid].used), s.procs[pid].root, arenas[pid].tree, USER_MODE.(cr3 := s.procs[pid].root), va, WRITE, RING3);
    if Mapped(Abs(s), pid, page) {
      assert FrameInRange(Abs(s).mem, Abs(s).spaces[pid][page].frame);
    }
  }

  lemma ByteIsData(s: System, arenas: map<nat, Arena>, frame: nat, offset: nat, b: Byte)
    requires Tabled(s, arenas) && FrameInRange(s.mem, frame) && Outside(arenas, frame) && offset < PAGE_4K
    ensures var s' := s.(mem := s.mem[frame + offset := b]); Tabled(s', arenas) && Abs(s').spaces == Abs(s).spaces
  {
    hide ArenasOk, Tabled, SpaceOf;
    var after := s.mem[frame + offset := b];
    forall p | p in arenas ensures SameInside(s.mem, after, arenas[p].lo, arenas[p].end) {
      assert frame + PAGE_4K <= arenas[p].lo || arenas[p].end <= frame;
    }
    DataChange(s, arenas, after);
  }

  lemma SameByte(before: Memory, after: Memory, arenas: map<nat, Arena>, frame: nat, offset: nat, b: Byte)
    requires SameData(before, after, arenas) && FrameInRange(before, frame) && Outside(arenas, frame) && offset < PAGE_4K
    ensures SameData(before[frame + offset := b], after[frame + offset := b], arenas)
  {
    hide Outside, Contents;
    var x, y := before[frame + offset := b], after[frame + offset := b];
    forall other: nat | FrameInRange(x, other) && Outside(arenas, other) ensures Contents(y, other) == Contents(x, other) {
      WriteElsewhere(before, frame, offset, b, other);
      WriteElsewhere(after, frame, offset, b, other);
      assert Contents(after, other) == Contents(before, other) && Contents(after, frame) == Contents(before, frame);
    }
  }

  /** A user store on the tables does what UserWrite does on the page maps. */
  lemma TryIsSimulated(s: System, arenas: map<nat, Arena>, pid: nat, va: Qword, b: Byte)
    requires Sound(s, arenas) && pid in s.procs && IsCanonical(va) && FramesInRange(Abs(s))
    ensures TrySimulates(s, arenas, pid, va, b)
  {
    hide Sound, Tabled, Abs, SameData, FramesInRange, PageTableWalker.Translate, IsCanonical, ErrorCode, Outside, Denial;
    SoundParts(s, arenas);
    AbsIs(s);
    WriteShows(s, arenas, pid, va);
    var ps := USER_MODE.(cr3 := s.procs[pid].root);
    AccessKeeps(s, arenas, pid, ps, va, WRITE, RING3);
    var s1 := s.(mem := PageTableWalker.Translate(s.mem, ps, va, WRITE, RING3).0);
    AbsIs(s1);
    var page := PageOf(va);
    if Mapped(Abs(s), pid, page) && Denial(USER_MODE, Abs(s).spaces[pid][page].permissions, WRITE, RING3).None? {
      var frame := Abs(s).spaces[pid][page].frame;
      ByteIsData(s1, arenas, frame, va % PAGE_4K, b);
      SameByte(s.mem, s1.mem, arenas, frame, va % PAGE_4K, b);
      AbsIs(s1.(mem := s1.mem[frame + va % PAGE_4K := b]));
    }
  }

  /** A store instruction: try, let the kernel resolve the fault, and try again. No outcome: it threw, or no frame was left. */
  function StoreStep(s: System, pid: nat, va: Qword, b: Byte, granted: Option<Qword>): (System, Option<StoreOutcome>)
    requires Ready(s, pid, granted)
  {
    var root := s.procs[pid].root;
    var (mem1, attempt) := TryStore(s.mem, root, va, b);
    var s1 := s.(mem := mem1);
    match attempt
    case Done => (s1, Some(Stored))
    case Threw(_) => (s1, None)
    case Faulted(reason, code) =>
      StaysReady(s, s1, pid, granted);
      var (s2, r) := FaultStep(s1, pid, va, IsWriteProtectionFault(code), granted);
      if r == Ok(OUT_OF_MEMORY) then (s2, None)
      else if !Resolved(r) then (s2, Some(Refused(reason)))
      else
        var (mem3, again) := TryStore(s2.mem, root, va, b);
        (s2.(mem := mem3),
         match again
         case Done => Some(Stored)
         case Threw(_) => None
         case Faulted(why, _) => Some(Refused(why)))
  }

  lemma StaysReady(s: System, s': System, pid: nat, granted: Option<Qword>)
    requires Ready(s, pid, granted) && |s'.mem| == |s.mem| && s'.cow == s.cow && s'.procs == s.procs
    ensures Ready(s', pid, granted)
  {
  }

  lemma WriteFaultCode(reason: FaultReason)
    ensures IsWriteProtectionFault(ErrorCode(WRITE, RING3, reason)) <==> reason != NOT_PRESENT
  {
  }

  /** One attempt agrees with the eager store if it stores, and shows nothing if it faults. */
  lemma TryAgrees(s: System, arenas: map<nat, Arena>, e: Eager, pid: nat, va: Qword, b: Byte)
    requires Shows(s, arenas, e) && pid in s.procs && IsCanonical(va)
    ensures var (after, attempt) := TryStore(s.mem, s.procs[pid].root, va, b);
            var fault := UserWrite(Abs(s), pid, va, b).1;
            && SameOutcome(attempt, fault)
            && Whole(e)
            && (fault.None? ==> EagerStore(e, pid, va, b).1 == Stored && Shows(s.(mem := after), arenas, EagerStore(e, pid, va, b).0))
            && (fault.Some? ==> Shows(s.(mem := after), arenas, e) && Like(Abs(s), Abs(s.(mem := after)), arenas))
  {
    hide Sound, Tabled, Abs, FramesInRange, Inv, FramesOutside, Agrees, Like, TryStore, UserWrite, IsCanonical, SamePlaces, EagerStore;
    SoundParts(s, arenas);
    AgreesWhole(Abs(s), e);
    AbsIs(s);
    TryIsSimulated(s, arenas, pid, va, b);
    WriteAgrees(Abs(s), e, pid, va, b);
    var after := TryStore(s.mem, s.procs[pid].root, va, b).0;
    var m := UserWrite(Abs(s), pid, va, b).0;
    SameSpacesOutside(Abs(s), m, arenas);
    SamePlacesRefl(arenas);
    LikeIsSound(s.(mem := after), arenas, arenas, m);
  }

  lemma SamePlacesRefl(arenas: map<nat, Arena>)
    ensures SamePlaces(arenas, arenas)
  {
  }

  lemma SameSpacesOutside(m: Machine, m': Machine, arenas: map<nat, Arena>)
    requires FramesOutside(m, arenas) && m'.spaces == m.spaces
    ensures FramesOutside(m', arenas)
  {
    hide Outside;
    forall q, a | Mapped(m', q, a) ensures Outside(arenas, m'.spaces[q][a].frame) {
      assert Mapped(m, q, a);
    }
  }

  lemma GrantableStays(s: System, s': System, arenas: map<nat, Arena>, granted: Option<Qword>)
    requires Grantable(s, arenas, granted) && Like(Abs(s), Abs(s'), arenas)
    ensures Grantable(s', arenas, granted)
  {
    hide Abs, Outside;
    if granted.Some? {
      forall pid: nat, page: nat | Mapped(Abs(s'), pid, page) ensures Abs(s').spaces[pid][page].frame != granted.value {
        assert Mapped(Abs(s), pid, page);
      }
    }
  }

  /** Copying is due, because another page is mapped to the frame of a tracked one, and no frame is granted. */
  ghost predicate LacksFrame(m: Machine, pid: nat, va: Qword, granted: Option<Qword>)
  {
    granted.None? && IsTracked(m, pid, PageOf(va)) && FrameIsShared(m, pid, PageOf(va))
  }

  /** The outcome of a store, and what it shows, are the eager machine's. */
  ghost predicate StoresEagerly(s: System, arenas': map<nat, Arena>, e: Eager, pid: nat, va: Qword, b: Byte, granted: Option<Qword>)
    requires Ready(s, pid, granted) && Whole(e)
  {
    var (s', seen) := StoreStep(s, pid, va, b, granted);
    && (seen.None? ==> Shows(s', arenas', e))
    && (seen.None? <==> !IsCanonical(va) || LacksFrame(Abs(s), pid, va, granted))
    && (seen.Some? ==> Shows(s', arenas', EagerStore(e, pid, va, b).0) && seen == Some(EagerStore(e, pid, va, b).1))
  }

  lemma StrayStore(s: System, arenas: map<nat, Arena>, e: Eager, pid: nat, va: Qword, b: Byte, granted: Option<Qword>)
    requires Shows(s, arenas, e) && Ready(s, pid, granted) && Whole(e) && !IsCanonical(va)
    ensures StoresEagerly(s, arenas, e, pid, va, b, granted)
  {
    hide Shows, IsCanonical, FaultStep;
    assert s.(mem := s.mem) == s;
  }

  lemma UserWriteLike(m: Machine, m': Machine, arenas: map<nat, Arena>, pid: nat, va: Qword, b: Byte)
    requires FramesInRange(m) && FramesInRange(m') && Like(m, m', arenas)
    ensures UserWrite(m', pid, va, b).1 == UserWrite(m, pid, va, b).1
  {
    hide FramesInRange, SameData, Denial;
  }

  lemma OutOfMemoryMeans(m: Machine, pid: nat, va: Qword, writeProtection: bool, granted: Option<Qword>)
    requires pid in m.spaces && FramesInRange(m) && (granted.Some? ==> FrameInRange(m.mem, granted.value))
    ensures Resolve(m, pid, va, writeProtection, granted).1 == Ok(OUT_OF_MEMORY) ==> granted.None?
    ensures Resolved(Resolve(m, pid, va, writeProtection, granted).1) ==> writeProtection
  {
  }

  lemma LacksFrameLike(m: Machine, m': Machine, arenas: map<nat, Arena>, pid: nat, va: Qword, granted: Option<Qword>)
    requires Like(m, m', arenas)
    ensures LacksFrame(m', pid, va, granted) == LacksFrame(m, pid, va, granted)
  {
    hide SameData;
    assert m' == m.(mem := m'.mem);
    assert IsTracked(m', pid, PageOf(va)) == IsTracked(m, pid, PageOf(va));
    assert FrameIsShared(m', pid, PageOf(va)) == FrameIsShared(m, pid, PageOf(va));
  }

  /** A store to a tracked page faults on a present page. */
  lemma TrackedPageFaults(m: Machine, pid: nat, va: Qword, b: Byte)
    requires Inv(m) && FramesInRange(m) && IsTracked(m, pid, PageOf(va))
    ensures UserWrite(m, pid, va, b).1.Some? && UserWrite(m, pid, va, b).1.value != NOT_PRESENT
  {
    TrackedIsLookup(m, pid, PageOf(va));
    assert PageOk(m, pid, PageOf(va));
    hide Inv, FramesInRange;
  }

  /** The kernel runs out of frames for this fault exactly when the page lacks one. */
  lemma RunsOutIff(m: Machine, pid: nat, va: Qword, b: Byte, granted: Option<Qword>)
    requires Inv(m) && FramesInRange(m) && pid in m.spaces && (granted.Some? ==> Unused(m, granted.value)) && UserWrite(m, pid, va, b).1.Some?
    ensures Resolve(m, pid, va, UserWrite(m, pid, va, b).1.value != NOT_PRESENT, granted).1 == Ok(OUT_OF_MEMORY)
            <==> LacksFrame(m, pid, va, granted)
  {
    hide Inv, FramesInRange, Resolve, UserWrite, IsTracked, FrameIsShared, Unused;
    ResolveReady(m, granted);
    ResolveOutcome(m, pid, va, UserWrite(m, pid, va, b).1.value != NOT_PRESENT, granted);
    if IsTracked(m, pid, PageOf(va)) {
      TrackedPageFaults(m, pid, va, b);
    }
  }

  /** A store that the kernel does not resolve is one that the eager machine refuses for the same reason. */
  lemma RefusedEagerly(m: Machine, e: Eager, pid: nat, va: Qword, b: Byte, granted: Option<Qword>, reason: FaultReason)
    requires Inv(m) && FramesInRange(m) && Agrees(m, e) && Whole(e) && pid in m.spaces && (granted.Some? ==> Unused(m, granted.value))
    requires UserWrite(m, pid, va, b).1 == Some(reason)
    requires var r := Resolve(m, pid, va, reason != NOT_PRESENT, granted).1; !Resolved(r) && r != Ok(OUT_OF_MEMORY)
    ensures EagerStore(e, pid, va, b) == (e, Refused(reason))
  {
    RefusedForGood(m, pid, va, b, granted, reason);
    hide Inv, FramesInRange, Resolve, UserWrite, Denial;
    var page := va - va % PAGE_4K;
    assert Seen(m, pid, page) == EagerSeen(e, pid, page);
  }

  /** After a resolved fault the second attempt is judged as the eager machine judges. */
  lemma RetryEagerly(m: Machine, m2: Machine, e: Eager, arenas: map<nat, Arena>, pid: nat, va: Qword, b: Byte, granted: Option<Qword>)
    requires Inv(m) && FramesInRange(m) && FramesInRange(m2) && Agrees(m, e) && Whole(e) && pid in m.spaces
    requires (granted.Some? ==> Unused(m, granted.value)) && Resolved(Resolve(m, pid, va, true, granted).1)
    requires Like(Resolve(m, pid, va, true, granted).0, m2, arenas)
    ensures match UserWrite(m2, pid, va, b).1
            case None => EagerStore(e, pid, va, b).1 == Stored
            case Some(why) => EagerStore(e, pid, va, b) == (e, Refused(why))
  {
    RetryIsJudgedEagerly(m, pid, va, b, granted);
    hide Inv, FramesInRange, Resolve, Denial, SameData;
    var page := va - va % PAGE_4K;
    assert Seen(m, pid, page) == EagerSeen(e, pid, page);
    assert Mapped(m2, pid, page);
  }

  /** The store that faults, is resolved or refused, and is tried again. */
  lemma FaultingStore(s: System, arenas: map<nat, Arena>, e: Eager, pid: nat, va: Qword, b: Byte, granted: Option<Qword>)
    returns (arenas': map<nat, Arena>)
    requires Shows(s, arenas, e) && Ready(s, pid, granted) && Grantable(s, arenas, granted) && Whole(e) && IsCanonical(va)
    requires TryStore(s.mem, s.procs[pid].root, va, b).1.Faulted?
    ensures StoresEagerly(s, arenas', e, pid, va, b, granted)
  {
    hide Sound, Tabled, Abs, FramesInRange, Inv, FramesOutside, Agrees, TryStore, UserWrite, IsCanonical, SamePlaces, EagerStore, FaultStep, Resolve,
         Unused, Outside, SameData, ErrorCode, IsWriteProtectionFault, Ready, LacksFrame;
    ReadyParts(s, pid, granted);
    TryAgrees(s, arenas, e, pid, va, b);
    var (mem1, attempt) := TryStore(s.mem, s.procs[pid].root, va, b);
    var s1 := s.(mem := mem1);
    AbsIs(s);
    AbsIs(s1);
    SoundParts(s, arenas);
    SoundParts(s1, arenas);
    StaysReady(s, s1, pid, granted);
    GrantableStays(s, s1, arenas, granted);
    UserWriteLike(Abs(s), Abs(s1), arenas, pid, va, b);
    var reason := attempt.reason;
    WriteFaultCode(reason);
    ReadyParts(s1, pid, granted);
    arenas' := FaultAgrees(s1, arenas, e, pid, va, reason != NOT_PRESENT, granted);
    var (s2, r) := FaultStep(s1, pid, va, reason != NOT_PRESENT, granted);
    OutOfMemoryMeans(Abs(s1), pid, va, reason != NOT_PRESENT, granted);
    RunsOutIff(Abs(s1), pid, va, b, granted);
    LacksFrameLike(Abs(s), Abs(s1), arenas, pid, va, granted);
    if Resolved(r) {
      SoundParts(s2, arenas');
      RetryEagerly(Abs(s1), Abs(s2), e, arenas, pid, va, b, granted);
      RootKept(s1, pid, va, reason != NOT_PRESENT, granted);
      TryAgrees(s2, arenas', e, pid, va, b);
    } else if r != Ok(OUT_OF_MEMORY) {
      RefusedEagerly(Abs(s1), e, pid, va, b, granted, reason);
    }
  }

  lemma ReadyParts(s: System, pid: nat, granted: Option<Qword>)
    requires Ready(s, pid, granted)
    ensures pid in s.procs && (granted.Some? ==> FrameInRange(s.mem, granted.value))
  {
  }

  lemma RootKept(s: System, pid: nat, va: Qword, writeProtection: bool, granted: Option<Qword>)
    requires Ready(s, pid, granted)
    ensures var s' := FaultStep(s, pid, va, writeProtection, granted).0; pid in s'.procs && s'.procs[pid].root == s.procs[pid].root
  {
  }

  /** A store instruction does what the eager machine does, unless it throws or memory runs out, and then nobody sees a change. */
  lemma StoreAgrees(s: System, arenas: map<nat, Arena>, e: Eager, pid: nat, va: Qword, b: Byte, granted: Option<Qword>)
    returns (arenas': map<nat, Arena>)
    requires Shows(s, arenas, e) && Ready(s, pid, granted) && Grantable(s, arenas, granted) && Whole(e)
    ensures StoresEagerly(s, arenas', e, pid, va, b, granted)
  {
    arenas' := arenas;
    hide Sound, Tabled, Abs, Agrees, TryStore, UserWrite, IsCanonical, EagerStore, FaultStep, Ready, Grantable, Like, Whole;
    ReadyParts(s, pid, granted);
    if !IsCanonical(va) {
      StrayStore(s, arenas, e, pid, va, b, granted);
    } else if TryStore(s.mem, s.procs[pid].root, va, b).1.Faulted? {
      arenas' := FaultingStore(s, arenas, e, pid, va, b, granted);
    } else {
      TryAgrees(s, arenas, e, pid, va, b);
      SoundParts(s, arenas);
      if IsTracked(Abs(s), pid, PageOf(va)) {
        TrackedPageFaults(Abs(s), pid, va, b);
      }
    }
  }

  // ---------- Fresh pages ----------

  /** What a map_page of a free frame shows: the new page with the contents of the frame, or nothing if it throws. */
  ghost predicate Installs(s: System, arenas': map<nat, Arena>, e: Eager, pid: nat, page: Qword, frame: Qword, permissions: Permissions)
    requires pid in s.procs && FrameInRange(s.mem, frame)
  {
    var (s', r) := MapStepOf(s, pid, page, frame, permissions);
    Shows(s', arenas', if r.Ok? then e[(pid, page) := EagerPage(Contents(s.mem, frame), permissions)] else e)
  }

  lemma StrayMap(s: System, arenas: map<nat, Arena>, e: Eager, pid: nat, page: Qword, frame: Qword, permissions: Permissions)
    requires Shows(s, arenas, e) && pid in s.procs && page % PAGE_4K != 0 && FrameInRange(s.mem, frame)
    ensures Installs(s, arenas, e, pid, page, frame, permissions)
  {
    hide Abs, Tabled, RunsOutHalfWay, FramesOutside, Inv, Agrees, FramesInRange;
    NothingHappened(s, arenas, s.stale);
    NothingHappened(s, arenas, s.stale + {pid});
    var p := s.procs[pid];
    assert s.procs[pid := p.(next := p.next)] == s.procs;
  }

  lemma InstallAgrees(s: System, arenas: map<nat, Arena>, e: Eager, pid: nat, page: Qword, frame: Qword, permissions: Permissions)
    returns (arenas': map<nat, Arena>)
    requires Shows(s, arenas, e) && pid in s.procs && pid !in s.stale && (page % PAGE_4K == 0 ==> IsCanonical(page))
    requires Grantable(s, arenas, Some(frame)) && FrameInRange(s.mem, frame) && !Tracked(s.cow.mappings, pid, page)
    ensures Installs(s, arenas', e, pid, page, frame, permissions)
  {
    hide Abs, Tabled, RunsOutHalfWay, FramesOutside, Inv, FramesInRange, Sound, IsCanonical, MapStepOf, Like, SameData, SamePlaces, Outside, Unused,
         Tracked, Seen;
    arenas' := arenas;
    if page % PAGE_4K != 0 {
      StrayMap(s, arenas, e, pid, page, frame, permissions);
    } else {
      AbsIs(s);
      SoundParts(s, arenas);
      TabledMemory(s, arenas, pid);
      arenas' := MapKeeps(s, arenas, pid, page, frame, permissions);
      var (s', r) := MapStepOf(s, pid, page, frame, permissions);
      var m := if r.Ok? then PutPage(Abs(s), pid, page, Page(frame, permissions, false)) else Abs(s);
      AbsIs(s');
      InstallKeeps(Abs(s), pid, page, frame, permissions);
      InstalledOutside(Abs(s), arenas, pid, page, frame, permissions);
      BecomesLike(s, s', arenas, arenas', m);
      LikeIsSound(s', arenas, arenas', m);
      if r.Ok? {
        InstalledAgrees(Abs(s), m, e, pid, page, EagerPage(Contents(s.mem, frame), permissions));
      }
    }
  }

  lemma BecomesLike(s: System, s': System, arenas: map<nat, Arena>, arenas': map<nat, Arena>, m: Machine)
    requires Becomes(s, s', arenas, arenas', m) && m.mem == s.mem && m.cow == s.cow
    ensures Like(m, Abs(s'), arenas) && Tabled(s', arenas') && SamePlaces(arenas, arenas')
  {
    hide Abs, Tabled, SameData, SamePlaces;
    AbsIs(s');
  }

  lemma InstalledOutside(m: Machine, arenas: map<nat, Arena>, pid: nat, page: nat, frame: nat, permissions: Permissions)
    requires FramesOutside(m, arenas) && pid in m.spaces && Outside(arenas, frame)
    ensures FramesOutside(PutPage(m, pid, page, Page(frame, permissions, false)), arenas)
  {
    hide Outside;
    var p := Page(frame, permissions, false);
    var m' := PutPage(m, pid, page, p);
    forall q, a | Mapped(m', q, a) ensures Outside(arenas, m'.spaces[q][a].frame) {
      PutFrame(m, pid, page, p, q, a);
    }
  }

  lemma InstalledAgrees(m: Machine, m': Machine, e: Eager, pid: nat, page: nat, installed: EagerPage)
    requires FramesInRange(m) && FramesInRange(m') && Agrees(m, e) && |installed.contents| == PAGE_4K
    requires forall q: nat, a: nat :: Seen(m', q, a) == if (q, a) == (pid, page) then Some(installed) else Seen(m, q, a)
    ensures Agrees(m', e[(pid, page) := installed])
  {
    hide FramesInRange, Seen;
    var e' := e[(pid, page) := installed];
    forall q: nat, a: nat ensures Seen(m', q, a) == EagerSeen(e', q, a) {
      assert Seen(m, q, a) == EagerSeen(e, q, a);
    }
  }

  // ---------- Runs ----------

  datatype Op =
    | MapOp(pid: nat, page: Qword, frame: Qword, permissions: Permissions)
    | ForkOp(parent: nat, child: nat, pages: seq<Qword>)
    | StoreOp(pid: nat, va: Qword, b: Byte, granted: Option<Qword>)
    | FaultOp(pid: nat, va: Qword, writeProtection: bool, granted: Option<Qword>)

  /** A frame in memory that no page uses and that lies in no arena. */
  ghost predicate Free(s: System, frame: nat)
  {
    Unused(Abs(s), frame) && forall pid :: pid in s.procs ==> frame + PAGE_4K <= s.procs[pid].lo || s.procs[pid].end <= frame
  }

  /**
   What the kernel respects: known processes, free frames, no page that meets the missed duplicate, and no
   fork into a process whose tables an earlier fork left half built.
   */
  ghost predicate Legal(s: System, op: Op)
  {
    match op
    case MapOp(pid, page, frame, _) =>
      && pid in s.procs && pid !in s.stale && Free(s, frame) && (page % PAGE_4K == 0 ==> IsCanonical(page))
      && !Tracked(s.cow.mappings, pid, page)
    case ForkOp(parent, child, pages) =>
      && parent in s.procs && child in s.procs && parent != child && child !in s.stale
      && NoMissed(Abs(s), parent, child, pages)
    case StoreOp(pid, _, _, granted) => pid in s.procs && (granted.Some? ==> Free(s, granted.value))
    case FaultOp(pid, _, _, granted) => pid in s.procs && (granted.Some? ==> Free(s, granted.value))
  }

  ghost predicate StepReady(s: System, op: Op)
  {
    match op
    case MapOp(pid, _, frame, _) => pid in s.procs && FrameInRange(s.mem, frame)
    case ForkOp(parent, child, _) => parent in s.procs && child in s.procs
    case StoreOp(pid, _, _, granted) => Ready(s, pid, granted)
    case FaultOp(pid, _, _, granted) => Ready(s, pid, granted)
  }

  /** One step on tables, memory and lists, and the outcome of a store. Mapping is for pages that copy-on-write does not track. */
  function Step(s: System, op: Op): (System, Option<StoreOutcome>)
    requires StepReady(s, op)
  {
    match op
    case MapOp(pid, page, frame, permissions) => (MapStepOf(s, pid, page, frame, permissions).0, None)
    case ForkOp(parent, child, pages) => (Fork(s, parent, child, pages).0, None)
    case StoreOp(pid, va, b, granted) => StoreStep(s, pid, va, b, granted)
    case FaultOp(pid, va, writeProtection, granted) => (FaultStep(s, pid, va, writeProtection, granted).0, None)
  }

  /** The step of the eager machine: a fork copies as many pages as were shared, and a store without an outcome is none. */
  function EagerOpOf(s: System, op: Op): EagerOp
    requires StepReady(s, op)
  {
    match op
    case MapOp(pid, page, frame, permissions) =>
      if MapStepOf(s, pid, page, frame, permissions).1.Err? then Nothing
      else InstallPage(pid, page, EagerPage(Contents(s.mem, frame), permissions))
    case ForkOp(parent, child, pages) => CopyPages(parent, child, pages[..Fork(s, parent, child, pages).1])
    case StoreOp(pid, va, b, granted) => if StoreStep(s, pid, va, b, granted).1.None? then Nothing else PutByte(pid, va, b)
    case FaultOp(_, _, _, _) => Nothing
  }

  lemma FreeIsGrantable(s: System, arenas: map<nat, Arena>, granted: Option<Qword>)
    requires Tabled(s, arenas) && (granted.Some? ==> Free(s, granted.value))
    ensures Grantable(s, arenas, granted)
  {
    hide ArenasOk, Abs, Unused;
    if granted.Some? {
      forall p | p in arenas ensures granted.value + PAGE_4K <= arenas[p].lo || arenas[p].end <= granted.value {
        assert Placed(s.procs[p], arenas[p], p in s.stale);
      }
    }
  }

  /** Legality is what a caller can check: in a system in order it gives all that a step needs. */
  lemma LegalIsReady(s: System, arenas: map<nat, Arena>, op: Op)
    requires Sound(s, arenas) && Legal(s, op)
    ensures StepReady(s, op)
    ensures op.StoreOp? || op.FaultOp? ==> Grantable(s, arenas, op.granted)
    ensures op.MapOp? ==> Grantable(s, arenas, Some(op.frame))
  {
    hide Tabled, Sound, Ready, Abs, Free, Grantable, NoMissed, FramesOutside, Inv;
    SoundParts(s, arenas);
    if op.MapOp? {
      FreeIsGrantable(s, arenas, Some(op.frame));
      SoundIsReady(s, arenas, op.pid, Some(op.frame));
      ReadyParts(s, op.pid, Some(op.frame));
    } else if !op.ForkOp? {
      FreeIsGrantable(s, arenas, op.granted);
      SoundIsReady(s, arenas, op.pid, op.granted);
    }
  }

  /** Every legal step shows what the eager machine's step shows. */
  lemma StepAgrees(s: System, arenas: map<nat, Arena>, e: Eager, op: Op) returns (arenas': map<nat, Arena>)
    requires Shows(s, arenas, e) && StepReady(s, op) && Legal(s, op) && Whole(e)
    ensures var (s', seen) := Step(s, op);
            Shows(s', arenas', EagerStep(e, EagerOpOf(s, op)).0) && seen == EagerStep(e, EagerOpOf(s, op)).1
  {
    hide Sound, Abs, FramesInRange, Agrees, Fork, FaultStep, StoreStep, Ready, Grantable, Free, NoMissed, Whole, EagerStore;
    LegalIsReady(s, arenas, op);
    match op
    case MapOp(pid, page, frame, permissions) => arenas' := InstallAgrees(s, arenas, e, pid, page, frame, permissions);
    case ForkOp(parent, child, pages) => arenas' := ForkAgrees(s, arenas, e, parent, child, pages);
    case StoreOp(pid, va, b, granted) => arenas' := StoreAgrees(s, arenas, e, pid, va, b, granted);
    case FaultOp(pid, va, writeProtection, granted) => arenas' := FaultAgrees(s, arenas, e, pid, va, writeProtection, granted);
  }

  /** Each step is legal in the state it meets. */
  ghost predicate LegalRun(s: System, ops: seq<Op>)
    decreases |ops|
  {
    ops == [] || (Legal(s, ops[0]) && StepReady(s, ops[0]) && LegalRun(Step(s, ops[0]).0, ops[1..]))
  }

  /** Final state, observations of the stores, and the steps of the eager machine. */
  ghost function Run(s: System, ops: seq<Op>): (System, seq<Option<StoreOutcome>>, seq<EagerOp>)
    requires LegalRun(s, ops)
    decreases |ops|
  {
    if ops == [] then (s, [], [])
    else
      var (s', seen) := Step(s, ops[0]);
      var (s'', rest, eops) := Run(s', ops[1..]);
      (s'', [seen] + rest, [EagerOpOf(s, ops[0])] + eops)
  }

  /**
   Over every run of forks, faults and stores of processes with their own page tables in one memory,
   walks show each process the pages, and each store has the outcome, that they would have had every fork
   copied its pages at once.
   */
  lemma {:induction false} CowRefinesEagerCopy(s: System, arenas: map<nat, Arena>, e: Eager, ops: seq<Op>) returns (arenas': map<nat, Arena>)
    requires Shows(s, arenas, e) && LegalRun(s, ops) && Whole(e)
    ensures var (s', observed, eops) := Run(s, ops);
            Shows(s', arenas', EagerRun(e, eops).0) && observed == EagerRun(e, eops).1
    decreases |ops|
  {
    hide Shows, Legal, StepReady, Step, EagerOpOf, EagerStep, Whole;
    arenas' := arenas;
    if ops != [] {
      arenas' := StepAgrees(s, arenas, e, ops[0]);
      var s1, eop := Step(s, ops[0]).0, EagerOpOf(s, ops[0]);
      arenas' := CowRefinesEagerCopy(s1, arenas', EagerStep(e, eop).0, ops[1..]);
      var (s', observed, eops) := Run(s1, ops[1..]);
      assert ([eop] + eops)[1..] == eops;
    }
  }

  /** From any system in order, the eager machine to compare with is the one that looks like it. */
  lemma SoundShowsEager(s: System, arenas: map<nat, Arena>)
    requires Sound(s, arenas)
    ensures FramesInRange(Abs(s)) && Shows(s, arenas, EagerOf(Abs(s))) && Whole(EagerOf(Abs(s)))
  {
    hide Sound, Abs, FramesInRange, Agrees, EagerOf, Whole;
    SoundParts(s, arenas);
    EagerOfAgrees(Abs(s));
    AgreesWhole(Abs(s), EagerOf(Abs(s)));
  }

  // ---------- The start ----------

  /** An address space as its constructor leaves it: an empty root table at the start of the arena, and the cursor behind it. */
  ghost predicate FreshSpace(mem: Memory, p: Process)
  {
    && p.root % PAGE_4K == 0 && p.next % PAGE_4K == 0 && p.lo == p.root && p.root + PAGE_4K <= p.next <= p.end
    && ContainsRange(mem, p.root, PAGE_4K) && forall a :: p.root <= a < p.root + PAGE_4K ==> mem[a] == 0
  }

  /** Any number of new address spaces with arenas apart, and nothing shared. */
  ghost predicate FreshSystem(s: System)
  {
    && |s.mem| <= TWO_52 && s.cow == Cow([], []) && s.stale == {}
    && (forall pid :: pid in s.procs ==> FreshSpace(s.mem, s.procs[pid]))
    && (forall p, q :: p in s.procs && q in s.procs && p != q ==> s.procs[p].end <= s.procs[q].lo || s.procs[q].end <= s.procs[p].lo)
  }

  lemma FreshArena(mem: Memory, p: Process) returns (a: Arena)
    requires FreshSpace(mem, p) && |mem| <= TWO_52
    ensures ArenaOk(mem, a) && Placed(p, a, false) && SpaceOf(mem, p.root) == map[]
    ensures a == Arena(p.root, p.lo, p.end, p.next, map[p.root := Node(PML4, 0, p.root)])
  {
    var tree: Tree := map[p.root := Node(PML4, 0, p.root)];
    a := Arena(p.root, p.lo, p.end, p.next, tree);
    assert ClearTable(mem, p.root) == mem;
    hide Decode, LoadEntry, ClearTable, TableIndex, PageTableWalker.HasReservedBits;
    forall c, i | c in tree && 0 <= i < 512 ensures !Entry(mem, c, i).present {
      ClearedPage(mem, p.root, c, i);
    }
    forall page: nat ensures page !in SpaceOf(mem, p.root) {
      SpaceIs(mem, p.root, page);
      if IsPage(page) {
        EmptyRoot(mem, p.root, page);
      }
    }
  }

  lemma EmptyRoot(mem: Memory, root: nat, va: Qword)
    requires ContainsRange(mem, root, PAGE_4K) && forall i :: 0 <= i < 512 ==> !Entry(mem, root, i).present
    ensures Shown(mem, root, va) == None
  {
    hide Decode, LoadEntry, TableIndex;
    assert !Entry(mem, root, TableIndex(va, PML4)).present;
  }

  /** Runs may start from new address spaces: nobody sees a page, as in the empty eager machine. */
  lemma FreshSystemShowsNothing(s: System) returns (arenas: map<nat, Arena>)
    requires FreshSystem(s)
    ensures Shows(s, arenas, map[])
  {
    hide ArenaOk, SpaceOf, FreshSpace;
    arenas := map pid | pid in s.procs ::
      Arena(s.procs[pid].root, s.procs[pid].lo, s.procs[pid].end, s.procs[pid].next,
            map[s.procs[pid].root as nat := Node(PML4, 0, s.procs[pid].root)]);
    forall pid | pid in s.procs
      ensures ArenaOk(s.mem, arenas[pid]) && Placed(s.procs[pid], arenas[pid], pid in s.stale) && SpaceOf(s.mem, s.procs[pid].root) == map[]
    {
      var a := FreshArena(s.mem, s.procs[pid]);
    }
    UnsharedIsFine(Abs(s));
  }
}
