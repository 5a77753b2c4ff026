/**
 Copy-on-write over page tables in memory: what walks show of an address space, how map_page and
 set_page_permissions change it, and sharing, fault resolution and user stores on real tables.
 */
module CowPageTables {
  import opened LittleEndian
  import opened MemoryBus
  import opened Results
  import opened Paging
  import opened PageTableWalker
  import opened PageTableBuilder
  import opened PageMap
  import opened AddressSpace
  import opened AddressSpaceTables
  import opened TlbInvisibility
  import opened TableEdits
  import opened CopyOnWrite
  import opened Arithmetic

  // ---------- Operations ----------

  /**
   One page of share_pages on the tables of two processes; the cursor in t is the child's. The
   translation of the parent's page is a supervisor read, which sets accessed bits.
   */
  function SharePage(t: Tables, cow: Cow, parent: nat, parentRoot: Qword, child: nat, childRoot: Qword, arenaEnd: nat, page: Qword)
    : (r: (Tables, Cow, Result<bool>))
    ensures |r.0.mem| == |t.mem|
  {
    if page % PAGE_4K != 0 then (t, cow, Err(InvalidArgument))
    else
      var (mem1, outcome) := Translate(t.mem, FreshState(parentRoot), page, READ, RING0);
      match outcome
      case Thrown(e) => (t.(mem := mem1), cow, Err(e))
      case PageFault(_, _, _, _) => (t.(mem := mem1), cow, Err(RuntimeError))
      case Translated(x) => ShareFrame(t.(mem := mem1), cow, parent, parentRoot, child, childRoot, arenaEnd, page, x)
  }

  function ShareFrame(t: Tables, cow: Cow, parent: nat, parentRoot: Qword, child: nat, childRoot: Qword, arenaEnd: nat, page: Qword,
                      x: Translation): (r: (Tables, Cow, Result<bool>))
    ensures |r.0.mem| == |t.mem|
  {
    if x.size != PAGE_4K then (t, cow, Err(LogicError))
    else
      var frame: Qword := x.frameBase % TWO_64;
      var i := Find(cow.mappings, parent, page);
      var restored := if i < |cow.mappings| then cow.mappings[i].restored else x.permissions;
      if restored.writable && Tracked(cow.mappings, child, page) then (t, cow, Err(LogicError))
      else
        var (t2, mapped) := MapOnePage(t, arenaEnd, childRoot, page, frame, ReadOnly(restored));
        if mapped.Err? then (t2, cow, Err(mapped.error))
        else if !restored.writable then (t2, cow, Ok(false))
        else
          var mapping := CowMapping(child, page, frame, restored);
          if i < |cow.mappings| then (t2, Track(cow, mapping), Ok(true))
          else
            var (mem3, changed) := SetPermissions(t2.mem, parentRoot, page, ReadOnly(restored));
            if changed.Err? then (t2.(mem := mem3), cow, Err(changed.error))
            else (t2.(mem := mem3), Track(Track(cow, mapping.(pid := parent)), mapping), Ok(true))
  }

  /** share_pages: page after page until one throws, counting the pages that became shared. */
  function ShareAll(t: Tables, cow: Cow, parent: nat, parentRoot: Qword, child: nat, childRoot: Qword, arenaEnd: nat, pages: seq<Qword>)
    : (Tables, Cow, Result<nat>)
    decreases |pages|
  {
    if pages == [] then (t, cow, Ok(0))
    else
      var (t1, cow1, one) := SharePage(t, cow, parent, parentRoot, child, childRoot, arenaEnd, pages[0]);
      if one.Err? then (t1, cow1, Err(one.error))
      else
        var (t2, cow2, rest) := ShareAll(t1, cow1, parent, parentRoot, child, childRoot, arenaEnd, pages[1..]);
        (t2, cow2, if rest.Err? then rest else Ok(rest.value + if one.value then 1 else 0))
  }

  /** How many pages of a process are tracked. */
  function TrackedOf(mappings: seq<CowMapping>, pid: nat): nat
  {
    if mappings == [] then 0
    else TrackedOf(mappings[..|mappings| - 1], pid) + if mappings[|mappings| - 1].pid == pid then 1 else 0
  }

  lemma TrackCounts(cow: Cow, m: CowMapping, pid: nat)
    ensures cow.mappings <= Track(cow, m).mappings
    ensures TrackedOf(Track(cow, m).mappings, pid) == TrackedOf(cow.mappings, pid) + if m.pid == pid then 1 else 0
  {
    assert Track(cow, m).mappings[..|cow.mappings|] == cow.mappings;
  }

  lemma SharePageCounts(t: Tables, cow: Cow, parent: nat, parentRoot: Qword, child: nat, childRoot: Qword, arenaEnd: nat, page: Qword)
    requires parent != child
    ensures var (_, cow', r) := SharePage(t, cow, parent, parentRoot, child, childRoot, arenaEnd, page);
            && cow.mappings <= cow'.mappings
            && TrackedOf(cow'.mappings, child) == TrackedOf(cow.mappings, child) + if r.Ok? && r.value then 1 else 0
  {
    hide Translate, FreshState, MapOnePage, SetPermissions, Find, Track, TrackedOf, ReadOnly;
    forall c: Cow, m: CowMapping {:trigger Track(c, m)}
      ensures c.mappings <= Track(c, m).mappings
      ensures TrackedOf(Track(c, m).mappings, child) == TrackedOf(c.mappings, child) + if m.pid == child then 1 else 0
    {
      TrackCounts(c, m, child);
    }
  }

  /** The count that share_pages returns is how many more pages of the child are tracked; what was tracked stays, in its place. */
  lemma {:induction false} SharedAreCounted(t: Tables, cow: Cow, parent: nat, parentRoot: Qword, child: nat, childRoot: Qword,
                                            arenaEnd: nat, pages: seq<Qword>)
    requires parent != child
    ensures var (_, cow', r) := ShareAll(t, cow, parent, parentRoot, child, childRoot, arenaEnd, pages);
            && cow.mappings <= cow'.mappings
            && (r.Ok? ==> TrackedOf(cow'.mappings, child) == TrackedOf(cow.mappings, child) + r.value)
    decreases |pages|
  {
    hide SharePage, TrackedOf;
    if pages != [] {
      SharePageCounts(t, cow, parent, parentRoot, child, childRoot, arenaEnd, pages[0]);
      var (t1, cow1, _) := SharePage(t, cow, parent, parentRoot, child, childRoot, arenaEnd, pages[0]);
      SharedAreCounted(t1, cow1, parent, parentRoot, child, childRoot, arenaEnd, pages[1..]);
    }
  }

  ghost predicate CowFramesInRange(mem: Memory, cow: Cow)
  {
    forall i :: 0 <= i < |cow.mappings| ==> FrameInRange(mem, cow.mappings[i].frame)
  }

  /** resolve_write_fault on the tables of a process. */
  function ResolveFault(t: Tables, cow: Cow, pid: nat, root: Qword, arenaEnd: nat, va: Qword, writeProtection: bool,
                        granted: Option<Qword>): (r: (Tables, Cow, Result<FaultResult>))
    requires CowFramesInRange(t.mem, cow) && (granted.Some? ==> FrameInRange(t.mem, granted.value))
    ensures |r.0.mem| == |t.mem|
  {
    if !writeProtection then (t, cow, Ok(INVALID_FAULT))
    else
      var page := va - va % PAGE_4K;
      var i := Find(cow.mappings, pid, page);
      if i == |cow.mappings| then (t, cow, Ok(NOT_COW))
      else
        var c := cow.mappings[i];
        if RefCount(cow.refs, c.frame) <= 1 then
          var (mem', changed) := SetPermissions(t.mem, root, page, c.restored);
          if changed.Err? then (t.(mem := mem'), cow, Err(changed.error)) else (t.(mem := mem'), Untrack(cow, c), Ok(RESTORED))
        else match granted
          case None => (t, cow, Ok(OUT_OF_MEMORY))
          case Some(g) =>
            assert FrameInRange(t.mem, cow.mappings[i].frame);
            var (t', mapped) := MapOnePage(t.(mem := CopyPage(t.mem, c.frame, g)), arenaEnd, root, page, g, c.restored);
            if mapped.Err? then (t', cow, Err(mapped.error)) else (t', Untrack(cow, c), Ok(COPIED))
  }

  /** The present and write bits of the error code: what resolve_write_fault accepts. */
  predicate IsWriteProtectionFault(code: nat)
  {
    code % 2 == 1 && code / 2 % 2 == 1
  }

  datatype Attempt = Done | Faulted(reason: FaultReason, code: nat) | Threw(error: Error)

  /** A one-byte user store: walk, and write at the physical address. */
  function TryStore(mem: Memory, root: Qword, va: Qword, b: Byte): (r: (Memory, Attempt))
    ensures |r.0| == |mem|
  {
    var (mem1, outcome) := Translate(mem, USER_MODE.(cr3 := root), va, WRITE, RING3);
    match outcome
    case Thrown(e) => (mem1, Threw(e))
    case PageFault(_, _, reason, code) => (mem1, Faulted(reason, code))
    case Translated(x) =>
      if x.Covers(va) && x.PhysicalAddress(va) < |mem1| then (mem1[x.PhysicalAddress(va) := b], Done) else (mem1, Threw(OutOfRange))
  }

  // ---------- What walks show ----------

  predicate IsPage(page: nat)
  {
    page < TWO_64 && page % PAGE_4K == 0 && IsCanonical(page)
  }

  /** What a walk of the tables shows of 4 KiB of the address space. */
  function Shown(mem: Memory, root: nat, page: Qword): Option<Page>
  {
    match Walk(mem, true, root, page, PML4, TABLE_PERMISSIONS)
    case Mapped(leaf) => Some(Page(leaf.frame + page % leaf.level.Span(), leaf.permissions, leaf.level != PT))
    case _ => None
  }

  /** The page map that walks from a root compute. */
  ghost function SpaceOf(mem: Memory, root: nat): Space
  {
    map page: nat | page < TWO_64 && IsPage(page) && Shown(mem, root, page).Some? :: Shown(mem, root, page).value
  }

  lemma SpaceIs(mem: Memory, root: nat, page: nat)
    ensures page in SpaceOf(mem, root) <==> IsPage(page) && Shown(mem, root, page).Some?
    ensures page in SpaceOf(mem, root) ==> SpaceOf(mem, root)[page] == Shown(mem, root, page).value
  {
    hide Shown;
  }

  lemma SameShownSameSpace(before: Memory, after: Memory, root: nat)
    requires forall page: nat :: IsPage(page) ==> Shown(after, root, page) == Shown(before, root, page)
    ensures SpaceOf(after, root) == SpaceOf(before, root)
  {
    hide Shown, SpaceOf;
    forall page: nat
      ensures page in SpaceOf(after, root) <==> page in SpaceOf(before, root)
      ensures page in SpaceOf(after, root) ==> SpaceOf(after, root)[page] == SpaceOf(before, root)[page]
    {
      SpaceIs(before, root, page);
      SpaceIs(after, root, page);
    }
  }

  lemma SameWalksSameSpace(before: Memory, after: Memory, root: nat)
    requires SameWalks(before, after, root)
    ensures SpaceOf(after, root) == SpaceOf(before, root)
  {
    hide Walk;
    forall page: nat | IsPage(page) ensures Shown(after, root, page) == Shown(before, root, page) {
      assert Walk(after, true, root, page, PML4, TABLE_PERMISSIONS) == Walk(before, true, root, page, PML4, TABLE_PERMISSIONS);
    }
    SameShownSameSpace(before, after, root);
  }

  /** Different pages have different pieces. */
  lemma PagesHaveOwnPieces(page: nat, other: nat)
    requires IsPage(page) && IsPage(other) && Piece(page, PT) == Piece(other, PT)
    ensures page == other
  {
    SamePieceSamePage(page, other, PT);
  }

  lemma PutInSpace(before: Memory, after: Memory, root: nat, page: nat, pa: Qword, permissions: Permissions, a: nat)
    requires IsPage(page) && pa < TWO_52 && MapsPage(before, after, root, PT, page, pa, permissions, a)
    ensures SpaceOf(after, root) == SpaceOf(before, root) + map[page := Page(pa, permissions, false)]
  {
    hide Walk, SpaceOf, Piece, MapsPage, IsCanonical;
    forall other: nat
      ensures other in SpaceOf(after, root) <==> other == page || other in SpaceOf(before, root)
      ensures other in SpaceOf(after, root) ==>
                SpaceOf(after, root)[other] == if other == page then Page(pa, permissions, false) else SpaceOf(before, root)[other]
    {
      SpaceIs(before, root, other);
      SpaceIs(after, root, other);
      if IsPage(other) {
        MappedAt(before, after, root, page, pa, permissions, a, other);
      }
    }
  }

  lemma MappedAt(before: Memory, after: Memory, root: nat, page: nat, pa: Qword, permissions: Permissions, a: nat, other: nat)
    requires IsPage(page) && IsPage(other) && pa < TWO_52 && MapsPage(before, after, root, PT, page, pa, permissions, a)
    ensures Shown(after, root, other) == if other == page then Some(Page(pa, permissions, false)) else Shown(before, root, other)
  {
    hide Walk, Piece;
    assert Walk(after, true, root, other, PML4, TABLE_PERMISSIONS)
        == if Piece(other, PT) == Piece(page, PT) then LeafWalk(PT, a, pa, permissions, true)
           else Walk(before, true, root, other, PML4, TABLE_PERMISSIONS);
    if Piece(other, PT) == Piece(page, PT) {
      PagesHaveOwnPieces(page, other);
    }
  }

  /** A successful map_page puts one page into the page map; a failed one changes nothing of it. */
  lemma MapPageIsPut(t: Tables, root: nat, tree: Tree, arenaEnd: nat, page: nat, pa: Qword, permissions: Permissions)
    requires WellFormed(t, root, tree) && IsPage(page) && pa < TWO_52
    ensures var (t', r) := Map(t, arenaEnd, root, PT, page, pa, permissions);
            SpaceOf(t'.mem, root)
            == if r.Ok? then SpaceOf(t.mem, root) + map[page := Page(pa, permissions, false)] else SpaceOf(t.mem, root)
  {
    hide WellFormed, Map, SpaceOf, MapsPage, SameWalks, IsCanonical;
    var tree', a := MapStep(t, root, tree, arenaEnd, PT, page, pa, permissions);
    var (t', r) := Map(t, arenaEnd, root, PT, page, pa, permissions);
    if r.Ok? {
      PutInSpace(t.mem, t'.mem, root, page, pa, permissions, a);
    } else {
      SameWalksSameSpace(t.mem, t'.mem, root);
    }
  }

  /** In a tree, an address is mapped or not present: no entry has reserved bits or leads off the bus. */
  lemma {:induction false} MappedOrAbsent(t: Tables, root: nat, tree: Tree, c: nat, va: Qword)
    requires WellFormed(t, root, tree) && c in tree && tree[c].piece == TablePiece(va, tree[c].level)
    ensures var walked := Walk(t.mem, true, c, va, tree[c].level, TABLE_PERMISSIONS);
            walked == Unmapped(NOT_PRESENT) || (walked.Mapped? && !walked.leaf.level.PML4?)
    decreases tree[c].level.Rank()
  {
    hide Decode, Piece, TableIndex, HasReservedBits, FrameOf, LoadEntry, WellFormed;
    var node := tree[c];
    EntryPiece(va, node.level);
    var j := TableIndex(va, node.level);
    EntryIsOk(t, root, tree, c, j);
    var f := Entry(t.mem, c, j);
    if f.present && !IsLeaf(f, node.level) {
      LinkIsFollowed(f, node.level, true);
      MappedOrAbsent(t, root, tree, f.address, va);
    }
  }

  function PageOf(va: Qword): Qword
  {
    va - va % PAGE_4K
  }

  lemma PageOfAddress(va: Qword)
    requires IsCanonical(va)
    ensures IsPage(PageOf(va))
  {
  }

  lemma AlignedIsOwnPage(page: nat)
    requires IsPage(page)
    ensures PageOf(page) == page
  {
  }

  /** The address lies in the same page as the other, of any size, at its offset plus this one. */
  ghost predicate Inside(va: Qword, page: nat, offset: nat)
  {
    && page <= va
    && forall level: Level :: !level.PML4? ==>
         PageBase(page, level) == PageBase(va, level) && va % level.Span() == page % level.Span() + offset
  }

  lemma OffsetInSpan(va: nat, k: nat)
    requires k > 0
    ensures var span, page := PAGE_4K * k, va - va % PAGE_4K;
            page - page % span == va - va % span && va % span == page % span + va % PAGE_4K
  {
    var span, q := PAGE_4K * k, va / PAGE_4K;
    DivModMod(va, PAGE_4K, k);
    DivUnique(PAGE_4K * q, PAGE_4K, q, 0);
    DivModMod(PAGE_4K * q, PAGE_4K, k);
    ModMod(va, PAGE_4K, k);
    ModMod(PAGE_4K * q, PAGE_4K, k);
    var r, r' := va % span, PAGE_4K * q % span;
    assert r / PAGE_4K == q % k && r' / PAGE_4K == q % k;
    assert r == PAGE_4K * (r / PAGE_4K) + r % PAGE_4K;
  }

  lemma OffsetInPage(va: Qword)
    ensures Inside(va, PageOf(va), va % PAGE_4K)
  {
    OffsetInSpan(va, 1);
    OffsetInSpan(va, 512);
    OffsetInSpan(va, 0x4_0000);
    var page := va - va % PAGE_4K;
    forall level: Level | !level.PML4?
      ensures PageBase(page, level) == PageBase(va, level) && va % level.Span() == page % level.Span() + va % PAGE_4K
    {
      match level
      case PT =>
      case PD =>
      case PDPT =>
    }
  }

  /** What a walk finds for an address is what it shows of its page. */
  lemma WalkShows(t: Tables, root: nat, tree: Tree, va: Qword)
    requires WellFormed(t, root, tree) && IsCanonical(va)
    ensures IsPage(PageOf(va)) && ShowsWalk(t.mem, root, va, PageOf(va), va % PAGE_4K)
  {
    hide WellFormed, ShowsWalk, Inside, IsPage, IsCanonical, PageOf;
    PageOfAddress(va);
    OffsetInPage(va);
    WalkShowsAt(t, root, tree, va, PageOf(va), va % PAGE_4K);
  }

  ghost predicate ShowsWalk(mem: Memory, root: nat, va: Qword, page: nat, offset: nat)
  {
    var walked := Walk(mem, true, root, va, PML4, TABLE_PERMISSIONS);
    && (page !in SpaceOf(mem, root) ==> walked == Unmapped(NOT_PRESENT))
    && (page in SpaceOf(mem, root) ==>
          && walked.Mapped? && !walked.leaf.level.PML4?
          && SpaceOf(mem, root)[page]
             == Page(walked.leaf.frame + page % walked.leaf.level.Span(), walked.leaf.permissions, walked.leaf.level != PT)
          && va % walked.leaf.level.Span() == page % walked.leaf.level.Span() + offset)
  }

  lemma WalkShowsAt(t: Tables, root: nat, tree: Tree, va: Qword, page: nat, offset: nat)
    requires WellFormed(t, root, tree) && IsPage(page) && Inside(va, page, offset)
    ensures ShowsWalk(t.mem, root, va, page, offset)
  {
    hide WellFormed, Walk, SpaceOf, TablePiece, PageBase, Level.Span, IsCanonical;
    SpaceIs(t.mem, root, page);
    RootInTree(t, root, tree);
    RootIsOnEveryPath(t, root, tree, va);
    RootIsOnEveryPath(t, root, tree, page);
    MappedOrAbsent(t, root, tree, root, va);
    MappedOrAbsent(t, root, tree, root, page);
    var walked := Walk(t.mem, true, root, va, PML4, TABLE_PERMISSIONS);
    var paged := Walk(t.mem, true, root, page, PML4, TABLE_PERMISSIONS);
    if walked.Mapped? {
      WalkSamePage(t.mem, true, root, va, page, PML4, TABLE_PERMISSIONS);
    }
    if paged.Mapped? {
      WalkSamePage(t.mem, true, root, page, va, PML4, TABLE_PERMISSIONS);
    }
  }

  lemma AccessJudged(t: Tables, root: nat, tree: Tree, ps: PagingState, va: Qword, kind: AccessKind, privilege: Privilege)
    requires WellFormed(t, root, tree) && ps.cr3 == root && ps.executeDisable && IsCanonical(va)
    ensures var outcome := Translate(t.mem, ps, va, kind, privilege).1;
            var space, page := SpaceOf(t.mem, root), PageOf(va);
            && (page !in space ==> outcome == Fault(va, kind, privilege, NOT_PRESENT))
            && (page in space ==>
                  match Denial(ps, space[page].permissions, kind, privilege)
                  case Some(reason) => outcome == Fault(va, kind, privilege, reason)
                  case None =>
                    && outcome.Translated? && outcome.translation.permissions == space[page].permissions
                    && outcome.translation.Covers(va)
                    && outcome.translation.PhysicalAddress(va) == space[page].frame + va % PAGE_4K
                    && (outcome.translation.size == PAGE_4K <==> !space[page].large)
                    && (!space[page].large ==> outcome.translation.frameBase == space[page].frame))
  {
    hide WellFormed, Walk, SpaceOf, Translate, Denial, ErrorCode, LeafDirty, OnlyMarks, IsCanonical, PageOf;
    RootAligned(t, root, tree);
    TranslateFollowsWalk(t.mem, ps, va, kind, privilege);
    WalkShows(t, root, tree, va);
  }

  /**
   An access is allowed or refused by the rules of protection for what walks show of its page, and reaches the byte at
   its offset in the frame; a page that is not shown is not present.
   */
  lemma AccessShows(t: Tables, root: nat, tree: Tree, ps: PagingState, va: Qword, kind: AccessKind, privilege: Privilege)
    requires WellFormed(t, root, tree) && ps.cr3 == root && ps.executeDisable && IsCanonical(va)
    ensures var outcome := Translate(t.mem, ps, va, kind, privilege).1;
            var space, page := SpaceOf(t.mem, root), PageOf(va);
            && (page !in space ==> Faults(outcome, va, kind, privilege, NOT_PRESENT))
            && (page in space ==>
                  && (forall reason :: BreaksFirst(ps, space[page].permissions, kind, privilege, reason) ==>
                        Faults(outcome, va, kind, privilege, reason))
                  && (outcome.Translated? <==> Allowed(ps, space[page].permissions, kind, privilege))
                  && (outcome.Translated? ==>
                        && outcome.translation.Covers(va)
                        && outcome.translation.PhysicalAddress(va) == space[page].frame + va % PAGE_4K
                        && outcome.translation.permissions == space[page].permissions))
  {
    hide WellFormed, SpaceOf, Translate, Denial, Fault, Faults, IsCanonical, PageOf, BreaksFirst, Allowed;
    AccessJudged(t, root, tree, ps, va, kind, privilege);
    forall reason: FaultReason
      ensures Fault(va, kind, privilege, reason).PageFault? && Faults(Fault(va, kind, privilege, reason), va, kind, privilege, reason)
    {
      FaultFaults(va, kind, privilege, reason);
    }
    if PageOf(va) in SpaceOf(t.mem, root) {
      DenialIsTheRules(ps, SpaceOf(t.mem, root)[PageOf(va)].permissions, kind, privilege);
    }
  }

  /** set_page_permissions succeeds exactly on a mapped 4 KiB page, and changes its permissions in the page map and nothing else. */
  lemma SetPermissionsIsPut(t: Tables, root: Qword, tree: Tree, page: nat, permissions: Permissions)
    requires WellFormed(t, root, tree) && IsPage(page)
    ensures var (mem', r) := SetPermissions(t.mem, root, page, permissions);
            var space := SpaceOf(t.mem, root);
            && (r.Ok? <==> page in space && !space[page].large)
            && SpaceOf(mem', root) == if r.Ok? then space + map[page := space[page].(permissions := permissions)] else space
  {
    hide WellFormed, SetPermissions, SpaceOf, MapsPage, SameWalks, Walk;
    PermissionStep(t, root, tree, page, permissions);
    AlignedIsOwnPage(page);
    WalkShows(t, root, tree, page);
    PermissionsOkIff(t, root, tree, page, permissions);
    var (mem', r) := SetPermissions(t.mem, root, page, permissions);
    var walked := Walk(t.mem, true, root, page, PML4, TABLE_PERMISSIONS);
    if r.Ok? {
      PutInSpace(t.mem, mem', root, page, walked.leaf.frame, permissions, walked.leaf.entryAddress);
    } else {
      SameWalksSameSpace(t.mem, mem', root);
    }
  }

  lemma PermissionsOkIff(t: Tables, root: Qword, tree: Tree, page: nat, permissions: Permissions)
    requires WellFormed(t, root, tree) && IsPage(page)
    ensures SetPermissions(t.mem, root, page, permissions).1.Ok? <==>
            var walked := Walk(t.mem, true, root, page, PML4, TABLE_PERMISSIONS); walked.Mapped? && walked.leaf.level == PT
  {
    hide WellFormed, Walk, Translate, LeafDirty, OnlyMarks, LoadEntry, StoreEntry, WithPermissions, IsCanonical, Decode, TableIndex, TablePiece;
    var ps := FreshState(root);
    RootAligned(t, root, tree);
    TranslateFollowsWalk(t.mem, ps, page, READ, RING0);
    var walked := Walk(t.mem, true, root, page, PML4, TABLE_PERMISSIONS);
    if walked.Mapped? {
      RootInTree(t, root, tree);
      RootIsOnEveryPath(t, root, tree, page);
      var table := LeafIsInTree(t, root, tree, root, page, true);
    }
  }
}
