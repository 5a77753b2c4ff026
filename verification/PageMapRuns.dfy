/** Whole runs over page tables: mapping calls, permission changes and accesses in any order. */
module PageMapRuns {
  import opened MemoryBus
  import opened Results
  import opened Paging
  import opened PageTableWalker
  import opened PageTableBuilder
  import opened PageMap
  import opened AddressSpace

  /** A page of the address space and the frame it was mapped to. */
  datatype Mapping = Mapping(level: Level, va: Qword, frame: Qword, permissions: Permissions)

  predicate Covers(m: Mapping, va: Qword)
  {
    Piece(va, m.level) == Piece(m.va, m.level)
  }

  /** The specification of the tables: the last mapping in the list that covers the address. */
  function Latest(h: seq<Mapping>, va: Qword): Option<Mapping>
  {
    if h == [] then None
    else if Covers(h[|h| - 1], va) then Some(h[|h| - 1])
    else Latest(h[..|h| - 1], va)
  }

  /** A walk shows a mapping: its size, frame and permissions, or the reserved-bit fault of an NX page without NX. */
  ghost predicate Shows(walked: Walked, m: Option<Mapping>, xd: bool)
  {
    match m
    case None => walked == Unmapped(NOT_PRESENT)
    case Some(m) =>
      if !xd && !m.permissions.executable then walked == Unmapped(RESERVED_BIT)
      else walked.Mapped? && walked.leaf.level == m.level && walked.leaf.frame == m.frame % TWO_52
           && walked.leaf.permissions == m.permissions
  }

  ghost predicate Agrees(mem: Memory, root: nat, h: seq<Mapping>)
  {
    forall va: Qword, xd :: Shows(Walk(mem, xd, root, va, PML4, TABLE_PERMISSIONS), Latest(h, va), xd)
  }

  datatype PageOp =
    | MapOp(leaf: Level, va: Qword, pa: Qword, permissions: Permissions)
    | PermissionOp(va: Qword, permissions: Permissions)
    | AccessOp(ps: PagingState, va: Qword, kind: AccessKind, privilege: Privilege)

  predicate Legal(op: PageOp)
  {
    match op
    case MapOp(leaf, _, _, _) => !leaf.PML4?
    case PermissionOp(_, _) => true
    case AccessOp(ps, _, _, _) => ps.cr3 % PAGE_4K == 0
  }

  function Step(t: Tables, root: Qword, arenaEnd: nat, op: PageOp): Tables
    requires Legal(op)
  {
    match op
    case MapOp(leaf, va, pa, permissions) => Map(t, arenaEnd, root, leaf, va, pa, permissions).0
    case PermissionOp(va, permissions) => t.(mem := SetPermissions(t.mem, root, va, permissions).0)
    case AccessOp(ps, va, kind, privilege) => t.(mem := Translate(t.mem, ps, va, kind, privilege).0)
  }

  /** A successful call adds one mapping; a failed call and an access add none. */
  function Extend(t: Tables, root: Qword, arenaEnd: nat, h: seq<Mapping>, op: PageOp): seq<Mapping>
    requires Legal(op)
  {
    match op
    case MapOp(leaf, va, pa, permissions) =>
      if Map(t, arenaEnd, root, leaf, va, pa, permissions).1.Ok? then h + [Mapping(leaf, va, pa, permissions)] else h
    case PermissionOp(va, permissions) =>
      var old_ := Latest(h, va);
      if SetPermissions(t.mem, root, va, permissions).1.Ok? && old_.Some?
      then h + [Mapping(PT, va, old_.value.frame, permissions)] else h
    case AccessOp(_, _, _, _) => h
  }

  function Run(t: Tables, root: Qword, arenaEnd: nat, h: seq<Mapping>, ops: seq<PageOp>): (Tables, seq<Mapping>)
    requires forall i :: 0 <= i < |ops| ==> Legal(ops[i])
    decreases |ops|
  {
    if ops == [] then (t, h)
    else Run(Step(t, root, arenaEnd, ops[0]), root, arenaEnd, Extend(t, root, arenaEnd, h, ops[0]), ops[1..])
  }

  lemma LatestAfter(h: seq<Mapping>, m: Mapping, va: Qword)
    ensures Latest(h + [m], va) == if Covers(m, va) then Some(m) else Latest(h, va)
  {
    assert (h + [m])[..|h|] == h;
  }

  lemma MapsPageAgrees(before: Memory, after: Memory, root: nat, h: seq<Mapping>, m: Mapping, a: nat)
    requires Agrees(before, root, h) && MapsPage(before, after, root, m.level, m.va, m.frame, m.permissions, a)
    ensures Agrees(after, root, h + [m])
  {
    hide Walk, Piece, Latest;
    forall va: Qword, xd
      ensures Shows(Walk(after, xd, root, va, PML4, TABLE_PERMISSIONS), Latest(h + [m], va), xd)
    {
      LatestAfter(h, m, va);
      assert Shows(Walk(before, xd, root, va, PML4, TABLE_PERMISSIONS), Latest(h, va), xd);
    }
  }

  lemma SameWalksAgree(before: Memory, after: Memory, root: nat, h: seq<Mapping>)
    requires Agrees(before, root, h) && SameWalks(before, after, root)
    ensures Agrees(after, root, h)
  {
    hide Walk, Latest;
    forall va: Qword, xd
      ensures Shows(Walk(after, xd, root, va, PML4, TABLE_PERMISSIONS), Latest(h, va), xd)
    {
      assert Shows(Walk(before, xd, root, va, PML4, TABLE_PERMISSIONS), Latest(h, va), xd);
    }
  }

  lemma StepAgrees(t: Tables, root: Qword, tree: Tree, arenaEnd: nat, h: seq<Mapping>, op: PageOp) returns (tree': Tree)
    requires WellFormed(t, root, tree) && Agrees(t.mem, root, h) && Legal(op)
    ensures WellFormed(Step(t, root, arenaEnd, op), root, tree')
    ensures Agrees(Step(t, root, arenaEnd, op).mem, root, Extend(t, root, arenaEnd, h, op))
  {
    tree' := tree;
    match op
    case MapOp(leaf, va, pa, permissions) =>
      hide WellFormed, Agrees, Map, SameWalks, MapsPage;
      var a;
      tree', a := MapStep(t, root, tree, arenaEnd, leaf, va, pa, permissions);
      var (t', r) := Map(t, arenaEnd, root, leaf, va, pa, permissions);
      if r.Ok? {
        MapsPageAgrees(t.mem, t'.mem, root, h, Mapping(leaf, va, pa, permissions), a);
      } else {
        SameWalksAgree(t.mem, t'.mem, root, h);
      }
    case PermissionOp(va, permissions) =>
      PermissionAgrees(t, root, tree, arenaEnd, h, op);
    case AccessOp(ps, va, kind, privilege) =>
      AccessAgrees(t, root, tree, arenaEnd, h, op);
  }

  lemma PermissionAgrees(t: Tables, root: Qword, tree: Tree, arenaEnd: nat, h: seq<Mapping>, op: PageOp)
    requires WellFormed(t, root, tree) && Agrees(t.mem, root, h) && op.PermissionOp?
    ensures WellFormed(Step(t, root, arenaEnd, op), root, tree)
    ensures Agrees(Step(t, root, arenaEnd, op).mem, root, Extend(t, root, arenaEnd, h, op))
  {
    hide WellFormed, Agrees, SetPermissions, Walk, Latest, IsCanonical, SameWalks, MapsPage;
    var va, permissions := op.va, op.permissions;
    if !IsCanonical(va) {
      NonCanonicalFails(t.mem, root, va, permissions);
    } else {
      PermissionStep(t, root, tree, va, permissions);
      var walked := Walk(t.mem, true, root, va, PML4, TABLE_PERMISSIONS);
      AgreesAt(t.mem, root, h, va, true);
      var (mem', r) := SetPermissions(t.mem, root, va, permissions);
      if r.Ok? {
        var m := Mapping(PT, va, Latest(h, va).value.frame, permissions);
        SameFrame(t.mem, mem', root, va, walked.leaf.frame, m.frame, permissions, walked.leaf.entryAddress);
        MapsPageAgrees(t.mem, mem', root, h, m, walked.leaf.entryAddress);
      } else {
        SameWalksAgree(t.mem, mem', root, h);
      }
    }
  }

  lemma NonCanonicalFails(mem: Memory, root: Qword, va: Qword, permissions: Permissions)
    requires !IsCanonical(va)
    ensures SetPermissions(mem, root, va, permissions).0 == mem && SetPermissions(mem, root, va, permissions).1.Err?
  {
  }

  lemma AgreesAt(mem: Memory, root: nat, h: seq<Mapping>, va: Qword, xd: bool)
    requires Agrees(mem, root, h)
    ensures Shows(Walk(mem, xd, root, va, PML4, TABLE_PERMISSIONS), Latest(h, va), xd)
  {
  }

  lemma SameFrame(before: Memory, after: Memory, root: nat, va: Qword, frame: Qword, frame': Qword, permissions: Permissions, a: nat)
    requires MapsPage(before, after, root, PT, va, frame, permissions, a) && frame % TWO_52 == frame' % TWO_52
    ensures MapsPage(before, after, root, PT, va, frame', permissions, a)
  {
    hide Walk, Piece;
    assert forall xd :: LeafWalk(PT, a, frame, permissions, xd) == LeafWalk(PT, a, frame', permissions, xd);
  }

  lemma AccessAgrees(t: Tables, root: Qword, tree: Tree, arenaEnd: nat, h: seq<Mapping>, op: PageOp)
    requires WellFormed(t, root, tree) && Agrees(t.mem, root, h) && op.AccessOp? && Legal(op)
    ensures WellFormed(Step(t, root, arenaEnd, op), root, tree)
    ensures Agrees(Step(t, root, arenaEnd, op).mem, root, Extend(t, root, arenaEnd, h, op))
  {
    hide WellFormed, Agrees, TranslateFrom, SameWalks, OnlyMarks, Predicted, LeafDirty, WalkRoot;
    if IsCanonical(op.va) {
      TranslateFollowsWalk(t.mem, op.ps, op.va, op.kind, op.privilege);
      var mem' := Translate(t.mem, op.ps, op.va, op.kind, op.privilege).0;
      MarksKeepTree(t, mem', root, tree);
      MarksKeepSameWalks(t, mem', root, tree);
      SameWalksAgree(t.mem, mem', root, h);
    }
  }

  lemma {:induction false} RunAgrees(t: Tables, root: Qword, tree: Tree, arenaEnd: nat, h: seq<Mapping>, ops: seq<PageOp>)
    requires WellFormed(t, root, tree) && Agrees(t.mem, root, h)
    requires forall i :: 0 <= i < |ops| ==> Legal(ops[i])
    ensures var (t', h') := Run(t, root, arenaEnd, h, ops); Agrees(t'.mem, root, h')
    decreases |ops|
  {
    hide WellFormed, Agrees, Step, Extend, Legal;
    if ops != [] {
      var tree' := StepAgrees(t, root, tree, arenaEnd, h, ops[0]);
      RunAgrees(Step(t, root, arenaEnd, ops[0]), root, tree', arenaEnd, Extend(t, root, arenaEnd, h, ops[0]), ops[1..]);
    }
  }

  lemma ClearedRoot(mem: Memory, root: Qword, next: nat) returns (tree: Tree)
    requires root % PAGE_4K == 0 && next % PAGE_4K == 0 && root + PAGE_4K <= next
    requires ContainsRange(mem, root, PAGE_4K) && |mem| <= TWO_52
    ensures WellFormed(Tables(ClearTable(mem, root), next), root, tree)
    ensures Agrees(ClearTable(mem, root), root, [])
  {
    hide Decode, LoadEntry, ClearTable, TableIndex;
    var cleared := ClearTable(mem, root);
    tree := map[root := Node(PML4, 0, root)];
    forall c, i | c in tree && 0 <= i < 512 ensures EntryOk(cleared, tree, c, i) {
      ClearedPage(mem, root, c, i);
    }
    forall c | c in tree ensures LinkOk(cleared, root, tree, c) {
    }
    forall va: Qword, xd ensures Walk(cleared, xd, root, va, PML4, TABLE_PERMISSIONS) == Unmapped(NOT_PRESENT) {
      ClearedPage(mem, root, root, TableIndex(va, PML4));
      assert !Entry(cleared, root, TableIndex(va, PML4)).present;
    }
  }

  /** The outcome of an access, read off a list of mappings by the rules of protection. */
  ghost predicate AsListed(outcome: Outcome, m: Option<Mapping>, ps: PagingState, va: Qword, kind: AccessKind, privilege: Privilege)
  {
    match m
    case None => Faults(outcome, va, kind, privilege, NOT_PRESENT)
    case Some(m) =>
      if !ps.executeDisable && !m.permissions.executable then Faults(outcome, va, kind, privilege, RESERVED_BIT)
      else
        && (forall reason :: BreaksFirst(ps, m.permissions, kind, privilege, reason) ==> Faults(outcome, va, kind, privilege, reason))
        && (outcome.Translated? <==> Allowed(ps, m.permissions, kind, privilege))
        && (outcome.Translated? ==>
              && outcome.translation.virtualBase == va - va % m.level.Span()
              && outcome.translation.frameBase == m.frame % TWO_52
              && outcome.translation.size == m.level.Span()
              && outcome.translation.permissions == m.permissions)
  }

  lemma ListedByTheRules(outcome: Outcome, m: Option<Mapping>, walked: Walked, ps: PagingState, va: Qword, kind: AccessKind, privilege: Privilege,
                         dirty: bool)
    requires Shows(walked, m, ps.executeDisable) && outcome == Predicted(walked, ps, va, kind, privilege, dirty)
    ensures AsListed(outcome, m, ps, va, kind, privilege)
  {
    hide Denial, Faults, ErrorCode, Fault, Level.Span;
    if m.Some? {
      DenialIsTheRules(ps, m.value.permissions, kind, privilege);
    }
    forall reason: FaultReason
      ensures Fault(va, kind, privilege, reason).PageFault? && Faults(Fault(va, kind, privilege, reason), va, kind, privilege, reason)
    {
      FaultFaults(va, kind, privilege, reason);
    }
  }

  /**
   The tables are a page map. Start from a cleared root and take any run of map_4k, map_2m,
   map_1g, set_page_permissions and accesses, successful or not, in any order. Then every access
   to a canonical address is allowed or refused by the rules of protection for the latest mapping
   that covers it, with its frame, size and permissions or the fault of the first rule it breaks,
   and with a not-present fault if no mapping covers it. Other addresses throw.
   */
  lemma TablesAreAPageMap(mem: Memory, root: Qword, next: nat, arenaEnd: nat, ops: seq<PageOp>,
                          ps: PagingState, va: Qword, kind: AccessKind, privilege: Privilege)
    requires root % PAGE_4K == 0 && next % PAGE_4K == 0 && root + PAGE_4K <= next
    requires ContainsRange(mem, root, PAGE_4K) && |mem| <= TWO_52
    requires forall i :: 0 <= i < |ops| ==> Legal(ops[i])
    requires ps.cr3 == root
    ensures var (t, h) := Run(Tables(ClearTable(mem, root), next), root, arenaEnd, [], ops);
            var outcome := Translate(t.mem, ps, va, kind, privilege).1;
            if 0x8000_0000_0000 <= va < TWO_64 - 0x8000_0000_0000 then outcome == Thrown(OutOfRange)
            else AsListed(outcome, Latest(h, va), ps, va, kind, privilege)
  {
    hide WellFormed, Agrees, Run, Legal, ClearTable, Walk, Latest, TranslateFrom, OnlyMarks, LeafDirty, Predicted, AsListed, Shows;
    if IsCanonical(va) {
      var start := Tables(ClearTable(mem, root), next);
      var tree := ClearedRoot(mem, root, next);
      RunAgrees(start, root, tree, arenaEnd, [], ops);
      var (t, h) := Run(start, root, arenaEnd, [], ops);
      TranslateFollowsWalk(t.mem, ps, va, kind, privilege);
      AgreesAt(t.mem, root, h, va, ps.executeDisable);
      var (mem', outcome) := Translate(t.mem, ps, va, kind, privilege);
      ListedByTheRules(outcome, Latest(h, va), WalkRoot(t.mem, ps, va), ps, va, kind, privilege, LeafDirty(WalkRoot(t.mem, ps, va), mem'));
    }
  }
}
