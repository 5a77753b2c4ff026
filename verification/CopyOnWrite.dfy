/**
 Copy-on-write sharing of pages between processes. A process's page tables appear here as the
 page map that their walks compute; memory is the flat physical memory.
 */
module CopyOnWrite {
  import opened LittleEndian
  import opened MemoryBus
  import opened Results
  import opened Paging

  /** 4 KiB of an address space as a walk shows them: a page, or a piece of a large page, which is never shared. */
  datatype Page = Page(frame: nat, permissions: Permissions, large: bool)

  type Space = map<nat, Page>

  datatype CowMapping = CowMapping(pid: nat, page: nat, frame: nat, restored: Permissions)

  datatype FrameRef = FrameRef(frame: nat, count: nat)

  /** The manager's two lists. */
  datatype Cow = Cow(mappings: seq<CowMapping>, refs: seq<FrameRef>)

  datatype Machine = Machine(spaces: map<nat, Space>, mem: Memory, cow: Cow)

  function ReadOnly(p: Permissions): Permissions
  {
    p.(writable := false)
  }

  // ---------- The lists ----------

  /** Position of the mapping of a page, or the length of the list. */
  function Find(mappings: seq<CowMapping>, pid: nat, page: nat): (i: nat)
    ensures i <= |mappings|
    ensures i < |mappings| ==> mappings[i].pid == pid && mappings[i].page == page
    ensures forall j :: 0 <= j < i ==> !(mappings[j].pid == pid && mappings[j].page == page)
  {
    if mappings == [] || (mappings[0].pid == pid && mappings[0].page == page) then 0
    else 1 + Find(mappings[1..], pid, page)
  }

  predicate Tracked(mappings: seq<CowMapping>, pid: nat, page: nat)
  {
    Find(mappings, pid, page) < |mappings|
  }

  function FindRef(refs: seq<FrameRef>, frame: nat): (i: nat)
    ensures i <= |refs|
    ensures i < |refs| ==> refs[i].frame == frame
    ensures forall j :: 0 <= j < i ==> refs[j].frame != frame
  {
    if refs == [] || refs[0].frame == frame then 0 else 1 + FindRef(refs[1..], frame)
  }

  function RefCount(refs: seq<FrameRef>, frame: nat): nat
  {
    var i := FindRef(refs, frame);
    if i < |refs| then refs[i].count else 0
  }

  function AddRef(refs: seq<FrameRef>, frame: nat): seq<FrameRef>
  {
    var i := FindRef(refs, frame);
    if i == |refs| then refs + [FrameRef(frame, 1)] else refs[i := FrameRef(frame, refs[i].count + 1)]
  }

  function ReleaseRef(refs: seq<FrameRef>, frame: nat): seq<FrameRef>
  {
    var i := FindRef(refs, frame);
    if i == |refs| then refs
    else if refs[i].count <= 1 then refs[..i] + refs[i + 1..]
    else refs[i := FrameRef(frame, refs[i].count - 1)]
  }

  function Remove(mappings: seq<CowMapping>, pid: nat, page: nat): seq<CowMapping>
  {
    var i := Find(mappings, pid, page);
    if i == |mappings| then mappings else mappings[..i] + mappings[i + 1..]
  }

  function Track(cow: Cow, m: CowMapping): Cow
  {
    Cow(cow.mappings + [m], AddRef(cow.refs, m.frame))
  }

  function Untrack(cow: Cow, m: CowMapping): Cow
  {
    Cow(Remove(cow.mappings, m.pid, m.page), ReleaseRef(cow.refs, m.frame))
  }

  // ---------- Sharing ----------

  predicate Mapped(m: Machine, pid: nat, page: nat)
  {
    pid in m.spaces && page in m.spaces[pid]
  }

  function PutPage(m: Machine, pid: nat, page: nat, p: Page): Machine
    requires pid in m.spaces
  {
    var space: Space := m.spaces[pid];
    var space': Space := space + map[page := p];
    m.(spaces := m.spaces[pid := space'])
  }

  /** The permissions a page has apart from copy-on-write. */
  function Restored(m: Machine, pid: nat, page: nat): Permissions
    requires Mapped(m, pid, page)
  {
    var i := Find(m.cow.mappings, pid, page);
    if i < |m.cow.mappings| then m.cow.mappings[i].restored else m.spaces[pid][page].permissions
  }

  /** One page of share_pages; fits says whether the tables of the child have room for it. */
  function ShareOne(m: Machine, parent: nat, child: nat, page: nat, fits: bool): (r: (Machine, Result<bool>))
    requires parent in m.spaces && child in m.spaces && parent != child
    ensures r.0.spaces.Keys == m.spaces.Keys
  {
    if page % PAGE_4K != 0 then (m, Err(InvalidArgument))
    else if page !in m.spaces[parent] then (m, Err(RuntimeError))
    else if m.spaces[parent][page].large then (m, Err(LogicError))
    else
      var frame := m.spaces[parent][page].frame;
      var tracked := Tracked(m.cow.mappings, parent, page);
      var restored := Restored(m, parent, page);
      if restored.writable && Tracked(m.cow.mappings, child, page) then (m, Err(LogicError))
      else if page in m.spaces[child] && m.spaces[child][page].large then (m, Err(LogicError))
      else if !fits then (m, Err(OutOfRange))
      else
        var m1 := PutPage(m, child, page, Page(frame, ReadOnly(restored), false));
        if !restored.writable then (m1, Ok(false))
        else
          var m2 :=
            if tracked then m1
            else PutPage(m1, parent, page, Page(frame, ReadOnly(restored), false))
                 .(cow := Track(m1.cow, CowMapping(parent, page, frame, restored)));
          (m2.(cow := Track(m2.cow, CowMapping(child, page, frame, restored))), Ok(true))
  }

  // ---------- Faults ----------

  datatype FaultResult = COPIED | RESTORED | NOT_COW | OUT_OF_MEMORY | INVALID_FAULT

  predicate FrameInRange(mem: Memory, frame: nat)
  {
    frame % PAGE_4K == 0 && ContainsRange(mem, frame, PAGE_4K)
  }

  function Contents(mem: Memory, frame: nat): seq<Byte>
    requires ContainsRange(mem, frame, PAGE_4K)
  {
    mem[frame..frame + PAGE_4K]
  }

  function CopyPage(mem: Memory, source: nat, target: nat): (mem': Memory)
    requires ContainsRange(mem, source, PAGE_4K) && ContainsRange(mem, target, PAGE_4K)
    ensures |mem'| == |mem|
  {
    mem[..target] + Contents(mem, source) + mem[target + PAGE_4K..]
  }

  ghost predicate FramesInRange(m: Machine)
  {
    && (forall pid, page :: Mapped(m, pid, page) ==> FrameInRange(m.mem, m.spaces[pid][page].frame))
    && (forall i :: 0 <= i < |m.cow.mappings| ==> FrameInRange(m.mem, m.cow.mappings[i].frame))
  }

  /** resolve_write_fault; granted is the frame the page allocator hands out, if it has one. */
  function Resolve(m: Machine, pid: nat, va: nat, writeProtection: bool, granted: Option<nat>): (Machine, Result<FaultResult>)
    requires pid in m.spaces && FramesInRange(m)
    requires granted.Some? ==> FrameInRange(m.mem, granted.value)
  {
    if !writeProtection then (m, Ok(INVALID_FAULT))
    else
      var page := va - va % PAGE_4K;
      var i := Find(m.cow.mappings, pid, page);
      if i == |m.cow.mappings| then (m, Ok(NOT_COW))
      else
        var c := m.cow.mappings[i];
        assert FrameInRange(m.mem, m.cow.mappings[i].frame);
        if RefCount(m.cow.refs, c.frame) <= 1 then
          if page !in m.spaces[pid] then (m, Err(RuntimeError))
          else if m.spaces[pid][page].large then (m, Err(LogicError))
          else (PutPage(m, pid, page, m.spaces[pid][page].(permissions := c.restored)).(cow := Untrack(m.cow, c)), Ok(RESTORED))
        else match granted
          case None => (m, Ok(OUT_OF_MEMORY))
          case Some(g) =>
            (PutPage(m, pid, page, Page(g, c.restored, false)).(mem := CopyPage(m.mem, c.frame, g), cow := Untrack(m.cow, c)),
             Ok(COPIED))
  }

  // ---------- User accesses ----------

  const USER_MODE := PagingState(0, 0, 0, true, true, true, true)

  /** A one-byte user store through the page map, or the fault it raises. */
  function UserWrite(m: Machine, pid: nat, va: nat, b: Byte): (Machine, Option<FaultReason>)
    requires FramesInRange(m)
  {
    var page := va - va % PAGE_4K;
    if !Mapped(m, pid, page) then (m, Some(NOT_PRESENT))
    else
      var p := m.spaces[pid][page];
      match Denial(USER_MODE, p.permissions, WRITE, RING3)
      case Some(reason) => (m, Some(reason))
      case None =>
        assert FrameInRange(m.mem, m.spaces[pid][page].frame);
        (m.(mem := m.mem[p.frame + va % PAGE_4K := b]), None)
  }
}

/** Copy-on-write is indistinguishable from copying every page at the fork. */
module CowTheorems {
  import opened LittleEndian
  import opened MemoryBus
  import opened Results
  import opened Paging
  import opened CopyOnWrite

  // ---------- Counting references ----------

  function CountFrame(mappings: seq<CowMapping>, frame: nat): nat
  {
    if mappings == [] then 0
    else (if mappings[0].frame == frame then 1 else 0) + CountFrame(mappings[1..], frame)
  }

  lemma {:induction false} CountAppend(a: seq<CowMapping>, b: seq<CowMapping>, frame: nat)
    ensures CountFrame(a + b, frame) == CountFrame(a, frame) + CountFrame(b, frame)
    decreases |a|
  {
    if a == [] {
      assert a + b == b;
    } else {
      CountAppend(a[1..], b, frame);
      assert (a + b)[1..] == a[1..] + b;
    }
  }

  lemma CountWithout(mappings: seq<CowMapping>, i: nat, frame: nat)
    requires i < |mappings|
    ensures CountFrame(mappings[..i] + mappings[i + 1..], frame)
            == CountFrame(mappings, frame) - (if mappings[i].frame == frame then 1 else 0)
  {
    CountAppend(mappings[..i], mappings[i + 1..], frame);
    CountAppend(mappings[..i], [mappings[i]] + mappings[i + 1..], frame);
    assert mappings == mappings[..i] + ([mappings[i]] + mappings[i + 1..]);
    assert ([mappings[i]] + mappings[i + 1..])[1..] == mappings[i + 1..];
  }

  lemma {:induction false} CountOne(mappings: seq<CowMapping>, i: nat)
    requires i < |mappings|
    ensures CountFrame(mappings, mappings[i].frame) >= 1
    ensures CountFrame(mappings, mappings[i].frame) == 1 ==>
              forall j :: 0 <= j < |mappings| && j != i ==> mappings[j].frame != mappings[i].frame
  {
    CountWithout(mappings, i, mappings[i].frame);
    var rest := mappings[..i] + mappings[i + 1..];
    if CountFrame(mappings, mappings[i].frame) == 1 {
      forall j | 0 <= j < |mappings| && j != i ensures mappings[j].frame != mappings[i].frame {
        CountZero(rest, mappings[i].frame, if j < i then j else j - 1);
      }
    }
  }

  lemma {:induction false} CountZero(mappings: seq<CowMapping>, frame: nat, j: nat)
    requires CountFrame(mappings, frame) == 0 && j < |mappings|
    ensures mappings[j].frame != frame
  {
    if j > 0 {
      CountZero(mappings[1..], frame, j - 1);
    }
  }

  /** Reference counts equal the number of tracked mappings of each frame, with one positive record per frame. */
  ghost predicate CountsAgree(cow: Cow)
  {
    && (forall i :: 0 <= i < |cow.refs| ==> cow.refs[i].count > 0)
    && (forall i, j :: 0 <= i < j < |cow.refs| ==> cow.refs[i].frame != cow.refs[j].frame)
    && (forall f: nat :: RefCount(cow.refs, f) == CountFrame(cow.mappings, f))
  }

  lemma FindRefAt(refs: seq<FrameRef>, i: nat)
    requires i < |refs| && forall j, k :: 0 <= j < k < |refs| ==> refs[j].frame != refs[k].frame
    ensures FindRef(refs, refs[i].frame) == i
  {
  }

  lemma RefAbsent(refs: seq<FrameRef>, frame: nat)
    requires forall j :: 0 <= j < |refs| ==> refs[j].frame != frame
    ensures RefCount(refs, frame) == 0
  {
  }

  lemma TrackAgrees(cow: Cow, m: CowMapping)
    requires CountsAgree(cow)
    ensures CountsAgree(Track(cow, m))
  {
    var cow' := Track(cow, m);
    var i := FindRef(cow.refs, m.frame);
    forall f: nat ensures RefCount(cow'.refs, f) == CountFrame(cow'.mappings, f) {
      CountAppend(cow.mappings, [m], f);
      assert [m][1..] == [];
      assert RefCount(cow.refs, f) == CountFrame(cow.mappings, f);
      AddRefCount(cow.refs, m.frame, f);
    }
  }

  lemma AddRefCount(refs: seq<FrameRef>, frame: nat, f: nat)
    requires forall j, k :: 0 <= j < k < |refs| ==> refs[j].frame != refs[k].frame
    ensures RefCount(AddRef(refs, frame), f) == RefCount(refs, f) + (if f == frame then 1 else 0)
  {
    var refs' := AddRef(refs, frame);
    var i, k := FindRef(refs, frame), FindRef(refs, f);
    if f == frame {
      assert refs'[i].frame == f;
      FindRefAt(refs', i);
    } else if k < |refs| {
      assert refs'[k] == refs[k];
      FindRefAt(refs', k);
    } else {
      RefAbsent(refs', f);
    }
  }

  lemma ReleaseRefCount(refs: seq<FrameRef>, frame: nat, f: nat)
    requires forall j, k :: 0 <= j < k < |refs| ==> refs[j].frame != refs[k].frame
    requires forall j :: 0 <= j < |refs| ==> refs[j].count > 0
    ensures RefCount(ReleaseRef(refs, frame), f)
            == RefCount(refs, f) - (if f == frame && RefCount(refs, f) > 0 then 1 else 0)
  {
    var refs' := ReleaseRef(refs, frame);
    var i, k := FindRef(refs, frame), FindRef(refs, f);
    if i < |refs| {
      if f == frame {
        if refs[i].count <= 1 {
          RefAbsent(refs', f);
        } else {
          assert refs'[i].frame == f;
          FindRefAt(refs', i);
        }
      } else if k < |refs| {
        var k' := if refs[i].count <= 1 && k > i then k - 1 else k;
        assert refs'[k'] == refs[k];
        FindRefAt(refs', k');
      } else {
        RefAbsent(refs', f);
      }
    }
  }

  lemma UntrackAgrees(cow: Cow, i: nat)
    requires CountsAgree(cow) && i < |cow.mappings| && Find(cow.mappings, cow.mappings[i].pid, cow.mappings[i].page) == i
    ensures CountsAgree(Untrack(cow, cow.mappings[i]))
  {
    var m := cow.mappings[i];
    var cow' := Untrack(cow, m);
    forall f: nat ensures RefCount(cow'.refs, f) == CountFrame(cow'.mappings, f) {
      CountWithout(cow.mappings, i, f);
      CountOne(cow.mappings, i);
      assert RefCount(cow.refs, f) == CountFrame(cow.mappings, f);
      ReleaseRefCount(cow.refs, m.frame, f);
    }
  }

  // ---------- Looking up a mapping ----------

  function Lookup(mappings: seq<CowMapping>, pid: nat, page: nat): Option<CowMapping>
  {
    var i := Find(mappings, pid, page);
    if i < |mappings| then Some(mappings[i]) else None
  }

  ghost predicate Unique(mappings: seq<CowMapping>)
  {
    forall i, j :: 0 <= i < j < |mappings| ==> !(mappings[i].pid == mappings[j].pid && mappings[i].page == mappings[j].page)
  }

  lemma LookupAppend(mappings: seq<CowMapping>, m: CowMapping, pid: nat, page: nat)
    ensures Lookup(mappings + [m], pid, page) ==
            if Lookup(mappings, pid, page).Some? then Lookup(mappings, pid, page)
            else if m.pid == pid && m.page == page then Some(m) else None
  {
    assert (mappings + [m])[|mappings|] == m;
    assert forall j :: 0 <= j < |mappings| ==> (mappings + [m])[j] == mappings[j];
  }

  lemma FindAt(mappings: seq<CowMapping>, i: nat)
    requires Unique(mappings) && i < |mappings|
    ensures Find(mappings, mappings[i].pid, mappings[i].page) == i
  {
  }

  lemma LookupRemove(mappings: seq<CowMapping>, i: nat, pid: nat, page: nat)
    requires Unique(mappings) && i < |mappings|
    ensures Unique(Remove(mappings, mappings[i].pid, mappings[i].page))
    ensures Lookup(Remove(mappings, mappings[i].pid, mappings[i].page), pid, page) ==
            if pid == mappings[i].pid && page == mappings[i].page then None else Lookup(mappings, pid, page)
  {
    FindAt(mappings, i);
    var rest := Remove(mappings, mappings[i].pid, mappings[i].page);
    assert rest == mappings[..i] + mappings[i + 1..];
    assert forall j :: 0 <= j < |rest| ==> rest[j] == mappings[if j < i then j else j + 1];
    var k := Find(mappings, pid, page);
    if k < |mappings| && k != i {
      var k' := if k < i then k else k - 1;
      assert rest[k'] == mappings[k];
      FindAt(rest, k');
    }
  }

  // ---------- The invariant ----------

  /** What copy-on-write knows about a page agrees with its page map. */
  ghost predicate PageOk(m: Machine, pid: nat, page: nat)
  {
    var tracked := Lookup(m.cow.mappings, pid, page);
    tracked.Some? ==>
      && Mapped(m, pid, page)
      && m.spaces[pid][page] == Page(tracked.value.frame, ReadOnly(tracked.value.restored), false)
      && tracked.value.restored.writable
  }

  /** Two different pages with one frame are both read-only, and both tracked or both untracked. */
  ghost predicate PairOk(m: Machine, pid: nat, page: nat, pid': nat, page': nat)
  {
    && Mapped(m, pid, page) && Mapped(m, pid', page') && (pid, page) != (pid', page')
    && m.spaces[pid][page].frame == m.spaces[pid'][page'].frame
    ==>
    && !m.spaces[pid][page].permissions.writable && !m.spaces[pid'][page'].permissions.writable
    && Lookup(m.cow.mappings, pid, page).Some? == Lookup(m.cow.mappings, pid', page').Some?
  }

  ghost predicate Inv(m: Machine)
  {
    && FramesInRange(m)
    && CountsAgree(m.cow)
    && Unique(m.cow.mappings)
    && (forall pid: nat, page: nat :: PageOk(m, pid, page))
    && (forall pid: nat, page: nat, pid': nat, page': nat :: PairOk(m, pid, page, pid', page'))
  }

  /** Before anything is shared: nothing tracked, and pages with one frame in common are all read-only. */
  lemma UnsharedIsFine(m: Machine)
    requires FramesInRange(m) && m.cow == Cow([], [])
    requires forall pid: nat, page: nat, pid': nat, page': nat ::
               (&& Mapped(m, pid, page) && Mapped(m, pid', page') && (pid, page) != (pid', page')
                && m.spaces[pid][page].frame == m.spaces[pid'][page'].frame)
               ==> !m.spaces[pid][page].permissions.writable
    ensures Inv(m)
  {
  }

  // ---------- The eager machine ----------

  datatype EagerPage = EagerPage(contents: seq<Byte>, permissions: Permissions)

  type WholePage = p: EagerPage | |p.contents| == PAGE_4K witness EagerPage(seq(PAGE_4K, _ => 0), TABLE_PERMISSIONS)

  /** What a process sees of a page: contents and permissions, as if every fork had copied it. */
  function Seen(m: Machine, pid: nat, page: nat): Option<EagerPage>
    requires FramesInRange(m)
  {
    if !Mapped(m, pid, page) then None
    else
      assert FrameInRange(m.mem, m.spaces[pid][page].frame);
      Some(EagerPage(Contents(m.mem, m.spaces[pid][page].frame), Restored(m, pid, page)))
  }

  // ---------- Sharing one page ----------

  /**
   The case that share_pages does not guard: the child tracks the page, but the parent's page, apart
   from copy-on-write, is not writable.
   */
  predicate MissedDuplicate(m: Machine, parent: nat, child: nat, page: nat, fits: bool)
  {
    && page % PAGE_4K == 0 && Mapped(m, parent, page) && !m.spaces[parent][page].large
    && !Restored(m, parent, page).writable && Tracked(m.cow.mappings, child, page) && fits
  }

  lemma PutFrame(m: Machine, pid: nat, page: nat, p: Page, q: nat, a: nat)
    requires pid in m.spaces
    ensures Mapped(PutPage(m, pid, page, p), q, a) <==> Mapped(m, q, a) || (q, a) == (pid, page)
    ensures Mapped(PutPage(m, pid, page, p), q, a) ==>
              PutPage(m, pid, page, p).spaces[q][a] == if (q, a) == (pid, page) then p else m.spaces[q][a]
  {
  }

  /** Everything a successful share of one page changes, page by page. */
  lemma ShareOneEffect(m: Machine, parent: nat, child: nat, page: nat, fits: bool, q: nat, a: nat)
    requires Inv(m) && parent in m.spaces && child in m.spaces && parent != child
    requires ShareOne(m, parent, child, page, fits).1.Ok?
    ensures var m' := ShareOne(m, parent, child, page, fits).0;
            var restored := Restored(m, parent, page);
            var frame := m.spaces[parent][page].frame;
            var shared := Page(frame, ReadOnly(restored), false);
            && Mapped(m, parent, page) && !m.spaces[parent][page].large && m'.mem == m.mem
            && (Mapped(m', q, a) <==> Mapped(m, q, a) || (q, a) == (child, page))
            && (Mapped(m', q, a) ==>
                  m'.spaces[q][a] == if (q, a) == (child, page) || (q, a) == (parent, page) then shared else m.spaces[q][a])
            && Lookup(m'.cow.mappings, q, a) ==
               if restored.writable && (q, a) == (child, page) then Some(CowMapping(child, page, frame, restored))
               else if restored.writable && (q, a) == (parent, page) then Some(CowMapping(parent, page, frame, restored))
               else Lookup(m.cow.mappings, q, a)
  {
    assert PageOk(m, parent, page);
    var restored := Restored(m, parent, page);
    var frame := m.spaces[parent][page].frame;
    var shared := Page(frame, ReadOnly(restored), false);
    var m1 := PutPage(m, child, page, shared);
    PutFrame(m, child, page, shared, q, a);
    if restored.writable {
      var tracked := Tracked(m.cow.mappings, parent, page);
      var pm, cm := CowMapping(parent, page, frame, restored), CowMapping(child, page, frame, restored);
      if tracked {
        LookupAppend(m.cow.mappings, cm, q, a);
      } else {
        PutFrame(m1, parent, page, shared, q, a);
        LookupAppend(m.cow.mappings, pm, q, a);
        LookupAppend(m.cow.mappings + [pm], cm, q, a);
      }
    }
  }

  lemma ShareOneLists(m: Machine, parent: nat, child: nat, page: nat, fits: bool)
    requires Inv(m) && parent in m.spaces && child in m.spaces && parent != child
    ensures var m' := ShareOne(m, parent, child, page, fits).0;
            CountsAgree(m'.cow) && Unique(m'.cow.mappings)
  {
    hide CountsAgree, PageOk, PairOk, FramesInRange;
    var (m', r) := ShareOne(m, parent, child, page, fits);
    if r == Ok(true) {
      var restored := Restored(m, parent, page);
      var frame := m.spaces[parent][page].frame;
      var pm, cm := CowMapping(parent, page, frame, restored), CowMapping(child, page, frame, restored);
      if Tracked(m.cow.mappings, parent, page) {
        TrackAgrees(m.cow, cm);
      } else {
        TrackAgrees(m.cow, pm);
        TrackAgrees(Track(m.cow, pm), cm);
      }
    }
  }

  lemma ShareOnePageOk(m: Machine, parent: nat, child: nat, page: nat, fits: bool, q: nat, a: nat)
    requires Inv(m) && parent in m.spaces && child in m.spaces && parent != child
    requires ShareOne(m, parent, child, page, fits).1.Ok?
    requires !MissedDuplicate(m, parent, child, page, fits)
    ensures PageOk(ShareOne(m, parent, child, page, fits).0, q, a)
  {
    ShareOneEffect(m, parent, child, page, fits, q, a);
    assert PageOk(m, q, a) && PageOk(m, parent, page);
    hide ShareOne, CountsAgree, FramesInRange;
  }

  lemma ShareOnePairOk(m: Machine, parent: nat, child: nat, page: nat, fits: bool, q: nat, a: nat, q': nat, a': nat)
    requires Inv(m) && parent in m.spaces && child in m.spaces && parent != child
    requires ShareOne(m, parent, child, page, fits).1.Ok?
    requires !MissedDuplicate(m, parent, child, page, fits)
    ensures PairOk(ShareOne(m, parent, child, page, fits).0, q, a, q', a')
  {
    ShareOneEffect(m, parent, child, page, fits, q, a);
    ShareOneEffect(m, parent, child, page, fits, q', a');
    assert PairOk(m, q, a, q', a') && PairOk(m, parent, page, q', a') && PairOk(m, q, a, parent, page);
    assert PageOk(m, parent, page);
    MissedMeans(m, parent, child, page, fits);
    hide ShareOne, CountsAgree, FramesInRange, Lookup, Tracked;
  }

  lemma MissedMeans(m: Machine, parent: nat, child: nat, page: nat, fits: bool)
    requires Inv(m) && parent in m.spaces && child in m.spaces && parent != child
    ensures MissedDuplicate(m, parent, child, page, fits) ==> ShareOne(m, parent, child, page, fits).1 == Ok(false)
    ensures ShareOne(m, parent, child, page, fits).1.Ok? ==>
              (MissedDuplicate(m, parent, child, page, fits) <==>
               !Restored(m, parent, page).writable && Lookup(m.cow.mappings, child, page).Some?)
    ensures Tracked(m.cow.mappings, parent, page) == Lookup(m.cow.mappings, parent, page).Some?
  {
    assert PageOk(m, child, page);
  }

  lemma ShareOneFrames(m: Machine, parent: nat, child: nat, page: nat, fits: bool)
    requires Inv(m) && parent in m.spaces && child in m.spaces && parent != child
    ensures FramesInRange(ShareOne(m, parent, child, page, fits).0)
  {
    var (m', r) := ShareOne(m, parent, child, page, fits);
    if r.Ok? {
      assert Mapped(m, parent, page);
      var frame := m.spaces[parent][page].frame;
      assert FrameInRange(m.mem, frame);
      forall q: nat, a: nat | Mapped(m', q, a)
        ensures FrameInRange(m'.mem, m'.spaces[q][a].frame)
      {
        ShareOneEffect(m, parent, child, page, fits, q, a);
      }
    }
  }

  /**
   Sharing a page keeps the invariant exactly when it is not the missed duplicate: a page that
   the child tracks while the parent's page is read-only.
   */
  lemma ShareOneKeepsInvIff(m: Machine, parent: nat, child: nat, page: nat, fits: bool)
    requires Inv(m) && parent in m.spaces && child in m.spaces && parent != child
    ensures Inv(ShareOne(m, parent, child, page, fits).0) <==> !MissedDuplicate(m, parent, child, page, fits)
  {
    var (m', r) := ShareOne(m, parent, child, page, fits);
    MissedMeans(m, parent, child, page, fits);
    if r.Ok? {
      ShareOneLists(m, parent, child, page, fits);
      ShareOneFrames(m, parent, child, page, fits);
      if MissedDuplicate(m, parent, child, page, fits) {
        MissedBreaksPage(m, parent, child, page, fits);
      } else {
        forall q: nat, a: nat ensures PageOk(m', q, a) {
          ShareOnePageOk(m, parent, child, page, fits, q, a);
        }
        forall q: nat, a: nat, q': nat, a': nat ensures PairOk(m', q, a, q', a') {
          ShareOnePairOk(m, parent, child, page, fits, q, a, q', a');
        }
      }
    }
  }

  lemma MissedBreaksPage(m: Machine, parent: nat, child: nat, page: nat, fits: bool)
    requires Inv(m) && parent in m.spaces && child in m.spaces && parent != child
    requires MissedDuplicate(m, parent, child, page, fits)
    ensures !PageOk(ShareOne(m, parent, child, page, fits).0, child, page)
  {
    MissedMeans(m, parent, child, page, fits);
    ShareOneEffect(m, parent, child, page, fits, child, page);
    assert PageOk(m, child, page) && PageOk(m, parent, page);
    assert PairOk(m, parent, page, child, page);
    hide ShareOne, CountsAgree, FramesInRange;
  }

  /** A successful share is an eager copy of the page to the child, seen from every process; a failed one is nothing. */
  lemma ShareOneCopies(m: Machine, parent: nat, child: nat, page: nat, fits: bool, q: nat, a: nat)
    requires Inv(m) && parent in m.spaces && child in m.spaces && parent != child
    requires !MissedDuplicate(m, parent, child, page, fits)
    ensures var (m', r) := ShareOne(m, parent, child, page, fits);
            && Inv(m')
            && Seen(m', q, a) == if r.Ok? && (q, a) == (child, page) then Seen(m, parent, page) else Seen(m, q, a)
  {
    var (m', r) := ShareOne(m, parent, child, page, fits);
    ShareOneKeepsInvIff(m, parent, child, page, fits);
    if r.Ok? {
      ShareOneEffect(m, parent, child, page, fits, q, a);
      MissedMeans(m, parent, child, page, fits);
      RestoredIs(m, q, a);
      RestoredIs(m, parent, page);
      RestoredIs(m', q, a);
      assert PageOk(m, parent, page);
      hide ShareOne, CountsAgree, PairOk, Lookup, Tracked, Restored;
      assert Mapped(m, q, a) ==> Seen(m', q, a).Some?;
    }
  }

  /**
   The result of a share, by what is mapped and tracked: it succeeds exactly for an aligned 4 KiB page of the
   parent that fits the child, where no large page stands, unless the page would be shared writable over
   a page that the child tracks; and it counts exactly the pages that are writable apart from copy-on-write.
   */
  lemma ShareOneOutcome(m: Machine, parent: nat, child: nat, page: nat, fits: bool)
    requires Inv(m) && parent in m.spaces && child in m.spaces && parent != child
    ensures var r := ShareOne(m, parent, child, page, fits).1;
            var small := page % PAGE_4K == 0 && Mapped(m, parent, page) && !m.spaces[parent][page].large;
            var writable := Mapped(m, parent, page) && (m.spaces[parent][page].permissions.writable || IsTracked(m, parent, page));
            var blocked := Mapped(m, child, page) && m.spaces[child][page].large;
            var doubled := writable && IsTracked(m, child, page);
            && (r == Err(InvalidArgument) <==> page % PAGE_4K != 0)
            && (r == Err(RuntimeError) <==> page % PAGE_4K == 0 && !Mapped(m, parent, page))
            && (r == Err(LogicError) <==> page % PAGE_4K == 0 && Mapped(m, parent, page) && (m.spaces[parent][page].large || doubled || blocked))
            && (r == Err(OutOfRange) <==> small && !doubled && !blocked && !fits)
            && (r.Ok? <==> small && !doubled && !blocked && fits)
            && (r.Ok? ==> r.value == writable)
  {
    TrackedIsLookup(m, parent, page);
    TrackedIsLookup(m, child, page);
    RestoredIs(m, parent, page);
    assert PageOk(m, parent, page);
    hide CountsAgree, PairOk, FramesInRange, IsTracked;
  }

  lemma RestoredIs(m: Machine, pid: nat, page: nat)
    ensures Mapped(m, pid, page) ==>
              Restored(m, pid, page) == match Lookup(m.cow.mappings, pid, page)
                                        case Some(c) => c.restored
                                        case None => m.spaces[pid][page].permissions
  {
  }

  // ---------- Resolving a fault ----------

  /** A frame that no page uses: what the allocator may grant. */
  ghost predicate Unused(m: Machine, frame: nat)
  {
    && FrameInRange(m.mem, frame)
    && forall pid: nat, page: nat :: Mapped(m, pid, page) ==> m.spaces[pid][page].frame != frame
  }

  lemma FrameApart(a: nat, b: nat)
    requires a % PAGE_4K == 0 && b % PAGE_4K == 0 && a != b
    ensures a + PAGE_4K <= b || b + PAGE_4K <= a
  {
  }

  lemma CopyElsewhere(mem: Memory, source: nat, target: nat, frame: nat)
    requires FrameInRange(mem, source) && FrameInRange(mem, target) && FrameInRange(mem, frame) && source != target
    ensures Contents(CopyPage(mem, source, target), frame)
            == if frame == target then Contents(mem, source) else Contents(mem, frame)
  {
    var mem' := CopyPage(mem, source, target);
    if frame == target {
      assert mem'[frame..frame + PAGE_4K] == mem[source..source + PAGE_4K];
    } else {
      FrameApart(frame, target);
      assert mem'[frame..frame + PAGE_4K] == mem[frame..frame + PAGE_4K];
    }
  }

  predicate Resolved(r: Result<FaultResult>)
  {
    r == Ok(RESTORED) || r == Ok(COPIED)
  }

  /** A resolved fault in closed form. */
  lemma ResolveIs(m: Machine, pid: nat, va: nat, granted: Option<nat>)
    requires Inv(m) && pid in m.spaces && (granted.Some? ==> Unused(m, granted.value))
    requires Resolved(Resolve(m, pid, va, true, granted).1)
    ensures var (m', r) := Resolve(m, pid, va, true, granted);
            var page := va - va % PAGE_4K;
            var i := Find(m.cow.mappings, pid, page);
            && i < |m.cow.mappings| && Unique(m.cow.mappings) && Mapped(m, pid, page) && (r == Ok(COPIED) ==> granted.Some?)
            && Lookup(m.cow.mappings, pid, page) == Some(m.cow.mappings[i])
            && var c := m.cow.mappings[i];
            && c.pid == pid && c.page == page && FrameInRange(m.mem, c.frame)
            && m' == PutPage(m, pid, page, Page(if r == Ok(COPIED) then granted.value else c.frame, c.restored, false))
                     .(mem := if r == Ok(COPIED) then CopyPage(m.mem, c.frame, granted.value) else m.mem,
                       cow := Cow(Remove(m.cow.mappings, pid, page), ReleaseRef(m.cow.refs, c.frame)))
  {
    hide CountsAgree, PairOk, ReleaseRef, CopyPage, Remove;
    assert PageOk(m, pid, va - va % PAGE_4K);
    var i := Find(m.cow.mappings, pid, va - va % PAGE_4K);
    assert FrameInRange(m.mem, m.cow.mappings[i].frame);
  }

  /** Everything a resolved fault changes, page by page. */
  lemma ResolveEffect(m: Machine, pid: nat, va: nat, granted: Option<nat>, q: nat, a: nat)
    requires Inv(m) && pid in m.spaces && (granted.Some? ==> Unused(m, granted.value))
    requires Resolved(Resolve(m, pid, va, true, granted).1)
    ensures var (m', r) := Resolve(m, pid, va, true, granted);
            var page := va - va % PAGE_4K;
            var tracked := Lookup(m.cow.mappings, pid, page);
            && tracked.Some? && Mapped(m, pid, page)
            && (Mapped(m', q, a) <==> Mapped(m, q, a))
            && (Mapped(m', q, a) ==>
                  m'.spaces[q][a] ==
                  if (q, a) != (pid, page) then m.spaces[q][a]
                  else Page(if r == Ok(COPIED) then granted.value else tracked.value.frame, tracked.value.restored, false))
            && Lookup(m'.cow.mappings, q, a) == (if (q, a) == (pid, page) then None else Lookup(m.cow.mappings, q, a))
            && (r == Ok(RESTORED) ==> m'.mem == m.mem)
            && (r == Ok(COPIED) ==> granted.Some? && m'.mem == CopyPage(m.mem, tracked.value.frame, granted.value))
  {
    var page := va - va % PAGE_4K;
    hide *;
    ResolveReady(m, granted);
    ResolveIs(m, pid, va, granted);
    var (m', r) := Resolve(m, pid, va, true, granted);
    var i := Find(m.cow.mappings, pid, page);
    LookupRemove(m.cow.mappings, i, q, a);
    var c := m.cow.mappings[i];
    var p := Page(if r == Ok(COPIED) then granted.value else c.frame, c.restored, false);
    PutFrame(m, pid, page, p, q, a);
    SameSpaces(PutPage(m, pid, page, p), m', q, a);
  }

  lemma ResolveReady(m: Machine, granted: Option<nat>)
    requires Inv(m) && (granted.Some? ==> Unused(m, granted.value))
    ensures FramesInRange(m) && (granted.Some? ==> FrameInRange(m.mem, granted.value))
  {
  }

  lemma SameSpaces(m: Machine, m': Machine, q: nat, a: nat)
    requires m'.spaces == m.spaces
    ensures Mapped(m', q, a) <==> Mapped(m, q, a)
    ensures Mapped(m, q, a) ==> m'.spaces[q][a] == m.spaces[q][a]
  {
  }

  lemma ResolveLists(m: Machine, pid: nat, va: nat, granted: Option<nat>)
    requires Inv(m) && pid in m.spaces && (granted.Some? ==> Unused(m, granted.value))
    requires Resolved(Resolve(m, pid, va, true, granted).1)
    ensures var m' := Resolve(m, pid, va, true, granted).0; CountsAgree(m'.cow) && Unique(m'.cow.mappings)
  {
    var page := va - va % PAGE_4K;
    var i := Find(m.cow.mappings, pid, page);
    UntrackAgrees(m.cow, i);
    LookupRemove(m.cow.mappings, i, pid, page);
    hide CountsAgree, PairOk, PageOk, FramesInRange;
  }

  lemma ResolveFrames(m: Machine, pid: nat, va: nat, granted: Option<nat>)
    requires Inv(m) && pid in m.spaces && (granted.Some? ==> Unused(m, granted.value))
    requires Resolved(Resolve(m, pid, va, true, granted).1)
    ensures FramesInRange(Resolve(m, pid, va, true, granted).0)
  {
    var page := va - va % PAGE_4K;
    var (m', r) := Resolve(m, pid, va, true, granted);
    var k := Find(m.cow.mappings, pid, page);
    assert FrameInRange(m.mem, m.cow.mappings[k].frame);
    forall q: nat, a: nat | Mapped(m', q, a)
      ensures FrameInRange(m'.mem, m'.spaces[q][a].frame)
    {
      ResolveEffect(m, pid, va, granted, q, a);
    }
    assert m'.cow.mappings == m.cow.mappings[..k] + m.cow.mappings[k + 1..];
    forall i | 0 <= i < |m'.cow.mappings| ensures FrameInRange(m'.mem, m'.cow.mappings[i].frame) {
      assert m'.cow.mappings[i] == m.cow.mappings[if i < k then i else i + 1];
    }
  }

  /** The last reference is the only page that uses the frame. */
  lemma LastReferenceIsSole(m: Machine, pid: nat, page: nat, q: nat, a: nat)
    requires Inv(m) && Lookup(m.cow.mappings, pid, page).Some?
    requires RefCount(m.cow.refs, Lookup(m.cow.mappings, pid, page).value.frame) <= 1
    requires Mapped(m, q, a) && (q, a) != (pid, page)
    ensures m.spaces[q][a].frame != Lookup(m.cow.mappings, pid, page).value.frame
  {
    var i := Find(m.cow.mappings, pid, page);
    var frame := m.cow.mappings[i].frame;
    CountOne(m.cow.mappings, i);
    assert RefCount(m.cow.refs, frame) == CountFrame(m.cow.mappings, frame);
    assert PageOk(m, pid, page) && PairOk(m, pid, page, q, a) && PageOk(m, q, a);
    var j := Find(m.cow.mappings, q, a);
    assert j < |m.cow.mappings| ==> m.cow.mappings[j].frame == m.spaces[q][a].frame;
  }

  // ---------- Which result a fault gets ----------

  lemma {:induction false} CountPositive(mappings: seq<CowMapping>, frame: nat) returns (j: nat)
    requires CountFrame(mappings, frame) > 0
    ensures j < |mappings| && mappings[j].frame == frame
  {
    j := 0;
    if mappings[0].frame != frame {
      var k := CountPositive(mappings[1..], frame);
      j := k + 1;
    }
  }

  /** Copy-on-write tracks the page of this process. */
  ghost predicate IsTracked(m: Machine, pid: nat, page: nat)
  {
    exists i :: 0 <= i < |m.cow.mappings| && m.cow.mappings[i].pid == pid && m.cow.mappings[i].page == page
  }

  /** Another page, of this process or another, is mapped to the frame of this one. */
  ghost predicate FrameIsShared(m: Machine, pid: nat, page: nat)
  {
    Mapped(m, pid, page) &&
    exists q: nat, a: nat :: Mapped(m, q, a) && (q, a) != (pid, page) && m.spaces[q][a].frame == m.spaces[pid][page].frame
  }

  /** The count of a tracked frame is above one exactly when another page is mapped to it. */
  lemma CountMeansShared(m: Machine, pid: nat, page: nat)
    requires Inv(m) && Lookup(m.cow.mappings, pid, page).Some?
    ensures Mapped(m, pid, page)
    ensures RefCount(m.cow.refs, Lookup(m.cow.mappings, pid, page).value.frame) > 1 <==> FrameIsShared(m, pid, page)
  {
    var i := Find(m.cow.mappings, pid, page);
    var frame := m.cow.mappings[i].frame;
    assert PageOk(m, pid, page);
    assert RefCount(m.cow.refs, frame) == CountFrame(m.cow.mappings, frame);
    if RefCount(m.cow.refs, frame) > 1 {
      CountWithout(m.cow.mappings, i, frame);
      var k := CountPositive(m.cow.mappings[..i] + m.cow.mappings[i + 1..], frame);
      var other := m.cow.mappings[if k < i then k else k + 1];
      FindAt(m.cow.mappings, if k < i then k else k + 1);
      assert PageOk(m, other.pid, other.page);
      assert Mapped(m, other.pid, other.page) && (other.pid, other.page) != (pid, page);
    } else {
      forall q: nat, a: nat | Mapped(m, q, a) && (q, a) != (pid, page) ensures m.spaces[q][a].frame != frame {
        LastReferenceIsSole(m, pid, page, q, a);
      }
    }
  }

  lemma TrackedIsLookup(m: Machine, pid: nat, page: nat)
    ensures IsTracked(m, pid, page) <==> Lookup(m.cow.mappings, pid, page).Some?
    ensures Tracked(m.cow.mappings, pid, page) <==> IsTracked(m, pid, page)
  {
  }

  /**
   The result of a fault, by what is mapped: only a write to a tracked page is resolved; the last page of a
   frame gets its permissions back without a new frame, any other is copied to one or finds none left.
   */
  lemma ResolveOutcome(m: Machine, pid: nat, va: nat, writeProtection: bool, granted: Option<nat>)
    requires Inv(m) && pid in m.spaces && (granted.Some? ==> Unused(m, granted.value))
    ensures var r, page := Resolve(m, pid, va, writeProtection, granted).1, va - va % PAGE_4K;
            var meant := writeProtection && IsTracked(m, pid, page);
            && (r == Ok(INVALID_FAULT) <==> !writeProtection)
            && (r == Ok(NOT_COW) <==> writeProtection && !IsTracked(m, pid, page))
            && (r == Ok(RESTORED) <==> meant && !FrameIsShared(m, pid, page))
            && (r == Ok(COPIED) <==> meant && FrameIsShared(m, pid, page) && granted.Some?)
            && (r == Ok(OUT_OF_MEMORY) <==> meant && FrameIsShared(m, pid, page) && granted.None?)
            && r.Ok?
  {
    var page := va - va % PAGE_4K;
    TrackedIsLookup(m, pid, page);
    assert PageOk(m, pid, page);
    ResolveReady(m, granted);
    if Lookup(m.cow.mappings, pid, page).Some? {
      CountMeansShared(m, pid, page);
    }
    hide CountsAgree, PairOk, FrameIsShared, IsTracked, FramesInRange, Unused;
  }

  lemma ResolvePairOk(m: Machine, pid: nat, va: nat, granted: Option<nat>, q: nat, a: nat, q': nat, a': nat)
    requires Inv(m) && pid in m.spaces && (granted.Some? ==> Unused(m, granted.value))
    requires Resolved(Resolve(m, pid, va, true, granted).1)
    ensures PairOk(Resolve(m, pid, va, true, granted).0, q, a, q', a')
  {
    var page := va - va % PAGE_4K;
    ResolveEffect(m, pid, va, granted, q, a);
    ResolveEffect(m, pid, va, granted, q', a');
    assert PairOk(m, q, a, q', a');
    var (m', r) := Resolve(m, pid, va, true, granted);
    if r == Ok(RESTORED) {
      if Mapped(m, q, a) && (q, a) != (pid, page) { LastReferenceIsSole(m, pid, page, q, a); }
      if Mapped(m, q', a') && (q', a') != (pid, page) { LastReferenceIsSole(m, pid, page, q', a'); }
    }
    hide Resolve, CountsAgree, FramesInRange, Lookup;
  }

  lemma ResolvePageOk(m: Machine, pid: nat, va: nat, granted: Option<nat>, q: nat, a: nat)
    requires Inv(m) && pid in m.spaces && (granted.Some? ==> Unused(m, granted.value))
    requires Resolved(Resolve(m, pid, va, true, granted).1)
    ensures PageOk(Resolve(m, pid, va, true, granted).0, q, a)
  {
    ResolveEffect(m, pid, va, granted, q, a);
    assert PageOk(m, q, a);
    hide Resolve, CountsAgree, FramesInRange, Lookup;
  }

  /** Resolving a fault is invisible: no process sees any change, and the invariant is kept. */
  lemma ResolveIsInvisible(m: Machine, pid: nat, va: nat, writeProtection: bool, granted: Option<nat>)
    requires Inv(m) && pid in m.spaces && (granted.Some? ==> Unused(m, granted.value))
    ensures var m' := Resolve(m, pid, va, writeProtection, granted).0;
            Inv(m') && m'.spaces.Keys == m.spaces.Keys && forall q: nat, a: nat :: Seen(m', q, a) == Seen(m, q, a)
  {
    var (m', r) := Resolve(m, pid, va, writeProtection, granted);
    if Resolved(r) {
      ResolveLists(m, pid, va, granted);
      ResolveFrames(m, pid, va, granted);
      forall q: nat, a: nat ensures PageOk(m', q, a) {
        ResolvePageOk(m, pid, va, granted, q, a);
      }
      forall q: nat, a: nat, q': nat, a': nat ensures PairOk(m', q, a, q', a') {
        ResolvePairOk(m, pid, va, granted, q, a, q', a');
      }
      forall q: nat, a: nat ensures Seen(m', q, a) == Seen(m, q, a) {
        ResolveSeen(m, pid, va, granted, q, a);
      }
    }
  }

  lemma ResolveSeen(m: Machine, pid: nat, va: nat, granted: Option<nat>, q: nat, a: nat)
    requires Inv(m) && pid in m.spaces && (granted.Some? ==> Unused(m, granted.value))
    requires Resolved(Resolve(m, pid, va, true, granted).1) && FramesInRange(Resolve(m, pid, va, true, granted).0)
    ensures Seen(Resolve(m, pid, va, true, granted).0, q, a) == Seen(m, q, a)
  {
    var page := va - va % PAGE_4K;
    var (m', r) := Resolve(m, pid, va, true, granted);
    ResolveEffect(m, pid, va, granted, q, a);
    RestoredIs(m, q, a);
    RestoredIs(m', q, a);
    assert PageOk(m, pid, page);
    var source := Lookup(m.cow.mappings, pid, page).value.frame;
    assert FrameInRange(m.mem, m.spaces[pid][page].frame);
    if Mapped(m, q, a) {
      assert FrameInRange(m.mem, m.spaces[q][a].frame);
      if r == Ok(COPIED) {
        assert m.spaces[pid][page].frame != granted.value;
        CopyElsewhere(m.mem, source, granted.value, m'.spaces[q][a].frame);
      }
    }
    hide Resolve, CountsAgree, PairOk, Lookup, Restored, CopyPage;
  }

  // ---------- User stores ----------

  lemma WriteElsewhere(mem: Memory, frame: nat, offset: nat, b: Byte, other: nat)
    requires FrameInRange(mem, frame) && FrameInRange(mem, other) && offset < PAGE_4K
    ensures Contents(mem[frame + offset := b], other)
            == if other == frame then Contents(mem, frame)[offset := b] else Contents(mem, other)
  {
    var mem' := mem[frame + offset := b];
    if other == frame {
      assert mem'[other..other + PAGE_4K] == mem[frame..frame + PAGE_4K][offset := b];
    } else {
      FrameApart(frame, other);
      assert mem'[other..other + PAGE_4K] == mem[other..other + PAGE_4K];
    }
  }

  /** A store that the page map allows reaches exactly one page of one process. */
  lemma UserWriteIsPrivate(m: Machine, pid: nat, va: nat, b: Byte, q: nat, a: nat)
    requires Inv(m)
    ensures var (m', fault) := UserWrite(m, pid, va, b);
            var page := va - va % PAGE_4K;
            && Inv(m') && m'.spaces == m.spaces
            && (fault.Some? ==> m' == m)
            && (fault.None? ==> Seen(m, pid, page).Some?)
            && Seen(m', q, a) ==
               if fault.None? && (q, a) == (pid, page)
               then Some(Seen(m, q, a).value.(contents := Seen(m, q, a).value.contents[va % PAGE_4K := b]))
               else Seen(m, q, a)
  {
    var (m', fault) := UserWrite(m, pid, va, b);
    var page := va - va % PAGE_4K;
    if fault.None? {
      assert FrameInRange(m.mem, m.spaces[pid][page].frame);
      assert PairOk(m, pid, page, q, a);
      SameMaps(m, m');
      if Mapped(m, q, a) {
        assert FrameInRange(m.mem, m.spaces[q][a].frame);
        WriteElsewhere(m.mem, m.spaces[pid][page].frame, va % PAGE_4K, b, m.spaces[q][a].frame);
      }
    }
  }

  lemma SameMaps(m: Machine, m': Machine)
    requires Inv(m) && m'.spaces == m.spaces && m'.cow == m.cow && |m'.mem| == |m.mem|
    ensures Inv(m')
  {
    forall q: nat, a: nat ensures PageOk(m', q, a) { assert PageOk(m, q, a); }
    forall q: nat, a: nat, q': nat, a': nat ensures PairOk(m', q, a, q', a') { assert PairOk(m, q, a, q', a'); }
    forall q, a | Mapped(m', q, a) ensures FrameInRange(m'.mem, m'.spaces[q][a].frame) {
      assert Mapped(m, q, a) && FrameInRange(m.mem, m.spaces[q][a].frame);
    }
    forall i | 0 <= i < |m'.cow.mappings| ensures FrameInRange(m'.mem, m'.cow.mappings[i].frame) {
      assert FrameInRange(m.mem, m.cow.mappings[i].frame);
    }
  }

  // ---------- Store instructions ----------

  datatype StoreOutcome = Stored | Refused(reason: FaultReason) | NoMemory

  type Eager = map<(nat, nat), EagerPage>

  function EagerSeen(e: Eager, pid: nat, page: nat): Option<EagerPage>
  {
    if (pid, page) in e then Some(e[(pid, page)]) else None
  }

  /** The machine whose forks copy every page at once: a store goes to the process's own copy. */
  function EagerStore(e: Eager, pid: nat, va: nat, b: Byte): (Eager, StoreOutcome)
    requires forall k :: k in e ==> |e[k].contents| == PAGE_4K
  {
    var page := va - va % PAGE_4K;
    match EagerSeen(e, pid, page)
    case None => (e, Refused(NOT_PRESENT))
    case Some(p) =>
      if !p.permissions.user then (e, Refused(USER_SUPERVISOR))
      else if !p.permissions.writable then (e, Refused(WRITE_PROTECTION))
      else (e[(pid, page) := p.(contents := p.contents[va % PAGE_4K := b])], Stored)
  }

  ghost predicate Agrees(m: Machine, e: Eager)
    requires FramesInRange(m)
  {
    && (forall k :: k in e ==> |e[k].contents| == PAGE_4K)
    && forall pid: nat, page: nat :: Seen(m, pid, page) == EagerSeen(e, pid, page)
  }

  lemma WriteAgrees(m: Machine, e: Eager, pid: nat, va: nat, b: Byte)
    requires Inv(m) && Agrees(m, e)
    ensures var (m', fault) := UserWrite(m, pid, va, b);
            && Inv(m') && m'.spaces == m.spaces
            && (fault.None? ==> EagerStore(e, pid, va, b).1 == Stored && Agrees(m', EagerStore(e, pid, va, b).0))
            && (fault.Some? ==> m' == m)
  {
    hide Inv;
    InvFrames(m);
    var (m', fault) := UserWrite(m, pid, va, b);
    var page := va - va % PAGE_4K;
    UserWriteIsPrivate(m, pid, va, b, pid, page);
    InvFrames(m');
    if fault.None? {
      var (e', outcome) := EagerStore(e, pid, va, b);
      assert Seen(m, pid, page) == EagerSeen(e, pid, page);
      WritableMeansRestored(m, pid, page);
      forall q: nat, a: nat ensures Seen(m', q, a) == EagerSeen(e', q, a) {
        UserWriteIsPrivate(m, pid, va, b, q, a);
        assert Seen(m, q, a) == EagerSeen(e, q, a);
      }
    }
  }

  lemma InvFrames(m: Machine)
    requires Inv(m)
    ensures FramesInRange(m)
  {
  }

  lemma WritableMeansRestored(m: Machine, pid: nat, page: nat)
    requires Inv(m) && Mapped(m, pid, page) && m.spaces[pid][page].permissions.writable
    ensures Restored(m, pid, page) == m.spaces[pid][page].permissions
  {
    assert PageOk(m, pid, page);
  }

  /** After a resolved fault the page map shows the restored permissions, so that the retry is judged as eagerly. */
  lemma RetryIsJudgedEagerly(m: Machine, pid: nat, va: nat, b: Byte, granted: Option<nat>)
    requires Inv(m) && pid in m.spaces && (granted.Some? ==> Unused(m, granted.value))
    requires Resolved(Resolve(m, pid, va, true, granted).1)
    ensures var page := va - va % PAGE_4K;
            var m' := Resolve(m, pid, va, true, granted).0;
            && Inv(m') && Mapped(m, pid, page) && Mapped(m', pid, page) && !m'.spaces[pid][page].large
            && m'.spaces[pid][page].permissions == Restored(m, pid, page) && !m.spaces[pid][page].large
  {
    var page := va - va % PAGE_4K;
    ResolveIsInvisible(m, pid, va, true, granted);
    ResolveEffect(m, pid, va, granted, pid, page);
    RestoredIs(m, pid, page);
    assert PageOk(m, pid, page);
    hide Resolve, CountsAgree, PairOk, FramesInRange;
  }

  lemma RefusedForGood(m: Machine, pid: nat, va: nat, b: Byte, granted: Option<nat>, reason: FaultReason)
    requires Inv(m) && pid in m.spaces && (granted.Some? ==> Unused(m, granted.value))
    requires UserWrite(m, pid, va, b).1 == Some(reason)
    requires var r := Resolve(m, pid, va, reason != NOT_PRESENT, granted).1; !Resolved(r) && r != Ok(OUT_OF_MEMORY)
    ensures var page := va - va % PAGE_4K;
            match Seen(m, pid, page)
            case None => reason == NOT_PRESENT
            case Some(p) => Denial(USER_MODE, p.permissions, WRITE, RING3) == Some(reason)
  {
    var page := va - va % PAGE_4K;
    assert PageOk(m, pid, page);
    RestoredIs(m, pid, page);
  }

  // ---------- Mapping a fresh page ----------

  /** Mapping an unused frame at a page that is not tracked adds that page with its contents, and nobody else sees a change. */
  lemma InstallKeeps(m: Machine, pid: nat, page: nat, frame: nat, permissions: Permissions)
    requires Inv(m) && pid in m.spaces && Unused(m, frame) && !Tracked(m.cow.mappings, pid, page)
    ensures var m' := PutPage(m, pid, page, Page(frame, permissions, false));
            && Inv(m')
            && forall q: nat, a: nat :: Seen(m', q, a) ==
                 if (q, a) == (pid, page) then Some(EagerPage(Contents(m.mem, frame), permissions)) else Seen(m, q, a)
  {
    var p := Page(frame, permissions, false);
    var m' := PutPage(m, pid, page, p);
    forall q: nat, a: nat ensures PageOk(m', q, a) {
      PutFrame(m, pid, page, p, q, a);
      assert PageOk(m, q, a);
    }
    forall q: nat, a: nat, q': nat, a': nat ensures PairOk(m', q, a, q', a') {
      PutFrame(m, pid, page, p, q, a);
      PutFrame(m, pid, page, p, q', a');
      assert PairOk(m, q, a, q', a');
    }
    forall q: nat, a: nat | Mapped(m', q, a) ensures FrameInRange(m'.mem, m'.spaces[q][a].frame) {
      PutFrame(m, pid, page, p, q, a);
    }
    forall q: nat, a: nat
      ensures Seen(m', q, a) == if (q, a) == (pid, page) then Some(EagerPage(Contents(m.mem, frame), permissions)) else Seen(m, q, a)
    {
      PutFrame(m, pid, page, p, q, a);
    }
  }

  // ---------- Forks ----------

  /** No page of the list meets the missed duplicate. */
  predicate NoMissed(m: Machine, parent: nat, child: nat, pages: seq<nat>)
  {
    forall page :: page in pages && Mapped(m, parent, page) && Tracked(m.cow.mappings, child, page) ==>
      Restored(m, parent, page).writable
  }

  /** An eager fork copies contents and permissions of each page. */
  function EagerFork(e: Eager, parent: nat, child: nat, pages: seq<nat>): Eager
    decreases |pages|
  {
    if pages == [] then e
    else
      match EagerSeen(e, parent, pages[0])
      case None => EagerFork(e, parent, child, pages[1..])
      case Some(p) => EagerFork(e[(child, pages[0]) := p], parent, child, pages[1..])
  }

  lemma ShareOneAgrees(m: Machine, e: Eager, parent: nat, child: nat, page: nat, fits: bool)
    requires Inv(m) && Agrees(m, e) && parent in m.spaces && child in m.spaces && parent != child
    requires !MissedDuplicate(m, parent, child, page, fits)
    ensures var (m', r) := ShareOne(m, parent, child, page, fits);
            && Inv(m')
            && (r.Err? ==> m' == m)
            && (r.Ok? ==> EagerSeen(e, parent, page).Some? && Agrees(m', e[(child, page) := EagerSeen(e, parent, page).value]))
  {
    hide Inv;
    ShareOneCopies(m, parent, child, page, fits, parent, page);
    var (m', r) := ShareOne(m, parent, child, page, fits);
    InvFrames(m);
    InvFrames(m');
    if r.Ok? {
      assert Mapped(m, parent, page) && !m.spaces[parent][page].large;
      assert Seen(m, parent, page) == EagerSeen(e, parent, page);
      var e' := e[(child, page) := EagerSeen(e, parent, page).value];
      forall q: nat, a: nat ensures Seen(m', q, a) == EagerSeen(e', q, a) {
        ShareOneCopies(m, parent, child, page, fits, q, a);
        assert Seen(m, q, a) == EagerSeen(e, q, a);
      }
    }
  }

  /** Sharing a page does not create the missed duplicate for the pages that follow. */
  lemma ShareOneStaysLegal(m: Machine, parent: nat, child: nat, pages: seq<nat>, fits: bool)
    requires Inv(m) && pages != [] && parent in m.spaces && child in m.spaces && parent != child
    requires NoMissed(m, parent, child, pages)
    ensures !MissedDuplicate(m, parent, child, pages[0], fits)
    ensures var (m', r) := ShareOne(m, parent, child, pages[0], fits); r.Ok? ==> NoMissed(m', parent, child, pages[1..])
  {
    hide CountsAgree, PairOk, FramesInRange, PageOk;
    assert pages[0] in pages;
    var (m', r) := ShareOne(m, parent, child, pages[0], fits);
    if r.Ok? {
      forall page | page in pages[1..] && Mapped(m', parent, page) && Tracked(m'.cow.mappings, child, page)
        ensures Restored(m', parent, page).writable
      {
        ShareOneEffect(m, parent, child, pages[0], fits, parent, page);
        ShareOneEffect(m, parent, child, pages[0], fits, child, page);
        RestoredIs(m, parent, page);
        RestoredIs(m', parent, page);
      }
    }
  }

  lemma FailedShareChangesNothing(m: Machine, parent: nat, child: nat, page: nat, fits: bool)
    requires parent in m.spaces && child in m.spaces && parent != child
    ensures ShareOne(m, parent, child, page, fits).1.Err? ==> ShareOne(m, parent, child, page, fits).0 == m
  {
  }

  // ---------- The eager machine's steps ----------

  /** What the eager machine does for a step: only the length of a cut-off fork and a refused allocation come from outside. */
  datatype EagerOp =
    | CopyPages(parent: nat, child: nat, pages: seq<nat>)
    | InstallPage(pid: nat, page: nat, installed: WholePage)
    | PutByte(pid: nat, va: nat, b: Byte)
    | Nothing

  ghost predicate Whole(e: Eager)
  {
    forall k :: k in e ==> |e[k].contents| == PAGE_4K
  }

  ghost function EagerStep(e: Eager, op: EagerOp): (r: (Eager, Option<StoreOutcome>))
    requires Whole(e)
    ensures Whole(r.0)
  {
    match op
    case CopyPages(parent, child, pages) => ForkKeepsWhole(e, parent, child, pages); (EagerFork(e, parent, child, pages), None)
    case InstallPage(pid, page, installed) => (e[(pid, page) := installed], None)
    case PutByte(pid, va, b) => var (e', outcome) := EagerStore(e, pid, va, b); (e', Some(outcome))
    case Nothing => (e, None)
  }

  lemma {:induction false} ForkKeepsWhole(e: Eager, parent: nat, child: nat, pages: seq<nat>)
    requires Whole(e)
    ensures Whole(EagerFork(e, parent, child, pages))
    decreases |pages|
  {
    if pages != [] {
      match EagerSeen(e, parent, pages[0])
      case None => ForkKeepsWhole(e, parent, child, pages[1..]);
      case Some(p) => ForkKeepsWhole(e[(child, pages[0]) := p], parent, child, pages[1..]);
    }
  }

  ghost function EagerRun(e: Eager, ops: seq<EagerOp>): (Eager, seq<Option<StoreOutcome>>)
    requires Whole(e)
    decreases |ops|
  {
    if ops == [] then (e, [])
    else
      var (e', seen) := EagerStep(e, ops[0]);
      var (e'', rest) := EagerRun(e', ops[1..]);
      (e'', [seen] + rest)
  }

  ghost function PageKeys(m: Machine): set<(nat, nat)>
  {
    set pid: nat, page: nat | pid in m.spaces && page in m.spaces[pid] :: (pid, page)
  }

  /** The eager machine that looks like m. */
  ghost function EagerOf(m: Machine): Eager
    requires FramesInRange(m)
  {
    map k: (nat, nat) | k in PageKeys(m) && Seen(m, k.0, k.1).Some? :: Seen(m, k.0, k.1).value
  }

  lemma EagerOfAgrees(m: Machine)
    requires FramesInRange(m)
    ensures Agrees(m, EagerOf(m))
  {
    forall pid: nat, page: nat ensures Seen(m, pid, page) == EagerSeen(EagerOf(m), pid, page) {
      SeenIsKey(m, pid, page);
      hide PageKeys, Seen, FramesInRange;
      assert (pid, page) in EagerOf(m) <==> Seen(m, pid, page).Some?;
    }
    hide PageKeys, FramesInRange;
  }

  lemma SeenIsKey(m: Machine, pid: nat, page: nat)
    requires FramesInRange(m)
    ensures Seen(m, pid, page).Some? ==> (pid, page) in PageKeys(m)
  {
  }

  lemma AgreesWhole(m: Machine, e: Eager)
    requires FramesInRange(m) && Agrees(m, e)
    ensures Whole(e)
  {
  }

  // ---------- The missed duplicate ----------

  /** Nothing is shared: process 1 has a read-only page, process 2 a writable one at the same address, process 3 none. */
  function BeforeExample(): Machine
  {
    var one: Space := map[0 := Page(0, Permissions(false, true, false), false)];
    var two: Space := map[0 := Page(4096, Permissions(true, true, false), false)];
    var three: Space := map[];
    Machine(map[1 := one, 2 := two, 3 := three], seq(12288, _ => 0), Cow([], []))
  }

  /** After process 3 was forked from process 2. */
  function MissedExample(): Machine
  {
    var readOnly, full := Permissions(false, true, false), Permissions(true, true, false);
    var one: Space := map[0 := Page(0, readOnly, false)];
    var two: Space := map[0 := Page(4096, readOnly, false)];
    Machine(map[1 := one, 2 := two, 3 := two], seq(12288, _ => 0),
            Cow([CowMapping(2, 0, 4096, full), CowMapping(3, 0, 4096, full)], [FrameRef(4096, 2)]))
  }

  lemma MissedExampleIsReachable()
    ensures Inv(BeforeExample()) && BeforeExample().cow == Cow([], [])
    ensures ShareOne(BeforeExample(), 2, 3, 0, true) == (MissedExample(), Ok(true))
    ensures Inv(MissedExample())
  {
    var m := BeforeExample();
    assert FrameInRange(m.mem, 0) && FrameInRange(m.mem, 4096);
    UnsharedIsFine(m);
    hide Inv, FramesInRange;
    ShareOneKeepsInvIff(m, 2, 3, 0, true);
    ShareExample();
  }

  lemma ShareExample()
    ensures ShareOne(BeforeExample(), 2, 3, 0, true) == (MissedExample(), Ok(true))
  {
    var m := BeforeExample();
    var readOnly, full := Permissions(false, true, false), Permissions(true, true, false);
    var p := Page(4096, readOnly, false);
    var (m', r) := ShareOne(m, 2, 3, 0, true);
    assert m'.spaces[2] == map[0 := p] && m'.spaces[3] == map[0 := p];
    assert m'.spaces == MissedExample().spaces;
    assert m'.cow.mappings == MissedExample().cow.mappings;
    assert m'.cow.refs == [FrameRef(4096, 2)];
  }

  /** After process 1 shared its read-only page with process 2: the page is mapped, the old mapping stays tracked. */
  function AfterMissed(): Machine
  {
    var one: Space := map[0 := Page(0, Permissions(false, true, false), false)];
    MissedExample().(spaces := MissedExample().spaces[2 := one])
  }

  lemma MissedShare()
    ensures ShareOne(MissedExample(), 1, 2, 0, true) == (AfterMissed(), Ok(false)) && FramesInRange(AfterMissed())
  {
    var m, m' := MissedExample(), ShareOne(MissedExample(), 1, 2, 0, true).0;
    assert m.cow.mappings[0].pid == 2;
    assert Find(m.cow.mappings, 1, 0) == 2;
    assert m'.spaces[2] == AfterMissed().spaces[2];
    assert m'.spaces == AfterMissed().spaces;
    assert FrameInRange(m.mem, 0) && FrameInRange(m.mem, 4096);
  }

  /**
   The guard that share_pages leaves out matters: the share reports success without sharing, and the
   child's next fault gives it a writable page with another frame's contents, where the parent's page is read-only.
   */
  lemma MissedDuplicateShowsThrough()
    ensures var (m, r) := ShareOne(MissedExample(), 1, 2, 0, true);
            && r == Ok(false) && FramesInRange(m) && !Seen(m, 1, 0).value.permissions.writable
            && (forall granted: nat :: FrameInRange(m.mem, granted) ==>
                  Resolve(m, 2, 0, true, Some(granted)).1 == Ok(COPIED)
                  && m.spaces[2][0].frame == 0
                  && Resolve(m, 2, 0, true, Some(granted)).0.spaces[2][0] == Page(granted, Permissions(true, true, false), false)
                  && Resolve(m, 2, 0, true, Some(granted)).0.mem == CopyPage(m.mem, 4096, granted))
  {
    hide ShareOne, FramesInRange, CopyPage;
    MissedShare();
    var m := AfterMissed();
    assert m.cow.mappings[0].pid == 2;
    assert Find(m.cow.mappings, 2, 0) == 0 && Find(m.cow.mappings, 1, 0) == 2;
  }
}
