/** The copy-on-write manager as the kernel runs it: two lists edited in place and a page copied word by word. */
module CopyOnWriteManagers {
  import opened LittleEndian
  import opened MemoryBus
  import opened Results
  import opened Paging
  import PageTableWalker
  import opened PageTableBuilder
  import opened AddressSpace
  import opened CopyOnWrite
  import opened CowPageTables

  /** The bytes of one frame arrive in another; every other byte stays. */
  method CopyPhysicalPage(bus: PhysicalMemory, source: nat, target: nat)
    requires FrameInRange(bus.bytes, source) && FrameInRange(bus.bytes, target)
    modifies bus
    ensures bus.bytes == CopyPage(old(bus.bytes), source, target)
  {
    hide CopiedUpTo, Load, Store, CopyPage;
    ghost var was := bus.bytes;
    NothingCopied(was, source, target);
    var offset := 0;
    while offset < PAGE_4K
      invariant offset % 8 == 0 && offset <= PAGE_4K && |bus.bytes| == |was|
      invariant CopiedUpTo(was, bus.bytes, source, target, offset)
    {
      ghost var before := bus.bytes;
      var value := bus.Read(source + offset, 8);
      var _ := bus.Write(target + offset, 8, value.value);
      WordCopied(was, before, source, target, offset);
      offset := offset + 8;
    }
    AllWordsCopied(was, bus.bytes, source, target);
  }

  /** The first bytes of the frame have arrived. */
  ghost predicate CopiedUpTo(was: Memory, now: Memory, source: nat, target: nat, offset: nat)
    requires FrameInRange(was, source) && FrameInRange(was, target) && offset <= PAGE_4K
  {
    && |now| == |was|
    && forall a {:trigger now[a]} :: 0 <= a < |was| ==>
         now[a] == if target <= a < target + offset then was[a - target + source] else was[a]
  }

  lemma NothingCopied(was: Memory, source: nat, target: nat)
    requires FrameInRange(was, source) && FrameInRange(was, target)
    ensures CopiedUpTo(was, was, source, target, 0)
  {
  }

  lemma WordMoved(mem: Memory, source: nat, target: nat, a: nat)
    requires ContainsRange(mem, source, 8) && ContainsRange(mem, target, 8) && a < |mem|
    ensures Store(mem, target, 8, Load(mem, source, 8))[a] == if target <= a < target + 8 then mem[a - target + source] else mem[a]
  {
    EncodeDecode(mem[source..source + 8]);
    hide ToBytes, FromBytes;
    assert Store(mem, target, 8, Load(mem, source, 8)) == mem[..target] + mem[source..source + 8] + mem[target + 8..];
  }

  lemma WordCopied(was: Memory, now: Memory, source: nat, target: nat, offset: nat)
    requires FrameInRange(was, source) && FrameInRange(was, target) && offset + 8 <= PAGE_4K && |now| == |was|
    requires CopiedUpTo(was, now, source, target, offset)
    ensures CopiedUpTo(was, Store(now, target + offset, 8, Load(now, source + offset, 8)), source, target, offset + 8)
  {
    hide Store, Load;
    var next := Store(now, target + offset, 8, Load(now, source + offset, 8));
    if source != target {
      FramesApart(source, target);
    }
    forall a {:trigger next[a]} | 0 <= a < |was|
      ensures next[a] == if target <= a < target + offset + 8 then was[a - target + source] else was[a]
    {
      WordMoved(now, source + offset, target + offset, a);
    }
  }

  lemma FramesApart(a: nat, b: nat)
    requires a % PAGE_4K == 0 && b % PAGE_4K == 0 && a != b
    ensures a + PAGE_4K <= b || b + PAGE_4K <= a
  {
  }

  lemma AllWordsCopied(was: Memory, now: Memory, source: nat, target: nat)
    requires FrameInRange(was, source) && FrameInRange(was, target) && CopiedUpTo(was, now, source, target, PAGE_4K)
    ensures now == CopyPage(was, source, target)
  {
    var copied := CopyPage(was, source, target);
    assert forall a :: 0 <= a < |was| ==> now[a] == copied[a];
  }

  class CopyOnWriteManager {
    var mappings: seq<CowMapping>
    var refs: seq<FrameRef>

    constructor ()
      ensures mappings == [] && refs == []
    {
      mappings, refs := [], [];
    }

    ghost function Lists(): Cow
      reads this
    {
      Cow(mappings, refs)
    }

    method FindMapping(pid: nat, page: nat) returns (i: nat)
      ensures i == Find(mappings, pid, page)
    {
      i := 0;
      while i < |mappings| && !(mappings[i].pid == pid && mappings[i].page == page)
        invariant i <= |mappings| && Find(mappings, pid, page) == i + Find(mappings[i..], pid, page)
      {
        i := i + 1;
      }
    }

    method FindFrameRef(frame: nat) returns (i: nat)
      ensures i == FindRef(refs, frame)
    {
      i := 0;
      while i < |refs| && refs[i].frame != frame
        invariant i <= |refs| && FindRef(refs, frame) == i + FindRef(refs[i..], frame)
      {
        i := i + 1;
      }
    }

    method AddFrameRef(frame: nat)
      modifies this`refs
      ensures refs == AddRef(old(refs), frame)
    {
      var i := FindFrameRef(frame);
      if i == |refs| {
        refs := refs + [FrameRef(frame, 1)];
      } else {
        refs := refs[i := FrameRef(frame, refs[i].count + 1)];
      }
    }

    method ReleaseFrameRef(frame: nat)
      modifies this`refs
      ensures refs == ReleaseRef(old(refs), frame)
    {
      var i := FindFrameRef(frame);
      if i < |refs| {
        if refs[i].count <= 1 {
          refs := refs[..i] + refs[i + 1..];
        } else {
          refs := refs[i := FrameRef(frame, refs[i].count - 1)];
        }
      }
    }

    method RemoveMapping(pid: nat, page: nat)
      modifies this`mappings
      ensures mappings == Remove(old(mappings), pid, page)
    {
      var i := FindMapping(pid, page);
      if i < |mappings| {
        mappings := mappings[..i] + mappings[i + 1..];
      }
    }

    method ShareOnePage(parent: nat, parentSpace: AddressSpace, child: nat, childSpace: AddressSpace, page: Qword) returns (r: Result<bool>)
      requires parentSpace != childSpace && parentSpace.memory == childSpace.memory && childSpace.Valid()
      modifies this, childSpace, childSpace.memory
      ensures childSpace.Valid()
      ensures (childSpace.State(), Lists(), r)
              == SharePage(old(childSpace.State()), old(Lists()), parent, parentSpace.root, child, childSpace.root, childSpace.arenaEnd, page)
    {
      hide PageTableWalker.Translate, SetPermissions, MapOnePage, Find, AddRef;
      if page % PAGE_4K != 0 {
        return Err(InvalidArgument);
      }
      var outcome := parentSpace.PageTranslation(page, READ, RING0);
      if outcome.Thrown? {
        return Err(outcome.error);
      }
      if outcome.PageFault? {
        return Err(RuntimeError);
      }
      var x := outcome.translation;
      if x.size != PAGE_4K {
        return Err(LogicError);
      }
      var frame: Qword := x.frameBase % TWO_64;
      var parentMapping := FindMapping(parent, page);
      var tracked := parentMapping < |mappings|;
      var restored := if tracked then mappings[parentMapping].restored else x.permissions;
      if restored.writable {
        var childMapping := FindMapping(child, page);
        if childMapping < |mappings| {
          return Err(LogicError);
        }
      }
      var mapped := childSpace.MapPage(page, frame, ReadOnly(restored));
      if mapped.Err? {
        return Err(mapped.error);
      }
      if restored.writable {
        if !tracked {
          var changed := parentSpace.SetPagePermissions(page, ReadOnly(restored));
          if changed.Err? {
            return Err(changed.error);
          }
          mappings := mappings + [CowMapping(parent, page, frame, restored)];
          AddFrameRef(frame);
        }
        mappings := mappings + [CowMapping(child, page, frame, restored)];
        AddFrameRef(frame);
      }
      return Ok(restored.writable);
    }

    method SharePages(parent: nat, parentSpace: AddressSpace, child: nat, childSpace: AddressSpace, pages: seq<Qword>) returns (r: Result<nat>)
      requires parentSpace != childSpace && parentSpace.memory == childSpace.memory && childSpace.Valid()
      modifies this, childSpace, childSpace.memory
      ensures childSpace.Valid()
      ensures (childSpace.State(), Lists(), r)
              == ShareAll(old(childSpace.State()), old(Lists()), parent, parentSpace.root, child, childSpace.root, childSpace.arenaEnd, pages)
    {
      hide SharePage;
      ghost var whole := ShareAll(childSpace.State(), Lists(), parent, parentSpace.root, child, childSpace.root, childSpace.arenaEnd, pages);
      assert pages[0..] == pages;
      var shared := 0;
      for i := 0 to |pages|
        invariant childSpace.Valid()
        invariant var rest := ShareAll(childSpace.State(), Lists(), parent, parentSpace.root, child, childSpace.root, childSpace.arenaEnd, pages[i..]);
                  whole == (rest.0, rest.1, if rest.2.Err? then rest.2 else Ok(rest.2.value + shared))
      {
        assert pages[i..][1..] == pages[i + 1..];
        var one := ShareOnePage(parent, parentSpace, child, childSpace, pages[i]);
        if one.Err? {
          return Err(one.error);
        }
        if one.value {
          shared := shared + 1;
        }
      }
      return Ok(shared);
    }

    method ResolveWriteFault(pid: nat, space: AddressSpace, va: Qword, writeProtection: bool, granted: Option<Qword>)
      returns (r: Result<FaultResult>)
      requires space.Valid() && CowFramesInRange(space.memory.bytes, Lists())
      requires granted.Some? ==> FrameInRange(space.memory.bytes, granted.value)
      modifies this, space, space.memory
      ensures space.Valid()
      ensures (space.State(), Lists(), r)
              == old(ResolveFault(space.State(), Lists(), pid, space.root, space.arenaEnd, va, writeProtection, granted))
    {
      hide SetPermissions, MapOnePage, Find, FindRef, ReleaseRef, Remove, CopyPage;
      if !writeProtection {
        return Ok(INVALID_FAULT);
      }
      var page := va - va % PAGE_4K;
      var i := FindMapping(pid, page);
      if i == |mappings| {
        return Ok(NOT_COW);
      }
      var c := mappings[i];
      var k := FindFrameRef(c.frame);
      if k == |refs| || refs[k].count <= 1 {
        var changed := space.SetPagePermissions(page, c.restored);
        if changed.Err? {
          return Err(changed.error);
        }
        ReleaseFrameRef(c.frame);
        RemoveMapping(pid, page);
        return Ok(RESTORED);
      }
      if granted.None? {
        return Ok(OUT_OF_MEMORY);
      }
      assert FrameInRange(space.memory.bytes, Lists().mappings[i].frame);
      CopyPhysicalPage(space.memory, c.frame, granted.value);
      var mapped := space.MapPage(page, granted.value, c.restored);
      if mapped.Err? {
        return Err(mapped.error);
      }
      ReleaseFrameRef(c.frame);
      RemoveMapping(pid, page);
      return Ok(COPIED);
    }
  }
}
