/** Construction of 4-level page tables in a table arena of physical memory. */
module PageTableBuilder {
  import opened LittleEndian
  import opened MemoryBus
  import opened Results
  import opened Paging
  import opened PageTableWalker

  /** What the builder changes: memory, and the address of the next free table page. */
  datatype Tables = Tables(mem: Memory, next: nat)

  function ClearTable(mem: Memory, table: nat): (mem': Memory)
    requires ContainsRange(mem, table, PAGE_4K)
    ensures |mem'| == |mem|
  {
    mem[..table] + seq(PAGE_4K, _ => 0) + mem[table + PAGE_4K..]
  }

  predicate HasRoomForTable(t: Tables, arenaEnd: nat)
  {
    ContainsRange(t.mem, t.next, PAGE_4K) && !(arenaEnd != 0 && t.next > arenaEnd - PAGE_4K)
  }

  function EnsureChild(t: Tables, arenaEnd: nat, table: nat, va: Qword, level: Level): (r: (Tables, Result<nat>))
    ensures |r.0.mem| == |t.mem|
  {
    var a := EntryAddress(table, va, level);
    if !ContainsRange(t.mem, a, 8) then (t, Err(OutOfRange))
    else
      var f := Decode(LoadEntry(t.mem, a));
      if f.present then (t, if IsLarge(f, level) then Err(LogicError) else Ok(f.address))
      else if !HasRoomForTable(t, arenaEnd) then (t, Err(OutOfRange))
      else
        var link := MakeEntry(t.next % TWO_64, TABLE_PERMISSIONS, false);
        (Tables(StoreEntry(ClearTable(t.mem, t.next), a, link), t.next + PAGE_4K), Ok(t.next))
  }

  function WriteLeaf(t: Tables, table: nat, va: Qword, level: Level, raw: Qword): (r: (Tables, Result<()>))
    ensures |r.0.mem| == |t.mem|
  {
    var a := EntryAddress(table, va, level);
    if !ContainsRange(t.mem, a, 8) then (t, Err(OutOfRange))
    else
      var f := Decode(LoadEntry(t.mem, a));
      if f.present && !IsLeaf(f, level) then (t, Err(LogicError))
      else (t.(mem := StoreEntry(t.mem, a, raw)), Ok(()))
  }

  /** From one table down to the level of the leaf, creating the tables that are missing. */
  function MapFrom(t: Tables, arenaEnd: nat, table: nat, at: Level, leaf: Level, va: Qword, raw: Qword)
    : (r: (Tables, Result<()>))
    requires leaf.Rank() <= at.Rank()
    ensures |r.0.mem| == |t.mem|
    decreases at.Rank()
  {
    if at == leaf then WriteLeaf(t, table, va, at, raw)
    else
      var (t', child) := EnsureChild(t, arenaEnd, table, va, at);
      match child
      case Err(e) => (t', Err(e))
      case Ok(c) => MapFrom(t', arenaEnd, c, at.Child(), leaf, va, raw)
  }

  /** map_4k, map_2m and map_1g: the level of the leaf decides the page size. */
  function Map(t: Tables, arenaEnd: nat, root: nat, leaf: Level, va: Qword, pa: Qword, permissions: Permissions)
    : (r: (Tables, Result<()>))
    requires !leaf.PML4?
    ensures |r.0.mem| == |t.mem|
  {
    if va % leaf.Span() != 0 || pa % leaf.Span() != 0 then (t, Err(OutOfRange))
    else MapFrom(t, arenaEnd, root, PML4, leaf, va, MakeEntry(pa, permissions, !leaf.PT?))
  }

  class PageTableBuilder {
    const memory: PhysicalMemory
    const root: Qword
    const arenaEnd: nat
    var next: nat

    ghost function State(): Tables
      reads this, memory
    {
      Tables(memory.bytes, next)
    }

    constructor (memory: PhysicalMemory, root: Qword, next: nat, arenaEnd: nat)
      requires root % PAGE_4K == 0 && next % PAGE_4K == 0 && arenaEnd % PAGE_4K == 0
      requires arenaEnd != 0 ==> next <= arenaEnd
      ensures this.memory == memory && this.root == root && this.next == next && this.arenaEnd == arenaEnd
    {
      this.memory, this.root, this.next, this.arenaEnd := memory, root, next, arenaEnd;
    }

    method Clear(table: nat)
      requires ContainsRange(memory.bytes, table, PAGE_4K)
      modifies memory
      ensures memory.bytes == ClearTable(old(memory.bytes), table)
    {
      ghost var was := memory.bytes;
      for i := 0 to 512
        invariant |memory.bytes| == |was|
        invariant forall a :: 0 <= a < |was| ==> memory.bytes[a] == if table <= a < table + 8 * i then 0 else was[a]
      {
        StoreBytes(memory.bytes, table + 8 * i, 8, 0);
        ZeroBytes();
        var _ := memory.Write(table + 8 * i, 8, 0);
      }
    }

    method EnsureChildTable(table: nat, va: Qword, level: Level) returns (r: Result<nat>)
      modifies this, memory
      ensures (State(), r) == EnsureChild(old(State()), arenaEnd, table, va, level)
    {
      var a := EntryAddress(table, va, level);
      var read := memory.Read(a, 8);
      if read.Err? {
        return read;
      }
      var f := Decode(LoadEntry(memory.bytes, a));
      if f.present {
        if IsLarge(f, level) {
          return Err(LogicError);
        }
        return Ok(f.address);
      }
      if !HasRoomForTable(Tables(memory.bytes, next), arenaEnd) {
        return Err(OutOfRange);
      }
      var child := next;
      next := next + PAGE_4K;
      Clear(child);
      var _ := memory.Write(a, 8, MakeEntry(child % TWO_64, TABLE_PERMISSIONS, false));
      return Ok(child);
    }

    method WriteLeafEntry(table: nat, va: Qword, level: Level, raw: Qword) returns (r: Result<()>)
      modifies this, memory
      ensures (State(), r) == WriteLeaf(old(State()), table, va, level, raw)
    {
      var a := EntryAddress(table, va, level);
      var read := memory.Read(a, 8);
      if read.Err? {
        return Err(read.error);
      }
      var f := Decode(LoadEntry(memory.bytes, a));
      if f.present && !IsLeaf(f, level) {
        return Err(LogicError);
      }
      r := memory.Write(a, 8, raw);
    }

    method Map4K(va: Qword, pa: Qword, permissions: Permissions) returns (r: Result<()>)
      modifies this, memory
      ensures (State(), r) == Map(old(State()), arenaEnd, root, PT, va, pa, permissions)
    {
      if va % PAGE_4K != 0 || pa % PAGE_4K != 0 {
        return Err(OutOfRange);
      }
      hide EnsureChild, WriteLeaf, MakeEntry;
      var pdpt := EnsureChildTable(root, va, PML4);
      if pdpt.Err? {
        return Err(pdpt.error);
      }
      var pd := EnsureChildTable(pdpt.value, va, PDPT);
      if pd.Err? {
        return Err(pd.error);
      }
      var pt := EnsureChildTable(pd.value, va, PD);
      if pt.Err? {
        return Err(pt.error);
      }
      r := WriteLeafEntry(pt.value, va, PT, MakeEntry(pa, permissions, false));
    }

    method Map2M(va: Qword, pa: Qword, permissions: Permissions) returns (r: Result<()>)
      modifies this, memory
      ensures (State(), r) == Map(old(State()), arenaEnd, root, PD, va, pa, permissions)
    {
      if va % PD.Span() != 0 || pa % PD.Span() != 0 {
        return Err(OutOfRange);
      }
      hide EnsureChild, WriteLeaf, MakeEntry;
      var pdpt := EnsureChildTable(root, va, PML4);
      if pdpt.Err? {
        return Err(pdpt.error);
      }
      var pd := EnsureChildTable(pdpt.value, va, PDPT);
      if pd.Err? {
        return Err(pd.error);
      }
      r := WriteLeafEntry(pd.value, va, PD, MakeEntry(pa, permissions, true));
    }

    method Map1G(va: Qword, pa: Qword, permissions: Permissions) returns (r: Result<()>)
      modifies this, memory
      ensures (State(), r) == Map(old(State()), arenaEnd, root, PDPT, va, pa, permissions)
    {
      if va % PDPT.Span() != 0 || pa % PDPT.Span() != 0 {
        return Err(OutOfRange);
      }
      hide EnsureChild, WriteLeaf, MakeEntry;
      var pdpt := EnsureChildTable(root, va, PML4);
      if pdpt.Err? {
        return Err(pdpt.error);
      }
      r := WriteLeafEntry(pdpt.value, va, PDPT, MakeEntry(pa, permissions, true));
    }
  }

  lemma {:induction false} ZeroBytes()
    ensures forall k: nat :: ByteAt(0, k) == 0
  {
    forall k: nat ensures ByteAt(0, k) == 0 { ZeroByte(k); }
  }

  lemma {:induction false} ZeroByte(k: nat)
    ensures ByteAt(0, k) == 0
  {
    if k > 0 { ZeroByte(k - 1); }
  }
}
