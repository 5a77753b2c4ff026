/** Address translation through the TLB, and the control state that tags its entries. */
module Mmu {
  import LittleEndian
  import opened MemoryBus
  import opened Results
  import opened Paging
  import opened PageTableWalker
  import opened Tlb

  /** A translated access: a physical address, or the fault or exception that the translation raised. */
  datatype Access = At(address: nat) | Failed(outcome: Outcome)

  function AccessFrom(outcome: Outcome, va: Qword): Access
  {
    if outcome.Translated? && outcome.translation.Covers(va) then At(outcome.translation.PhysicalAddress(va))
    else Failed(outcome)
  }

  datatype MmuState = MmuState(entries: Entries, mem: Memory)

  /** translate_enabled: a hit checks the cached permissions and sets the dirty bit late; a miss walks and fills. */
  function TranslateEnabled(m: MmuState, ps: PagingState, privilege: Privilege, va: Qword, kind: AccessKind): (MmuState, Access)
  {
    match Lookup(m.entries, va, ps.generation, ps.pcid)
    case Some(x) => HitAccess(m, x, ps, privilege, va, kind)
    case None =>
      var (mem', outcome) := Translate(m.mem, ps, va, kind, privilege);
      if outcome.Translated?
      then (MmuState(Insert(m.entries, outcome.translation, ps.generation, ps.pcid), mem'), AccessFrom(outcome, va))
      else (MmuState(m.entries, mem'), Failed(outcome))
  }

  function HitAccess(m: MmuState, x: Translation, ps: PagingState, privilege: Privilege, va: Qword, kind: AccessKind): (MmuState, Access)
  {
    match Denial(ps, x.permissions, kind, privilege)
    case Some(reason) => (m, Failed(Fault(va, kind, privilege, reason)))
    case None =>
      if kind == WRITE && !x.dirty then
        if !ContainsRange(m.mem, x.leafAddress, 8) then (m, Failed(Thrown(OutOfRange)))
        else
          var e := m.entries[Slot(va)];
          (MmuState(m.entries[Slot(va) := e.(translation := x.(dirty := true))],
                    StoreEntry(m.mem, x.leafAddress, WithDirty(LoadEntry(m.mem, x.leafAddress)))),
           AccessFrom(Translated(x), va))
      else (m, AccessFrom(Translated(x), va))
  }

  // ---------- Data accesses ----------

  function Next(va: Qword): Qword
  {
    (va + 1) % TWO_64
  }

  predicate WithinPage(va: Qword, n: nat)
  {
    va % PAGE_4K + n <= PAGE_4K
  }

  /** The bytes or addresses of a data access, or what stopped it. */
  datatype Data<T> = Done(value: T) | Stopped(outcome: Outcome)

  /** The translations of n consecutive bytes, in order, up to the first that fails. */
  function TranslateRange(m: MmuState, ps: PagingState, privilege: Privilege, va: Qword, n: nat, kind: AccessKind): (MmuState, Data<seq<nat>>)
    decreases n
  {
    if n == 0 then (m, Done([]))
    else
      var (m1, access) := TranslateEnabled(m, ps, privilege, va, kind);
      match access
      case Failed(outcome) => (m1, Stopped(outcome))
      case At(a) =>
        match TranslateRange(m1, ps, privilege, Next(va), n - 1, kind)
        case (m2, Stopped(outcome)) => (m2, Stopped(outcome))
        case (m2, Done(rest)) => (m2, Done([a] + rest))
  }

  /** Bytes of a value to their addresses, in order, up to the first off the bus. */
  function PutBytes(mem: Memory, addresses: seq<nat>, value: nat): (Memory, Data<()>)
    decreases |addresses|
  {
    if addresses == [] then (mem, Done(()))
    else if !ContainsRange(mem, addresses[0], 1) then (mem, Stopped(Thrown(OutOfRange)))
    else PutBytes(Store(mem, addresses[0], 1, value % 256), addresses[1..], value / 256)
  }

  /** write with paging on: one store inside a page; across pages every byte is translated before any is written. */
  function WriteData(m: MmuState, ps: PagingState, privilege: Privilege, va: Qword, n: nat, value: nat): (MmuState, Data<()>)
  {
    if WithinPage(va, n) then
      match TranslateEnabled(m, ps, privilege, va, WRITE)
      case (m1, Failed(outcome)) => (m1, Stopped(outcome))
      case (m1, At(a)) =>
        if ContainsRange(m1.mem, a, n) then (m1.(mem := Store(m1.mem, a, n, value)), Done(()))
        else (m1, Stopped(Thrown(OutOfRange)))
    else
      match TranslateRange(m, ps, privilege, va, n, WRITE)
      case (m1, Stopped(outcome)) => (m1, Stopped(outcome))
      case (m1, Done(addresses)) => var (mem', done) := PutBytes(m1.mem, addresses, value); (m1.(mem := mem'), done)
  }

  /** The bytes of a read across pages: each translated and then read. */
  function ReadRange(m: MmuState, ps: PagingState, privilege: Privilege, va: Qword, n: nat): (MmuState, Data<nat>)
    decreases n
  {
    if n == 0 then (m, Done(0))
    else
      match TranslateEnabled(m, ps, privilege, va, READ)
      case (m1, Failed(outcome)) => (m1, Stopped(outcome))
      case (m1, At(a)) =>
        if !ContainsRange(m1.mem, a, 1) then (m1, Stopped(Thrown(OutOfRange)))
        else
          match ReadRange(m1, ps, privilege, Next(va), n - 1)
          case (m2, Stopped(outcome)) => (m2, Stopped(outcome))
          case (m2, Done(rest)) => (m2, Done(m1.mem[a] + 256 * rest))
  }

  function ReadData(m: MmuState, ps: PagingState, privilege: Privilege, va: Qword, n: nat): (MmuState, Data<nat>)
  {
    if WithinPage(va, n) then
      match TranslateEnabled(m, ps, privilege, va, READ)
      case (m1, Failed(outcome)) => (m1, Stopped(outcome))
      case (m1, At(a)) =>
        if ContainsRange(m1.mem, a, n) then (m1, Done(Load(m1.mem, a, n))) else (m1, Stopped(Thrown(OutOfRange)))
    else ReadRange(m, ps, privilege, va, n)
  }

  class MemoryManagementUnit {
    const tlb: TranslationLookasideBuffer

    constructor ()
      ensures tlb.Valid() && fresh(tlb) && fresh(tlb.entries) && tlb.entries[..] == seq(SLOTS, _ => EMPTY_ENTRY)
    {
      tlb := new TranslationLookasideBuffer();
    }

    method TranslateEnabledAddress(memory: PhysicalMemory, ps: PagingState, privilege: Privilege, va: Qword, kind: AccessKind)
      returns (access: Access)
      requires tlb.Valid()
      modifies tlb, tlb.entries, memory
      ensures tlb.Valid()
      ensures (MmuState(tlb.entries[..], memory.bytes), access)
              == TranslateEnabled(MmuState(old(tlb.entries[..]), old(memory.bytes)), ps, privilege, va, kind)
    {
      var hit := tlb.LookupAddress(va, ps.generation, ps.pcid);
      if hit.Some? {
        var x := hit.value;
        var denial := Denial(ps, x.permissions, kind, privilege);
        if denial.Some? {
          return Failed(Fault(va, kind, privilege, denial.value));
        }
        if kind == WRITE && !x.dirty {
          var read := memory.Read(x.leafAddress, 8);
          if read.Err? {
            return Failed(Thrown(read.error));
          }
          var raw := LoadEntry(memory.bytes, x.leafAddress);
          StoreSame(memory.bytes, x.leafAddress);
          if WithDirty(raw) != raw {
            var _ := memory.Write(x.leafAddress, 8, WithDirty(raw));
          }
          var slot := Slot(va);
          ValidCountUpdate(tlb.entries[..], slot, tlb.entries[slot].(translation := x.(dirty := true)));
          tlb.entries[slot] := tlb.entries[slot].(translation := x.(dirty := true));
        }
        return At(x.PhysicalAddress(va));
      }
      var outcome := TranslateAddress(memory, ps, va, kind, privilege);
      if outcome.Translated? {
        tlb.InsertTranslation(outcome.translation, ps.generation, ps.pcid);
      }
      return AccessFrom(outcome, va);
    }

    ghost function State(memory: PhysicalMemory): (m: MmuState)
      requires tlb.Valid()
      reads tlb, tlb.entries, memory
    {
      MmuState(tlb.entries[..], memory.bytes)
    }

    method TranslateBytes(memory: PhysicalMemory, ps: PagingState, privilege: Privilege, va: Qword, n: nat, kind: AccessKind)
      returns (r: Data<seq<nat>>)
      requires tlb.Valid()
      modifies tlb, tlb.entries, memory
      ensures tlb.Valid() && (State(memory), r) == TranslateRange(old(State(memory)), ps, privilege, va, n, kind)
    {
      hide TranslateEnabled;
      var addresses: seq<nat> := [];
      var at := va;
      ghost var whole := TranslateRange(State(memory), ps, privilege, va, n, kind);
      RangeAfterNothing(whole);
      for i := 0 to n
        invariant tlb.Valid()
        invariant whole == RangeAfter(addresses, TranslateRange(State(memory), ps, privilege, at, n - i, kind))
      {
        var access := TranslateEnabledAddress(memory, ps, privilege, at, kind);
        if access.Failed? {
          return Stopped(access.outcome);
        }
        RangeAfterOne(addresses, access.address, TranslateRange(State(memory), ps, privilege, Next(at), n - i - 1, kind));
        addresses := addresses + [access.address];
        at := Next(at);
      }
      assert addresses + [] == addresses;
      return Done(addresses);
    }

    /** write with paging on. */
    method Write(memory: PhysicalMemory, ps: PagingState, privilege: Privilege, va: Qword, n: nat, value: nat) returns (r: Data<()>)
      requires tlb.Valid()
      modifies tlb, tlb.entries, memory
      ensures tlb.Valid() && (State(memory), r) == WriteData(old(State(memory)), ps, privilege, va, n, value)
    {
      hide TranslateEnabled, TranslateRange;
      if WithinPage(va, n) {
        var access := TranslateEnabledAddress(memory, ps, privilege, va, WRITE);
        if access.Failed? {
          return Stopped(access.outcome);
        }
        var written := memory.Write(access.address, n, value);
        return if written.Ok? then Done(()) else Stopped(Thrown(OutOfRange));
      }
      var translated := TranslateBytes(memory, ps, privilege, va, n, WRITE);
      if translated.Stopped? {
        return Stopped(translated.outcome);
      }
      var addresses, rest := translated.value, value;
      ghost var whole := PutBytes(memory.bytes, addresses, value);
      for i := 0 to |addresses|
        invariant tlb.Valid() && tlb.entries[..] == TranslateRange(old(State(memory)), ps, privilege, va, n, WRITE).0.entries
        invariant whole == PutBytes(memory.bytes, addresses[i..], rest)
      {
        var written := memory.Write(addresses[i], 1, rest % 256);
        if written.Err? {
          return Stopped(Thrown(OutOfRange));
        }
        assert addresses[i..][1..] == addresses[i + 1..];
        rest := rest / 256;
      }
      return Done(());
    }

    method ReadBytes(memory: PhysicalMemory, ps: PagingState, privilege: Privilege, va: Qword, n: nat) returns (r: Data<nat>)
      requires tlb.Valid()
      modifies tlb, tlb.entries, memory
      ensures tlb.Valid() && (State(memory), r) == ReadRange(old(State(memory)), ps, privilege, va, n)
    {
      hide TranslateEnabled, ReadAfter, Load, Next;
      var value: nat, weight: nat, at := 0, 1, va;
      ghost var whole := ReadRange(State(memory), ps, privilege, va, n);
      ReadAfterNothing(whole);
      for i := 0 to n
        invariant tlb.Valid()
        invariant whole == ReadAfter(value, weight, ReadRange(State(memory), ps, privilege, at, n - i))
      {
        var access := TranslateEnabledAddress(memory, ps, privilege, at, READ);
        if access.Failed? {
          ReadAfterStop(value, weight, (State(memory), Stopped(access.outcome)));
          return Stopped(access.outcome);
        }
        ReadAfterStop(value, weight, (State(memory), Stopped(Thrown(OutOfRange))));
        var byte := memory.Read(access.address, 1);
        if byte.Err? {
          return Stopped(Thrown(OutOfRange));
        }
        OneByte(memory.bytes, access.address);
        ReadAfterOne(value, weight, byte.value, ReadRange(State(memory), ps, privilege, Next(at), n - i - 1));
        value, weight, at := value + weight * byte.value, 256 * weight, Next(at);
      }
      ReadAfterEnd(value, weight, State(memory));
      return Done(value);
    }

    /** read with paging on. */
    method Read(memory: PhysicalMemory, ps: PagingState, privilege: Privilege, va: Qword, n: nat) returns (r: Data<nat>)
      requires tlb.Valid()
      modifies tlb, tlb.entries, memory
      ensures tlb.Valid() && (State(memory), r) == ReadData(old(State(memory)), ps, privilege, va, n)
    {
      hide TranslateEnabled, ReadRange, Load;
      if WithinPage(va, n) {
        var access := TranslateEnabledAddress(memory, ps, privilege, va, READ);
        if access.Failed? {
          return Stopped(access.outcome);
        }
        var value := memory.Read(access.address, n);
        return if value.Ok? then Done(value.value) else Stopped(Thrown(OutOfRange));
      }
      r := ReadBytes(memory, ps, privilege, va, n);
    }
  }

  /** The translations done so far, and then the rest. */
  ghost function RangeAfter(sofar: seq<nat>, rest: (MmuState, Data<seq<nat>>)): (MmuState, Data<seq<nat>>)
  {
    (rest.0, if rest.1.Stopped? then rest.1 else Done(sofar + rest.1.value))
  }

  lemma RangeAfterNothing(whole: (MmuState, Data<seq<nat>>))
    ensures RangeAfter([], whole) == whole
  {
    assert whole.1.Done? ==> [] + whole.1.value == whole.1.value;
  }

  lemma RangeAfterOne(sofar: seq<nat>, a: nat, rest: (MmuState, Data<seq<nat>>))
    ensures RangeAfter(sofar + [a], rest) == RangeAfter(sofar, (rest.0, if rest.1.Stopped? then rest.1 else Done([a] + rest.1.value)))
  {
    assert rest.1.Done? ==> (sofar + [a]) + rest.1.value == sofar + ([a] + rest.1.value);
  }

  /** The value read so far, and then the bytes above it. */
  ghost function ReadAfter(value: nat, weight: nat, rest: (MmuState, Data<nat>)): (MmuState, Data<nat>)
  {
    (rest.0, if rest.1.Stopped? then rest.1 else Done(value + weight * rest.1.value))
  }

  lemma ReadAfterNothing(whole: (MmuState, Data<nat>))
    ensures ReadAfter(0, 1, whole) == whole
  {
  }

  lemma ReadAfterStop(value: nat, weight: nat, rest: (MmuState, Data<nat>))
    requires rest.1.Stopped?
    ensures ReadAfter(value, weight, rest) == rest
  {
  }

  lemma ReadAfterEnd(value: nat, weight: nat, m: MmuState)
    ensures ReadAfter(value, weight, (m, Done(0))) == (m, Done(value))
  {
  }

  lemma ReadAfterOne(value: nat, weight: nat, b: nat, rest: (MmuState, Data<nat>))
    ensures ReadAfter(value + weight * b, 256 * weight, rest)
            == ReadAfter(value, weight, (rest.0, if rest.1.Stopped? then rest.1 else Done(b + 256 * rest.1.value)))
  {
    if rest.1.Done? {
      var v := rest.1.value;
      assert weight * (b + 256 * v) == weight * b + (256 * weight) * v;
    }
  }

  lemma OneByte(mem: Memory, a: nat)
    requires ContainsRange(mem, a, 1)
    ensures Load(mem, a, 1) == mem[a]
  {
    assert mem[a..a + 1] == [mem[a]] && [mem[a]][1..] == [];
    assert LittleEndian.FromBytes([mem[a]]) == mem[a] + 256 * LittleEndian.FromBytes([]);
  }

  // ---------- Control state ----------

  datatype FlushMode = FLUSH_CURRENT_CONTEXT | PRESERVE_CONTEXT

  function LoadCr3(ps: PagingState, root: Qword, pcid: nat, mode: FlushMode): Result<PagingState>
  {
    if root % PAGE_4K != 0 || pcid >= 4096 then Err(OutOfRange)
    else if !ps.pcidEnabled && pcid != 0 then Err(LogicError)
    else Ok(ps.(cr3 := root, pcid := pcid, generation := ps.generation + if mode.FLUSH_CURRENT_CONTEXT? then 1 else 0))
  }

  datatype ControlChange =
    | Enable | Disable
    | SetPcidEnabled(on: bool)
    | SetWriteProtect(on: bool)
    | SetExecuteDisable(on: bool)

  function Control(ps: PagingState, change: ControlChange): PagingState
  {
    var bumped := ps.(generation := ps.generation + 1);
    match change
    case Enable => bumped.(enabled := true)
    case Disable => bumped.(enabled := false)
    case SetPcidEnabled(on) =>
      if ps.pcidEnabled == on then ps else bumped.(pcidEnabled := on, pcid := if on then ps.pcid else 0)
    case SetWriteProtect(on) => bumped.(writeProtect := on)
    case SetExecuteDisable(on) => bumped.(executeDisable := on)
  }

  /** Loading CR3 succeeds exactly for an aligned root and a context that is known while contexts are on; only a flush starts a new generation. */
  lemma Cr3LoadIff(ps: PagingState, root: Qword, pcid: nat, mode: FlushMode)
    ensures var r := LoadCr3(ps, root, pcid, mode);
            && (r.Ok? <==> root % 4096 == 0 && pcid < 4096 && (pcid == 0 || ps.pcidEnabled))
            && (r == Err(LogicError) <==> root % 4096 == 0 && 0 < pcid < 4096 && !ps.pcidEnabled)
            && (r == Err(OutOfRange) <==> root % 4096 != 0 || pcid >= 4096)
            && (r.Ok? ==>
                  && r.value.cr3 == root && r.value.pcid == pcid
                  && (r.value.generation == ps.generation <==> mode.PRESERVE_CONTEXT?) && r.value.generation >= ps.generation
                  && (r.value.enabled, r.value.pcidEnabled, r.value.writeProtect, r.value.executeDisable)
                     == (ps.enabled, ps.pcidEnabled, ps.writeProtect, ps.executeDisable))
  {
  }

  /** Every change of mode starts a new generation, unless contexts already are as asked; switching contexts off goes back to the kernel's. */
  lemma ControlFlushes(ps: PagingState, change: ControlChange)
    ensures var ps' := Control(ps, change);
            && ps'.cr3 == ps.cr3
            && (ps'.generation > ps.generation <==> !(change.SetPcidEnabled? && change.on == ps.pcidEnabled))
            && (ps'.generation == ps.generation ==> ps' == ps)
            && ps'.enabled == (change.Enable? || (ps.enabled && !change.Disable?))
            && ps'.pcidEnabled == (if change.SetPcidEnabled? then change.on else ps.pcidEnabled)
            && ps'.pcid == (if change == SetPcidEnabled(false) && ps.pcidEnabled then 0 else ps.pcid)
            && ps'.writeProtect == (if change.SetWriteProtect? then change.on else ps.writeProtect)
            && ps'.executeDisable == (if change.SetExecuteDisable? then change.on else ps.executeDisable)
  {
  }

  /**
   What an access does to the TLB: nothing if it fails; a hit sets at most the dirty flag of its entry, on the first write; a miss caches
   the translation for the page, in its slot and no other.
   */
  lemma AccessFills(m: MmuState, ps: PagingState, privilege: Privilege, va: Qword, kind: AccessKind)
    ensures var (m', access) := TranslateEnabled(m, ps, privilege, va, kind);
            var hit := Lookup(m.entries, va, ps.generation, ps.pcid);
            && (access.Failed? && !access.outcome.Translated? ==> m'.entries == m.entries)
            && (access.At? && hit.Some? ==>
                  && (forall i :: 0 <= i < SLOTS && i != va / 4096 % 64 ==> m'.entries[i] == m.entries[i])
                  && Lookup(m'.entries, va, ps.generation, ps.pcid) == Some(hit.value.(dirty := hit.value.dirty || kind == WRITE)))
            && (access.At? && hit.None? ==>
                  var outcome := Translate(m.mem, ps, va, kind, privilege).1;
                  && outcome.Translated?
                  && (forall i :: 0 <= i < SLOTS && i != outcome.translation.virtualBase / 4096 % 64 ==> m'.entries[i] == m.entries[i])
                  && (outcome.translation.size > 0 && outcome.translation.virtualBase < TWO_64 ==>
                        Lookup(m'.entries, outcome.translation.virtualBase, ps.generation, ps.pcid) == Some(outcome.translation)))
  {
    hide Translate, Denial, LoadEntry, StoreEntry, WithDirty, ErrorCode;
  }
}

/** The TLB is invisible: it changes no result, no fault and no byte of memory. */
module TlbInvisibility {
  import opened Arithmetic
  import opened MemoryBus
  import opened Results
  import opened Paging
  import opened PageTableWalker
  import opened Tlb
  import opened Mmu

  // ---------- Marks along a path ----------

  /** Every entry that the walk of an address visits has its accessed bit set. */
  predicate PathAccessed(mem: Memory, xd: bool, table: nat, va: Qword, level: Level)
    decreases level.Rank()
  {
    var a := EntryAddress(table, va, level);
    ContainsRange(mem, a, 8) &&
    var f := Decode(LoadEntry(mem, a));
    (f.present && !HasReservedBits(f, level, xd) ==>
      f.accessed && (IsLeaf(f, level) || PathAccessed(mem, xd, f.address, va, level.Child())))
  }

  lemma {:induction false} MarksKeepPath(before: Memory, after: Memory, xd: bool, table: nat, va: Qword, level: Level)
    requires OnlyMarks(before, after) && table % 8 == 0 && PathAccessed(before, xd, table, va, level)
    ensures PathAccessed(after, xd, table, va, level)
    decreases level.Rank()
  {
    hide Decode, HasReservedBits, TableIndex, LoadEntry;
    var a := EntryAddress(table, va, level);
    var f, g := Decode(LoadEntry(before, a)), Decode(LoadEntry(after, a));
    assert WithoutMarks(f) == WithoutMarks(g) && (f.accessed ==> g.accessed);
    MarksMeanNothing(f, g, level, xd);
    AddressAligned(LoadEntry(before, a));
    if f.present && !HasReservedBits(f, level, xd) && !IsLeaf(f, level) {
      MarksKeepPath(before, after, xd, f.address, va, level.Child());
    }
  }

  /** A successful walk leaves its path accessed. */
  lemma {:induction false} TranslateMarksPath(mem: Memory, ps: PagingState, table: nat, va: Qword, level: Level,
                                             permissions: Permissions, kind: AccessKind, privilege: Privilege)
    requires table % 8 == 0
    requires TranslateFrom(mem, ps, table, va, level, permissions, kind, privilege).1.Translated?
    ensures PathAccessed(TranslateFrom(mem, ps, table, va, level, permissions, kind, privilege).0, ps.executeDisable, table, va, level)
    decreases level.Rank()
  {
    hide Decode, HasReservedBits, FrameOf, TableIndex, LoadEntry, StoreEntry, Marked, Denial, PageBase, ErrorCode, Level.Span;
    var a := EntryAddress(table, va, level);
    var raw := LoadEntry(mem, a);
    var f := Decode(raw);
    var leaf := IsLeaf(f, level);
    var mem1 := StoreEntry(mem, a, Marked(raw, leaf, kind));
    MarkedEntry(mem, a, leaf, kind, level, ps.executeDisable);
    if !leaf {
      hide LeafDirty, Predicted, Walk;
      var p := Restrict(permissions, f);
      TranslateMarksPath(mem1, ps, f.address, va, level.Child(), p, kind, privilege);
      TranslateFromFollowsWalk(mem1, ps, f.address, va, level.Child(), p, kind, privilege);
      MarkedStays(mem1, TranslateFrom(mem1, ps, f.address, va, level.Child(), p, kind, privilege).0, a, level, ps.executeDisable);
    }
  }

  lemma MarkedEntry(mem: Memory, a: nat, leaf: bool, kind: AccessKind, level: Level, xd: bool)
    requires ContainsRange(mem, a, 8) && a % 8 == 0
    ensures var f := Decode(LoadEntry(mem, a));
            var g := Decode(LoadEntry(StoreEntry(mem, a, Marked(LoadEntry(mem, a), leaf, kind)), a));
            && g.accessed && WithoutMarks(f) == WithoutMarks(g) && f.address % 8 == 0
            && HasReservedBits(g, level, xd) == HasReservedBits(f, level, xd)
  {
    hide Decode, HasReservedBits, LoadEntry, StoreEntry, Marked;
    var raw := LoadEntry(mem, a);
    AddressAligned(raw);
    MarkedDecodes(raw, leaf, kind);
    EntryAfterStore(mem, a, Marked(raw, leaf, kind), a);
    MarksMeanNothing(Decode(raw), Decode(Marked(raw, leaf, kind)), level, xd);
  }

  lemma MarkedStays(before: Memory, after: Memory, a: nat, level: Level, xd: bool)
    requires OnlyMarks(before, after) && ContainsRange(before, a, 8) && a % 8 == 0
    ensures var f, g := Decode(LoadEntry(before, a)), Decode(LoadEntry(after, a));
            && WithoutMarks(f) == WithoutMarks(g) && (f.accessed ==> g.accessed) && (f.dirty ==> g.dirty)
            && HasReservedBits(f, level, xd) == HasReservedBits(g, level, xd)
  {
    hide Decode, LoadEntry, HasReservedBits;
    assert WithoutMarks(Decode(LoadEntry(before, a))) == WithoutMarks(Decode(LoadEntry(after, a)));
    MarksMeanNothing(Decode(LoadEntry(before, a)), Decode(LoadEntry(after, a)), level, xd);
  }

  lemma SetAgain(raw: Qword)
    ensures Decode(raw).accessed ==> WithAccessed(raw) == raw
    ensures Decode(raw).accessed && Decode(raw).dirty ==> WithDirty(raw) == raw
  {
  }

  /** On a path that is already accessed, a walk writes at most the dirty bit of the leaf. */
  lemma {:induction false} SecondWalkMarks(mem: Memory, ps: PagingState, table: nat, va: Qword, level: Level,
                                          permissions: Permissions, kind: AccessKind, privilege: Privilege)
    requires PathAccessed(mem, ps.executeDisable, table, va, level)
    ensures var walked := Walk(mem, ps.executeDisable, table, va, level, permissions);
            TranslateFrom(mem, ps, table, va, level, permissions, kind, privilege).0 ==
            if walked.Mapped? && Denial(ps, walked.leaf.permissions, kind, privilege).None? && kind == WRITE
               && ContainsRange(mem, walked.leaf.entryAddress, 8)
            then StoreEntry(mem, walked.leaf.entryAddress, WithDirty(LoadEntry(mem, walked.leaf.entryAddress)))
            else mem
    decreases level.Rank()
  {
    hide Decode, HasReservedBits, FrameOf, TableIndex, LoadEntry, StoreEntry, WithDirty, WithAccessed, Denial, PageBase, ErrorCode, Level.Span;
    var a := EntryAddress(table, va, level);
    var raw := LoadEntry(mem, a);
    var f := Decode(raw);
    if f.present && !HasReservedBits(f, level, ps.executeDisable) {
      SetAgain(raw);
      StoreSame(mem, a);
      if !IsLeaf(f, level) {
        SecondWalkMarks(mem, ps, f.address, va, level.Child(), Restrict(permissions, f), kind, privilege);
      }
    }
  }

  // ---------- One walk speaks for its whole page ----------

  lemma SameQuotient(a: nat, b: nat, span: nat)
    requires span > 0 && a - a % span == b - b % span
    ensures a / span == b / span
  {
    var q := a / span;
    assert a == span * q + a % span;
    DivUnique(b, span, q, b % span);
  }

  lemma IndexSamePage(va: Qword, other: Qword, page: Level, level: Level)
    requires PageBase(va, page) == PageBase(other, page) && page.Rank() <= level.Rank()
    ensures TableIndex(va, level) == TableIndex(other, level)
  {
    SameQuotient(va, other, page.Span());
    if page != level {
      var k := level.Span() / page.Span();
      assert page.Span() * k == level.Span();
      DivDiv(va, page.Span(), k);
      DivDiv(other, page.Span(), k);
    }
  }

  lemma {:induction false} WalkSamePage(mem: Memory, xd: bool, table: nat, va: Qword, other: Qword, level: Level, permissions: Permissions)
    requires Walk(mem, xd, table, va, level, permissions).Mapped?
    requires var page := Walk(mem, xd, table, va, level, permissions).leaf.level; PageBase(va, page) == PageBase(other, page)
    ensures Walk(mem, xd, table, other, level, permissions) == Walk(mem, xd, table, va, level, permissions)
    ensures PathAccessed(mem, xd, table, other, level) == PathAccessed(mem, xd, table, va, level)
    ensures Walk(mem, xd, table, va, level, permissions).leaf.level.Rank() <= level.Rank()
    decreases level.Rank()
  {
    hide Decode, HasReservedBits, FrameOf, TableIndex, LoadEntry, PageBase;
    var a := EntryAddress(table, va, level);
    var f := Decode(LoadEntry(mem, a));
    if !IsLeaf(f, level) {
      WalkSamePage(mem, xd, f.address, va, other, level.Child(), Restrict(permissions, f));
    }
    IndexSamePage(va, other, Walk(mem, xd, table, va, level, permissions).leaf.level, level);
  }

  lemma {:induction false} LeafAccessed(mem: Memory, xd: bool, table: nat, va: Qword, level: Level, permissions: Permissions)
    requires PathAccessed(mem, xd, table, va, level) && Walk(mem, xd, table, va, level, permissions).Mapped?
    ensures var a := Walk(mem, xd, table, va, level, permissions).leaf.entryAddress;
            ContainsRange(mem, a, 8) && Decode(LoadEntry(mem, a)).accessed
    ensures !Walk(mem, xd, table, va, level, permissions).leaf.level.PML4?
    ensures table % 8 == 0 ==> Walk(mem, xd, table, va, level, permissions).leaf.entryAddress % 8 == 0
    decreases level.Rank()
  {
    hide Decode, HasReservedBits, FrameOf, TableIndex, LoadEntry;
    var a := EntryAddress(table, va, level);
    var f := Decode(LoadEntry(mem, a));
    AddressAligned(LoadEntry(mem, a));
    if !IsLeaf(f, level) {
      LeafAccessed(mem, xd, f.address, va, level.Child(), Restrict(permissions, f));
    }
  }

  lemma PageOfCanonical(va: Qword, other: Qword, level: Level)
    requires !level.PML4? && IsCanonical(va) && PageBase(va, level) <= other < PageBase(va, level) + level.Span()
    ensures IsCanonical(other) && PageBase(other, level) == PageBase(va, level)
  {
    var span, q := level.Span(), va / level.Span();
    assert va == span * q + va % span;
    assert PageBase(va, level) == span * q;
    DivUnique(other, span, q, other - span * q);
    match level
    case PT =>
    case PD =>
    case PDPT =>
  }

  lemma PageHoldsAddress(va: Qword, level: Level)
    ensures PageBase(va, level) <= va < PageBase(va, level) + level.Span()
  {
  }

  // ---------- Coherence ----------

  /** A cached translation says of an address exactly what the tables say now, and its path is marked. */
  ghost predicate Shows(x: Translation, mem: Memory, xd: bool, root: nat, va: Qword)
  {
    var walked := Walk(mem, xd, root, va, PML4, TABLE_PERMISSIONS);
    && walked.Mapped?
    && x.virtualBase == PageBase(va, walked.leaf.level) && x.size == walked.leaf.level.Span()
    && x.frameBase == walked.leaf.frame && x.permissions == walked.leaf.permissions
    && x.leafAddress == walked.leaf.entryAddress
    && PathAccessed(mem, xd, root, va, PML4)
    && (x.dirty ==> LeafDirty(walked, mem))
  }

  ghost predicate Faithful(x: Translation, mem: Memory, xd: bool, root: nat)
  {
    forall va: Qword :: x.Covers(va) ==> IsCanonical(va) && Shows(x, mem, xd, root, va)
  }

  /** Entries of the current generation are faithful to the root that their context is bound to. */
  ghost predicate Coherent(m: MmuState, ps: PagingState, roots: map<nat, Qword>)
  {
    && ps.pcid in roots && roots[ps.pcid] == ps.cr3
    && (forall p :: p in roots ==> roots[p] % PAGE_4K == 0)
    && forall i :: 0 <= i < SLOTS && m.entries[i].valid ==>
         && m.entries[i].generation <= ps.generation
         && (m.entries[i].generation == ps.generation ==>
               m.entries[i].pcid in roots
               && Faithful(m.entries[i].translation, m.mem, ps.executeDisable, roots[m.entries[i].pcid]))
  }

  lemma MarksKeepFaithful(x: Translation, before: Memory, after: Memory, xd: bool, root: nat)
    requires Faithful(x, before, xd, root) && OnlyMarks(before, after) && root % PAGE_4K == 0
    ensures Faithful(x, after, xd, root)
  {
    PageAligned(root);
    hide Walk, PathAccessed, OnlyMarks, IsCanonical, PageBase, Level.Span, Decode, LoadEntry;
    forall va: Qword | x.Covers(va)
      ensures IsCanonical(va) && Shows(x, after, xd, root, va)
    {
      assert Shows(x, before, xd, root, va);
      MarksKeepWalk(before, after, xd, root, va, PML4, TABLE_PERMISSIONS);
      MarksKeepPath(before, after, xd, root, va, PML4);
      LeafAccessed(before, xd, root, va, PML4, TABLE_PERMISSIONS);
      MarkedStays(before, after, x.leafAddress, PML4, xd);
    }
  }

  lemma MarksKeepCoherence(m: MmuState, after: Memory, ps: PagingState, roots: map<nat, Qword>)
    requires Coherent(m, ps, roots) && OnlyMarks(m.mem, after)
    ensures Coherent(MmuState(m.entries, after), ps, roots)
  {
    hide Faithful, OnlyMarks;
    forall i | 0 <= i < SLOTS && m.entries[i].valid && m.entries[i].generation == ps.generation
      ensures Faithful(m.entries[i].translation, after, ps.executeDisable, roots[m.entries[i].pcid])
    {
      MarksKeepFaithful(m.entries[i].translation, m.mem, after, ps.executeDisable, roots[m.entries[i].pcid]);
    }
  }

  // ---------- A hit ----------

  lemma HitMemory(m: MmuState, x: Translation, ps: PagingState, privilege: Privilege, va: Qword, kind: AccessKind)
    requires x.Covers(va) && IsCanonical(va) && Shows(x, m.mem, ps.executeDisable, ps.cr3, va)
    ensures HitAccess(m, x, ps, privilege, va, kind).0.mem == Translate(m.mem, ps, va, kind, privilege).0
    ensures ContainsRange(m.mem, x.leafAddress, 8)
  {
    hide Walk, TranslateFrom, PathAccessed, IsCanonical, PageBase, Level.Span, Decode, LoadEntry, StoreEntry, WithDirty,
         Denial, ErrorCode, AccessFrom, Slot;
    LeafAccessed(m.mem, ps.executeDisable, ps.cr3, va, PML4, TABLE_PERMISSIONS);
    var raw := LoadEntry(m.mem, x.leafAddress);
    SecondWalkMarks(m.mem, ps, ps.cr3, va, PML4, TABLE_PERMISSIONS, kind, privilege);
    SetAgain(raw);
    StoreSame(m.mem, x.leafAddress);
  }

  lemma HitResult(m: MmuState, x: Translation, ps: PagingState, privilege: Privilege, va: Qword, kind: AccessKind, outcome: Outcome, dirty: bool)
    requires x.Covers(va) && Shows(x, m.mem, ps.executeDisable, ps.cr3, va) && ContainsRange(m.mem, x.leafAddress, 8)
    requires outcome == Predicted(WalkRoot(m.mem, ps, va), ps, va, kind, privilege, dirty)
    ensures HitAccess(m, x, ps, privilege, va, kind).1 == AccessFrom(outcome, va)
  {
    hide Walk, PathAccessed, PageBase, Level.Span, LoadEntry, StoreEntry, WithDirty, LeafDirty, Denial, ErrorCode, Slot;
  }

  lemma HitIsFresh(m: MmuState, x: Translation, ps: PagingState, privilege: Privilege, va: Qword, kind: AccessKind)
    requires x.Covers(va) && IsCanonical(va) && ps.cr3 % PAGE_4K == 0 && Shows(x, m.mem, ps.executeDisable, ps.cr3, va)
    ensures var (mem', outcome) := Translate(m.mem, ps, va, kind, privilege);
            var (m', access) := HitAccess(m, x, ps, privilege, va, kind);
            access == AccessFrom(outcome, va) && m'.mem == mem'
  {
    hide *;
    TranslateFollowsWalk(m.mem, ps, va, kind, privilege);
    var (mem', outcome) := Translate(m.mem, ps, va, kind, privilege);
    HitMemory(m, x, ps, privilege, va, kind);
    HitResult(m, x, ps, privilege, va, kind, outcome, LeafDirty(WalkRoot(m.mem, ps, va), mem'));
  }

  lemma DirtyTwinIsFaithful(x: Translation, mem: Memory, xd: bool, root: nat)
    requires Faithful(x, mem, xd, root)
    requires ContainsRange(mem, x.leafAddress, 8) && Decode(LoadEntry(mem, x.leafAddress)).dirty
    ensures Faithful(x.(dirty := true), mem, xd, root)
  {
    hide Walk, PathAccessed, IsCanonical, PageBase, Level.Span, Decode, LoadEntry;
    forall va: Qword | x.(dirty := true).Covers(va)
      ensures IsCanonical(va) && Shows(x.(dirty := true), mem, xd, root, va)
    {
      assert x.Covers(va) && Shows(x, mem, xd, root, va);
    }
  }

  lemma HitKeepsCoherence(m: MmuState, ps: PagingState, roots: map<nat, Qword>, privilege: Privilege, va: Qword, kind: AccessKind)
    requires Coherent(m, ps, roots) && Lookup(m.entries, va, ps.generation, ps.pcid).Some?
    ensures var x := Lookup(m.entries, va, ps.generation, ps.pcid).value;
            Coherent(HitAccess(m, x, ps, privilege, va, kind).0, ps, roots)
  {
    hide Faithful, Denial, ErrorCode, OnlyMarks, Decode, LoadEntry, StoreEntry, Slot;
    var x := Lookup(m.entries, va, ps.generation, ps.pcid).value;
    var m' := HitAccess(m, x, ps, privilege, va, kind).0;
    if m' != m {
      FaithfulLeaf(x, m.mem, ps.executeDisable, ps.cr3, va);
      DirtyingOnlyMarks(m.mem, x.leafAddress);
      MarksKeepCoherence(m, m'.mem, ps, roots);
      DirtyTwinIsFaithful(x, m'.mem, ps.executeDisable, ps.cr3);
    }
  }

  lemma FaithfulLeaf(x: Translation, mem: Memory, xd: bool, root: nat, va: Qword)
    requires Faithful(x, mem, xd, root) && x.Covers(va) && root % PAGE_4K == 0
    ensures ContainsRange(mem, x.leafAddress, 8) && x.leafAddress % 8 == 0
  {
    PageAligned(root);
    hide Walk, PathAccessed, IsCanonical, PageBase, Level.Span, Decode, LoadEntry;
    LeafAccessed(mem, xd, root, va, PML4, TABLE_PERMISSIONS);
  }

  lemma DirtyingOnlyMarks(mem: Memory, a: nat)
    requires ContainsRange(mem, a, 8) && a % 8 == 0
    ensures var after := StoreEntry(mem, a, WithDirty(LoadEntry(mem, a)));
            OnlyMarks(mem, after) && Decode(LoadEntry(after, a)).dirty
  {
    hide OnlyMarks, Decode, LoadEntry, StoreEntry, WithDirty;
    MarkingOnlyMarks(mem, a, true, WRITE);
    MarkedDecodes(LoadEntry(mem, a), true, WRITE);
    EntryAfterStore(mem, a, WithDirty(LoadEntry(mem, a)), a);
  }

  // ---------- A miss ----------

  lemma ShowsWholePage(x: Translation, mem: Memory, xd: bool, root: nat, va: Qword)
    requires IsCanonical(va) && Shows(x, mem, xd, root, va)
    ensures Faithful(x, mem, xd, root) && x.Covers(va)
  {
    hide Walk, PathAccessed, IsCanonical, PageBase, Level.Span, Decode, LoadEntry;
    LeafAccessed(mem, xd, root, va, PML4, TABLE_PERMISSIONS);
    var walked := Walk(mem, xd, root, va, PML4, TABLE_PERMISSIONS);
    PageHoldsAddress(va, walked.leaf.level);
    forall other: Qword | x.Covers(other)
      ensures IsCanonical(other) && Shows(x, mem, xd, root, other)
    {
      PageOfCanonical(va, other, walked.leaf.level);
      WalkSamePage(mem, xd, root, va, other, PML4, TABLE_PERMISSIONS);
    }
  }

  lemma NewTranslationIsFaithful(mem: Memory, ps: PagingState, va: Qword, kind: AccessKind, privilege: Privilege)
    requires IsCanonical(va) && ps.cr3 % PAGE_4K == 0 && Translate(mem, ps, va, kind, privilege).1.Translated?
    ensures var (mem', outcome) := Translate(mem, ps, va, kind, privilege);
            Faithful(outcome.translation, mem', ps.executeDisable, ps.cr3) && outcome.translation.Covers(va)
  {
    TranslateFollowsWalk(mem, ps, va, kind, privilege);
    PageAligned(ps.cr3);
    hide Walk, TranslateFrom, PathAccessed, OnlyMarks, IsCanonical, PageBase, Level.Span, LeafDirty, Denial, Faithful;
    var (mem', outcome) := Translate(mem, ps, va, kind, privilege);
    TranslateMarksPath(mem, ps, ps.cr3, va, PML4, TABLE_PERMISSIONS, kind, privilege);
    assert WalkRoot(mem', ps, va) == WalkRoot(mem, ps, va);
    ShowsWholePage(outcome.translation, mem', ps.executeDisable, ps.cr3, va);
  }

  // ---------- Invisibility ----------

  /**
   For every coherent TLB and every access, translate_enabled gives the physical address, the
   fault with its reason and error code, and the memory that a fresh walk gives, and leaves the
   TLB coherent.
   */
  lemma TlbIsInvisible(m: MmuState, ps: PagingState, roots: map<nat, Qword>, privilege: Privilege, va: Qword, kind: AccessKind)
    requires Coherent(m, ps, roots)
    ensures var (m', access) := TranslateEnabled(m, ps, privilege, va, kind);
            var (mem', outcome) := Translate(m.mem, ps, va, kind, privilege);
            access == AccessFrom(outcome, va) && m'.mem == mem' && Coherent(m', ps, roots)
  {
    hide Faithful, TranslateFrom, Denial, ErrorCode, OnlyMarks, Decode, LoadEntry, StoreEntry, Slot, IsCanonical, HitAccess,
         Predicted, LeafDirty, WalkRoot;
    var hit := Lookup(m.entries, va, ps.generation, ps.pcid);
    if hit.Some? {
      HitShows(hit.value, m.mem, ps.executeDisable, ps.cr3, va);
      HitIsFresh(m, hit.value, ps, privilege, va, kind);
      HitKeepsCoherence(m, ps, roots, privilege, va, kind);
    } else if IsCanonical(va) {
      TranslateFollowsWalk(m.mem, ps, va, kind, privilege);
      var (mem', outcome) := Translate(m.mem, ps, va, kind, privilege);
      MarksKeepCoherence(m, mem', ps, roots);
      if outcome.Translated? {
        NewTranslationIsFaithful(m.mem, ps, va, kind, privilege);
      }
    }
  }

  lemma HitShows(x: Translation, mem: Memory, xd: bool, root: nat, va: Qword)
    requires Faithful(x, mem, xd, root) && x.Covers(va)
    ensures IsCanonical(va) && Shows(x, mem, xd, root, va)
  {
  }
}
