/** Reads and writes through the MMU, also across pages. */
module MmuData {
  import opened LittleEndian
  import opened MemoryBus
  import opened Results
  import opened Paging
  import opened PageTableWalker
  import opened Tlb
  import opened Mmu
  import opened TlbInvisibility

  // ---------- The machine without a TLB ----------

  function FlatRange(mem: Memory, ps: PagingState, privilege: Privilege, va: Qword, n: nat, kind: AccessKind): (Memory, Data<seq<nat>>)
    decreases n
  {
    if n == 0 then (mem, Done([]))
    else
      var (mem1, outcome) := Translate(mem, ps, va, kind, privilege);
      match AccessFrom(outcome, va)
      case Failed(o) => (mem1, Stopped(o))
      case At(a) =>
        match FlatRange(mem1, ps, privilege, (va + 1) % TWO_64, n - 1, kind)
        case (mem2, Stopped(o)) => (mem2, Stopped(o))
        case (mem2, Done(rest)) => (mem2, Done([a] + rest))
  }

  function FlatWrite(mem: Memory, ps: PagingState, privilege: Privilege, va: Qword, n: nat, value: nat): (Memory, Data<()>)
  {
    if WithinPage(va, n) then
      var (mem1, outcome) := Translate(mem, ps, va, WRITE, privilege);
      match AccessFrom(outcome, va)
      case Failed(o) => (mem1, Stopped(o))
      case At(a) => if ContainsRange(mem1, a, n) then (Store(mem1, a, n, value), Done(())) else (mem1, Stopped(Thrown(OutOfRange)))
    else
      match FlatRange(mem, ps, privilege, va, n, WRITE)
      case (mem1, Stopped(o)) => (mem1, Stopped(o))
      case (mem1, Done(addresses)) => PutBytes(mem1, addresses, value)
  }

  function FlatReadRange(mem: Memory, ps: PagingState, privilege: Privilege, va: Qword, n: nat): (Memory, Data<nat>)
    decreases n
  {
    if n == 0 then (mem, Done(0))
    else
      var (mem1, outcome) := Translate(mem, ps, va, READ, privilege);
      match AccessFrom(outcome, va)
      case Failed(o) => (mem1, Stopped(o))
      case At(a) =>
        if !ContainsRange(mem1, a, 1) then (mem1, Stopped(Thrown(OutOfRange)))
        else
          match FlatReadRange(mem1, ps, privilege, (va + 1) % TWO_64, n - 1)
          case (mem2, Stopped(o)) => (mem2, Stopped(o))
          case (mem2, Done(rest)) => (mem2, Done(mem1[a] + 256 * rest))
  }

  function FlatRead(mem: Memory, ps: PagingState, privilege: Privilege, va: Qword, n: nat): (Memory, Data<nat>)
  {
    if WithinPage(va, n) then
      var (mem1, outcome) := Translate(mem, ps, va, READ, privilege);
      match AccessFrom(outcome, va)
      case Failed(o) => (mem1, Stopped(o))
      case At(a) => if ContainsRange(mem1, a, n) then (mem1, Done(Load(mem1, a, n))) else (mem1, Stopped(Thrown(OutOfRange)))
    else FlatReadRange(mem, ps, privilege, va, n)
  }

  // ---------- The TLB stays invisible ----------

  lemma TranslationMarks(mem: Memory, ps: PagingState, va: Qword, kind: AccessKind, privilege: Privilege)
    requires ps.cr3 % PAGE_4K == 0
    ensures OnlyMarks(mem, Translate(mem, ps, va, kind, privilege).0)
  {
    if IsCanonical(va) {
      TranslateFollowsWalk(mem, ps, va, kind, privilege);
    } else {
      OnlyMarksReflexive(mem);
    }
    hide OnlyMarks;
  }

  lemma CoherentRoot(m: MmuState, ps: PagingState, roots: map<nat, Qword>)
    requires Coherent(m, ps, roots)
    ensures ps.cr3 % PAGE_4K == 0
  {
  }

  /** Translating a range of bytes with the TLB or without: same addresses or fault, same memory, and only marks change. */
  lemma {:induction false} RangeIsFlat(m: MmuState, ps: PagingState, roots: map<nat, Qword>, privilege: Privilege, va: Qword, n: nat, kind: AccessKind)
    requires Coherent(m, ps, roots)
    ensures var (m', r) := TranslateRange(m, ps, privilege, va, n, kind);
            && (m'.mem, r) == FlatRange(m.mem, ps, privilege, va, n, kind)
            && Coherent(m', ps, roots) && OnlyMarks(m.mem, m'.mem)
    decreases n
  {
    hide Coherent, TranslateEnabled, Translate, OnlyMarks;
    if n == 0 {
      OnlyMarksReflexive(m.mem);
    } else {
      CoherentRoot(m, ps, roots);
      TlbIsInvisible(m, ps, roots, privilege, va, kind);
      TranslationMarks(m.mem, ps, va, kind, privilege);
      var (m1, access) := TranslateEnabled(m, ps, privilege, va, kind);
      if access.At? {
        RangeIsFlat(m1, ps, roots, privilege, Next(va), n - 1, kind);
        OnlyMarksTransitive(m.mem, m1.mem, TranslateRange(m1, ps, privilege, Next(va), n - 1, kind).0.mem);
      }
    }
  }

  /** Writes with the TLB or without have the same result and leave the same memory, also across pages. */
  lemma WriteIsFlat(m: MmuState, ps: PagingState, roots: map<nat, Qword>, privilege: Privilege, va: Qword, n: nat, value: nat)
    requires Coherent(m, ps, roots)
    ensures var (m', r) := WriteData(m, ps, privilege, va, n, value);
            (m'.mem, r) == FlatWrite(m.mem, ps, privilege, va, n, value)
  {
    hide Coherent, TranslateEnabled, Translate, TranslateRange, FlatRange, PutBytes, Store;
    TlbIsInvisible(m, ps, roots, privilege, va, WRITE);
    RangeIsFlat(m, ps, roots, privilege, va, n, WRITE);
  }

  lemma {:induction false} ReadRangeIsFlat(m: MmuState, ps: PagingState, roots: map<nat, Qword>, privilege: Privilege, va: Qword, n: nat)
    requires Coherent(m, ps, roots)
    ensures var (m', r) := ReadRange(m, ps, privilege, va, n);
            && (m'.mem, r) == FlatReadRange(m.mem, ps, privilege, va, n) && Coherent(m', ps, roots)
    decreases n
  {
    hide Coherent, TranslateEnabled, Translate;
    if n > 0 {
      TlbIsInvisible(m, ps, roots, privilege, va, READ);
      var (m1, access) := TranslateEnabled(m, ps, privilege, va, READ);
      if access.At? && ContainsRange(m1.mem, access.address, 1) {
        ReadRangeIsFlat(m1, ps, roots, privilege, Next(va), n - 1);
      }
    }
  }

  /** Reads with the TLB or without give the same value or fault and leave the same memory. */
  lemma ReadIsFlat(m: MmuState, ps: PagingState, roots: map<nat, Qword>, privilege: Privilege, va: Qword, n: nat)
    requires Coherent(m, ps, roots)
    ensures var (m', r) := ReadData(m, ps, privilege, va, n);
            (m'.mem, r) == FlatRead(m.mem, ps, privilege, va, n) && Coherent(m', ps, roots)
  {
    hide Coherent, TranslateEnabled, Translate, ReadRange, FlatReadRange, Load;
    TlbIsInvisible(m, ps, roots, privilege, va, READ);
    ReadRangeIsFlat(m, ps, roots, privilege, va, n);
  }

  // ---------- One translation speaks for the bytes of a page ----------

  /** A write that is allowed leaves the dirty bit of its leaf set, and says so. */
  lemma {:induction false} WriteSetsDirty(mem: Memory, ps: PagingState, table: nat, va: Qword, level: Level, permissions: Permissions,
                                          privilege: Privilege)
    ensures var outcome := TranslateFrom(mem, ps, table, va, level, permissions, WRITE, privilege).1;
            outcome.Translated? ==> outcome.translation.dirty
    decreases level.Rank()
  {
    hide Decode, HasReservedBits, FrameOf, TableIndex, LoadEntry, StoreEntry, Marked, Denial, PageBase, ErrorCode, Level.Span;
    var a := EntryAddress(table, va, level);
    if Descends(mem, ps, a, level) {
      var raw := LoadEntry(mem, a);
      var f := Decode(raw);
      DescendsDown(mem, ps, a, level);
      WriteSetsDirty(StoreEntry(mem, a, Marked(raw, false, WRITE)), ps, f.address, va, level.Child(), Restrict(permissions, f), privilege);
    } else if ContainsRange(mem, a, 8) {
      MarkedDecodes(LoadEntry(mem, a), true, WRITE);
    }
  }

  lemma DescendsDown(mem: Memory, ps: PagingState, a: nat, level: Level)
    requires Descends(mem, ps, a, level)
    ensures !level.PT? && level.Child().Rank() < level.Rank()
  {
  }

  /** The tables are settled for a page: accesses of this kind to it are allowed and set no more bits. */
  ghost predicate Settled(x: Translation, mem: Memory, ps: PagingState, kind: AccessKind, privilege: Privilege)
  {
    && ps.cr3 % PAGE_4K == 0 && Faithful(x, mem, ps.executeDisable, ps.cr3)
    && Denial(ps, x.permissions, kind, privilege).None? && (kind == WRITE ==> x.dirty)
  }

  lemma TranslatedIsSettled(mem: Memory, ps: PagingState, va: Qword, kind: AccessKind, privilege: Privilege)
    requires ps.cr3 % PAGE_4K == 0 && Translate(mem, ps, va, kind, privilege).1.Translated?
    ensures var (mem1, outcome) := Translate(mem, ps, va, kind, privilege);
            Settled(outcome.translation, mem1, ps, kind, privilege) && outcome.translation.Covers(va)
  {
    NewTranslationIsFaithful(mem, ps, va, kind, privilege);
    TranslateFollowsWalk(mem, ps, va, kind, privilege);
    if kind == WRITE {
      WriteSetsDirty(mem, ps, ps.cr3, va, PML4, TABLE_PERMISSIONS, privilege);
    }
    hide Walk, TranslateFrom, OnlyMarks, IsCanonical, PageBase, Level.Span, LeafDirty, Denial, Faithful;
  }

  lemma SettledAccess(x: Translation, mem: Memory, ps: PagingState, va: Qword, kind: AccessKind, privilege: Privilege)
    requires Settled(x, mem, ps, kind, privilege) && x.Covers(va)
    ensures var (mem', outcome) := Translate(mem, ps, va, kind, privilege); mem' == mem && AccessFrom(outcome, va) == At(x.PhysicalAddress(va))
  {
    hide Shows, Translate, IsCanonical, Denial, Slot;
    var m := MmuState(seq(SLOTS, _ => EMPTY_ENTRY), mem);
    HitShows(x, mem, ps.executeDisable, ps.cr3, va);
    HitIsFresh(m, x, ps, privilege, va, kind);
  }

  function Consecutive(a: nat, n: nat): seq<nat>
  {
    seq(n, i requires 0 <= i < n => a + i)
  }

  lemma NextInPage(va: Qword, n: nat)
    requires n > 1 && va % PAGE_4K + n <= PAGE_4K
    ensures (va + 1) % TWO_64 == va + 1 && (va + 1) % PAGE_4K == va % PAGE_4K + 1
  {
    Arithmetic.DivUnique(va + 1, PAGE_4K, va / PAGE_4K, va % PAGE_4K + 1);
    assert TWO_64 % PAGE_4K == 0 && TWO_64 == PAGE_4K * 0x10_0000_0000_0000;
  }

  import Arithmetic

  /** The bytes of one page have consecutive physical addresses, found by its first translation. */
  lemma {:induction false} SettledRange(x: Translation, mem: Memory, ps: PagingState, va: Qword, n: nat, kind: AccessKind, privilege: Privilege)
    requires Settled(x, mem, ps, kind, privilege) && n > 0 && va % PAGE_4K + n <= PAGE_4K && x.Covers(va) && va - x.virtualBase + n <= x.size
    ensures FlatRange(mem, ps, privilege, va, n, kind) == (mem, Done(Consecutive(x.PhysicalAddress(va), n)))
    decreases n
  {
    hide Settled, Translate;
    SettledAccess(x, mem, ps, va, kind, privilege);
    if n > 1 {
      NextInPage(va, n);
      SettledRange(x, mem, ps, va + 1, n - 1, kind, privilege);
    }
    var a := x.PhysicalAddress(va);
    assert Consecutive(a, n) == [a] + (if n > 1 then Consecutive(a + 1, n - 1) else []);
  }

  lemma {:induction false} SettledRead(x: Translation, mem: Memory, ps: PagingState, va: Qword, n: nat, privilege: Privilege)
    requires Settled(x, mem, ps, READ, privilege) && n > 0 && va % PAGE_4K + n <= PAGE_4K && x.Covers(va) && va - x.virtualBase + n <= x.size
    ensures var a := x.PhysicalAddress(va);
            FlatReadRange(mem, ps, privilege, va, n)
            == (mem, if ContainsRange(mem, a, n) then Done(Load(mem, a, n)) else Stopped(Thrown(OutOfRange)))
    decreases n
  {
    hide Settled, Translate, Load;
    SettledAccess(x, mem, ps, va, READ, privilege);
    var a := x.PhysicalAddress(va);
    if n > 1 {
      NextInPage(va, n);
      SettledRead(x, mem, ps, va + 1, n - 1, privilege);
    }
    if ContainsRange(mem, a, n) {
      LoadSplits(mem, a, n);
    }
  }

  lemma LoadSplits(mem: Memory, a: nat, n: nat)
    requires n > 0 && ContainsRange(mem, a, n)
    ensures Load(mem, a, n) == mem[a] + 256 * Load(mem, a + 1, n - 1) && Load(mem, a + n, 0) == 0
  {
    assert mem[a..a + n][0] == mem[a] && mem[a..a + n][1..] == mem[a + 1..a + n];
    assert mem[a + n..a + n] == [];
  }

  /** A page of any size holds whole 4 KiB pages. */
  lemma RoomInPage(x: Translation, mem: Memory, ps: PagingState, va: Qword, n: nat)
    requires Faithful(x, mem, ps.executeDisable, ps.cr3) && x.Covers(va) && va % PAGE_4K + n <= PAGE_4K
    ensures va - x.virtualBase + n <= x.size
  {
    hide Walk, PathAccessed, LeafDirty, IsCanonical, Faithful;
    HitShows(x, mem, ps.executeDisable, ps.cr3, va);
    LeafAccessed(mem, ps.executeDisable, ps.cr3, va, PML4, TABLE_PERMISSIONS);
    var level := Walk(mem, ps.executeDisable, ps.cr3, va, PML4, TABLE_PERMISSIONS).leaf.level;
    RoomInSpan(va, 1, n);
    RoomInSpan(va, 512, n);
    RoomInSpan(va, 0x4_0000, n);
    assert va - x.virtualBase == va % level.Span();
    hide Shows;
    match level
    case PT =>
    case PD =>
    case PDPT =>
  }

  lemma RoomInSpan(va: nat, k: nat, n: nat)
    requires k > 0 && va % PAGE_4K + n <= PAGE_4K
    ensures va % (PAGE_4K * k) + n <= PAGE_4K * k
  {
    var r := va % (PAGE_4K * k);
    Arithmetic.ModMod(va, PAGE_4K, k);
    Arithmetic.DivModMod(va, PAGE_4K, k);
    assert r == PAGE_4K * (r / PAGE_4K) + r % PAGE_4K && r / PAGE_4K < k;
    Arithmetic.MulOrder(PAGE_4K, r / PAGE_4K + 1, k);
  }

  /** Every read, within a page or across pages, is the read of its bytes one by one, each at the physical address of its own translation. */
  lemma ReadIsByteByByte(mem: Memory, ps: PagingState, privilege: Privilege, va: Qword, n: nat)
    requires ps.cr3 % PAGE_4K == 0 && n > 0
    ensures FlatRead(mem, ps, privilege, va, n) == FlatReadRange(mem, ps, privilege, va, n)
  {
    hide Translate, Faithful, Denial;
    if va % PAGE_4K + n <= PAGE_4K {
      var (mem1, outcome) := Translate(mem, ps, va, READ, privilege);
      if outcome.Translated? {
        TranslatedIsSettled(mem, ps, va, READ, privilege);
        var x := outcome.translation;
        RoomInPage(x, mem1, ps, va, n);
        SettledRead(x, mem1, ps, va, n, privilege);
        SettledAccess(x, mem1, ps, va, READ, privilege);
        hide Settled;
      }
    }
  }

  /** Bytes to consecutive addresses are one store. */
  lemma {:induction false} PutBytesIsStore(mem: Memory, a: nat, n: nat, value: nat)
    requires ContainsRange(mem, a, n)
    ensures PutBytes(mem, Consecutive(a, n), value) == (Store(mem, a, n, value), Done(()))
    decreases n
  {
    if n > 0 {
      var mem1 := Store(mem, a, 1, value % 256);
      assert Consecutive(a, n)[1..] == Consecutive(a + 1, n - 1);
      PutBytesIsStore(mem1, a + 1, n - 1, value / 256);
      var mem2 := Store(mem1, a + 1, n - 1, value / 256);
      StoreBytes(mem, a, 1, value % 256);
      StoreBytes(mem1, a + 1, n - 1, value / 256);
      StoreBytes(mem, a, n, value);
      hide Store;
      forall b | 0 <= b < |mem| ensures mem2[b] == Store(mem, a, n, value)[b] {
        if a < b < a + n {
          assert ByteAt(value, b - a) == ByteAt(value / 256, b - a - 1);
        }
      }
      assert mem2 == Store(mem, a, n, value);
    } else {
      assert Store(mem, a, 0, value) == mem;
    }
  }

  /**
   Every write that succeeds, within a page or across pages, has translated each of its bytes and then put each at its own
   physical address; inside a page it fails as a whole, with nothing written, if any byte is off the bus.
   */
  lemma WriteIsByteByByte(mem: Memory, ps: PagingState, privilege: Privilege, va: Qword, n: nat, value: nat)
    requires ps.cr3 % PAGE_4K == 0 && n > 0
    ensures var (after, r) := FlatWrite(mem, ps, privilege, va, n, value);
            var (mem1, ranged) := FlatRange(mem, ps, privilege, va, n, WRITE);
            && (ranged.Stopped? ==> after == mem1 && r == Stopped(ranged.outcome))
            && (ranged.Done? && (r.Done? || va % PAGE_4K + n > PAGE_4K) ==> (after, r) == PutBytes(mem1, ranged.value, value))
            && (ranged.Done? && r.Stopped? ==> r.outcome == Thrown(OutOfRange) && (va % PAGE_4K + n <= PAGE_4K ==> after == mem1))
  {
    hide Translate, Faithful, Denial, Store, PutBytes;
    var (mem1, outcome) := Translate(mem, ps, va, WRITE, privilege);
    if va % PAGE_4K + n > PAGE_4K {
      var (mem2, ranged) := FlatRange(mem, ps, privilege, va, n, WRITE);
      if ranged.Done? { PutBytesOnlyThrows(mem2, ranged.value, value); }
    } else if outcome.Translated? {
      TranslatedIsSettled(mem, ps, va, WRITE, privilege);
      var x := outcome.translation;
      RoomInPage(x, mem1, ps, va, n);
      SettledRange(x, mem1, ps, va, n, WRITE, privilege);
      SettledAccess(x, mem1, ps, va, WRITE, privilege);
      hide Settled;
      if ContainsRange(mem1, x.PhysicalAddress(va), n) {
        PutBytesIsStore(mem1, x.PhysicalAddress(va), n, value);
      }
    }
  }

  // ---------- Writes are all or nothing ----------

  lemma {:induction false} PutBytesOnlyThrows(mem: Memory, addresses: seq<nat>, value: nat)
    ensures PutBytes(mem, addresses, value).1.Stopped? ==> PutBytes(mem, addresses, value).1.outcome == Thrown(OutOfRange)
    decreases |addresses|
  {
    if addresses != [] && ContainsRange(mem, addresses[0], 1) {
      PutBytesOnlyThrows(Store(mem, addresses[0], 1, value % 256), addresses[1..], value / 256);
    }
  }

  /** A write that page-faults, on whichever of its bytes, has written none of them: only accessed and dirty bits may change. */
  lemma FaultingWriteWritesNothing(m: MmuState, ps: PagingState, roots: map<nat, Qword>, privilege: Privilege, va: Qword, n: nat, value: nat)
    requires Coherent(m, ps, roots)
    requires var r := WriteData(m, ps, privilege, va, n, value).1; r.Stopped? && r.outcome.PageFault?
    ensures OnlyMarks(m.mem, WriteData(m, ps, privilege, va, n, value).0.mem)
  {
    hide Coherent, TranslateEnabled, Translate, TranslateRange, FlatRange, PutBytes, Store, OnlyMarks;
    CoherentRoot(m, ps, roots);
    if WithinPage(va, n) {
      TlbIsInvisible(m, ps, roots, privilege, va, WRITE);
      TranslationMarks(m.mem, ps, va, WRITE, privilege);
    } else {
      RangeIsFlat(m, ps, roots, privilege, va, n, WRITE);
      var (m1, translated) := TranslateRange(m, ps, privilege, va, n, WRITE);
      if translated.Done? {
        PutBytesOnlyThrows(m1.mem, translated.value, value);
      }
    }
  }

  ghost predicate AllDifferent(addresses: seq<nat>)
  {
    forall i, j :: 0 <= i < j < |addresses| ==> addresses[i] != addresses[j]
  }

  /** Bytes that reach different addresses: each address holds its byte, and every other byte is as it was. */
  lemma {:induction false} PutBytesEffect(mem: Memory, addresses: seq<nat>, value: nat, a: nat)
    requires AllDifferent(addresses) && PutBytes(mem, addresses, value).1.Done? && a < |mem|
    ensures |PutBytes(mem, addresses, value).0| == |mem|
    ensures a !in addresses ==> PutBytes(mem, addresses, value).0[a] == mem[a]
    ensures forall i: nat :: i < |addresses| && addresses[i] == a ==> PutBytes(mem, addresses, value).0[a] == ByteAt(value, i)
    decreases |addresses|
  {
    if addresses != [] {
      var mem1 := Store(mem, addresses[0], 1, value % 256);
      StoreBytes(mem, addresses[0], 1, value % 256);
      PutBytesEffect(mem1, addresses[1..], value / 256, a);
      assert addresses == [addresses[0]] + addresses[1..];
      forall i: nat | i < |addresses| && addresses[i] == a ensures PutBytes(mem, addresses, value).0[a] == ByteAt(value, i) {
        if i > 0 {
          assert addresses[1..][i - 1] == a;
        }
      }
    }
  }
}
