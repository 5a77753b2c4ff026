/**
 Vocabulary of x86-64 4-level paging: addresses, table levels, raw page-table entries, and
 the results of a translation. Bit positions are those of the Intel SDM volume 3A, section 4.5.
 An entry is a raw 64-bit number; its fields are read by division and remainder, and the bit
 updates are stated by what they do to the decoded fields.
 */
module Paging {
  import opened Arithmetic
  import opened LittleEndian
  import opened MemoryBus
  import opened Results

  const TWO_64 := 0x1_0000_0000_0000_0000
  const TWO_48 := 0x1_0000_0000_0000
  const TWO_52 := 0x10_0000_0000_0000
  const NX_BIT := 0x8000_0000_0000_0000
  const PAGE_4K := 4096

  type Qword = v: int | 0 <= v < TWO_64

  datatype Level = PT | PD | PDPT | PML4 {
    /** Bytes of linear address that one entry at this level covers. */
    function Span(): (n: nat)
      ensures n > 0
    {
      match this
      case PT => 0x1000
      case PD => 0x20_0000
      case PDPT => 0x4000_0000
      case PML4 => 0x80_0000_0000
    }

    function Rank(): nat
    {
      match this
      case PT => 1
      case PD => 2
      case PDPT => 3
      case PML4 => 4
    }

    function Child(): Level
      requires !PT?
    {
      match this
      case PD => PT
      case PDPT => PD
      case PML4 => PDPT
    }
  }

  datatype AccessKind = READ | WRITE | EXECUTE

  datatype Privilege = RING0 | RING1 | RING2 | RING3

  datatype FaultReason = NOT_PRESENT | WRITE_PROTECTION | USER_SUPERVISOR | EXECUTE_DISABLE | RESERVED_BIT

  datatype Permissions = Permissions(writable: bool, user: bool, executable: bool)

  const TABLE_PERMISSIONS := Permissions(true, true, true)

  // ---------- Addresses ----------

  predicate IsCanonical(va: Qword)
  {
    va < 0x8000_0000_0000 || va >= TWO_64 - 0x8000_0000_0000
  }

  /** The index of the entry that covers an address at a level. */
  function TableIndex(va: Qword, level: Level): (i: nat)
    ensures i < 512
  {
    va / level.Span() % 512
  }

  /** Number of the entry-sized piece of the 48-bit address space that holds an address. */
  function Piece(va: Qword, level: Level): nat
  {
    va % TWO_48 / level.Span()
  }

  function PageBase(va: Qword, level: Level): Qword
  {
    va - va % level.Span()
  }

  /** The piece at a level refines the piece one level up by exactly the table index. */
  lemma PieceSplits(va: Qword, level: Level)
    ensures level.PML4? ==> Piece(va, level) == TableIndex(va, level)
    ensures !level.PML4? ==>
              Piece(va, level) ==
              512 * Piece(va, if level.PT? then PD else if level.PD? then PDPT else PML4) + TableIndex(va, level)
  {
    match level
    case PT => PieceOfSpan(va, 0x1000, 0x800_0000);
    case PD => PieceOfSpan(va, 0x20_0000, 0x4_0000);
    case PDPT => PieceOfSpan(va, 0x4000_0000, 512);
    case PML4 => DivModMod(va, 0x80_0000_0000, 512);
  }

  lemma PieceOfSpan(va: Qword, span: nat, pieces: nat)
    requires span > 0 && pieces > 0 && span * 512 * pieces == TWO_48
    ensures span * 512 > 0
    ensures va % TWO_48 / span == 512 * (va % TWO_48 / (span * 512)) + va / span % 512
  {
    var x := va % TWO_48;
    assert span * (512 * pieces) == TWO_48;
    DivModMod(va, span, 512 * pieces);
    ModMod(va / span, 512, pieces);
    DivDiv(x, span, 512);
    assert x / span % 512 == va / span % 512;
  }

  // ---------- Raw entries ----------

  /** The architectural fields of an entry. Bits 3, 4, 8 and 9 to 11 are carried but mean nothing to the walker. */
  datatype Fields = Fields(
    present: bool, writable: bool, user: bool, accessed: bool, dirty: bool, huge: bool,
    reservedHigh: bool, noExecute: bool, address: nat)

  predicate Bit(raw: Qword, weight: nat)
    requires weight > 0
  {
    raw / weight % 2 == 1
  }

  function Decode(raw: Qword): Fields
  {
    Fields(Bit(raw, 1), Bit(raw, 2), Bit(raw, 4), Bit(raw, 32), Bit(raw, 64), Bit(raw, 128),
           raw / TWO_52 % 2048 != 0, Bit(raw, NX_BIT), raw % TWO_52 / PAGE_4K * PAGE_4K)
  }

  function Set(raw: Qword, weight: nat): (r: int)
    requires weight > 0
  {
    if Bit(raw, weight) then raw else raw + weight
  }

  function Put(raw: Qword, weight: nat, on: bool): int
    requires weight > 0
  {
    if on then Set(raw, weight) else if Bit(raw, weight) then raw - weight else raw
  }

  // An entry cut into its fields; used to prove what the bit operations do.

  type OneBit = b: int | 0 <= b < 2

  datatype Parts = Parts(present: OneBit, writable: OneBit, user: OneBit, low: nat, accessed: OneBit, dirty: OneBit,
                         huge: OneBit, middle: nat, frame: nat, high: nat, noExecute: OneBit)

  ghost predicate InWidth(p: Parts)
  {
    p.low < 4 && p.middle < 16 && p.frame < 0x100_0000_0000 && p.high < 2048
  }

  ghost function Join(p: Parts): Qword
    requires InWidth(p)
  {
    p.present + 2 * p.writable + 4 * p.user + 8 * p.low + 32 * p.accessed + 64 * p.dirty + 128 * p.huge
    + 256 * p.middle + 4096 * p.frame + TWO_52 * p.high + NX_BIT * p.noExecute
  }

  lemma Cut(raw: Qword) returns (p: Parts)
    ensures InWidth(p) && Join(p) == raw
  {
    var r1 := raw / 2;
    var r2 := r1 / 2;
    var r3 := r2 / 2;
    var r5 := r3 / 4;
    var r6 := r5 / 2;
    var r7 := r6 / 2;
    var r8 := r7 / 2;
    var r12 := r8 / 16;
    var r52 := r12 / 0x100_0000_0000;
    var r63 := r52 / 2048;
    p := Parts(raw % 2, r1 % 2, r2 % 2, r3 % 4, r5 % 2, r6 % 2, r7 % 2, r8 % 16, r12 % 0x100_0000_0000, r52 % 2048, r63);
  }

  lemma BitOfSum(raw: Qword, weight: nat, below: nat, bit: OneBit, above: nat)
    requires weight > below && raw == weight * (bit + 2 * above) + below
    ensures Bit(raw, weight) == (bit == 1)
  {
    DivUnique(raw, weight, bit + 2 * above, below);
  }

  lemma LowBitsOfJoin(p: Parts)
    requires InWidth(p)
    ensures Bit(Join(p), 1) == (p.present == 1) && Bit(Join(p), 2) == (p.writable == 1) && Bit(Join(p), 4) == (p.user == 1)
    ensures Bit(Join(p), 32) == (p.accessed == 1) && Bit(Join(p), 64) == (p.dirty == 1) && Bit(Join(p), 128) == (p.huge == 1)
  {
    hide Bit;
    var raw := Join(p);
    var a12 := p.frame + 0x100_0000_0000 * (p.high + 2048 * p.noExecute);
    var a8 := p.middle + 16 * a12;
    var a7 := p.huge + 2 * a8;
    var a6 := p.dirty + 2 * a7;
    var a3 := p.low + 4 * (p.accessed + 2 * a6);
    var a2 := p.user + 2 * a3;
    var a1 := p.writable + 2 * a2;
    var b5 := p.present + 2 * p.writable + 4 * p.user + 8 * p.low;
    BitOfSum(raw, 1, 0, p.present, a1);
    BitOfSum(raw, 2, p.present, p.writable, a2);
    BitOfSum(raw, 4, p.present + 2 * p.writable, p.user, a3);
    BitOfSum(raw, 32, b5, p.accessed, a6);
    BitOfSum(raw, 64, b5 + 32 * p.accessed, p.dirty, a7);
    BitOfSum(raw, 128, b5 + 32 * p.accessed + 64 * p.dirty, p.huge, a8);
  }

  lemma HighBitsOfJoin(p: Parts)
    requires InWidth(p)
    ensures Join(p) / TWO_52 % 2048 == p.high && Bit(Join(p), NX_BIT) == (p.noExecute == 1)
    ensures Join(p) % TWO_52 / PAGE_4K == p.frame
  {
    hide Bit;
    var raw := Join(p);
    var b12 := p.present + 2 * p.writable + 4 * p.user + 8 * p.low + 32 * p.accessed + 64 * p.dirty + 128 * p.huge
               + 256 * p.middle;
    var a52 := p.high + 2048 * p.noExecute;
    BitOfSum(raw, NX_BIT, b12 + 4096 * p.frame + TWO_52 * p.high, p.noExecute, 0);
    DivUnique(raw, TWO_52, a52, b12 + 4096 * p.frame);
    DivUnique(a52, 2048, p.noExecute, p.high);
    DivUnique(b12 + 4096 * p.frame, 4096, p.frame, b12);
  }

  lemma DecodeJoin(p: Parts)
    requires InWidth(p)
    ensures Decode(Join(p)) ==
            Fields(p.present == 1, p.writable == 1, p.user == 1, p.accessed == 1, p.dirty == 1, p.huge == 1,
                   p.high != 0, p.noExecute == 1, p.frame * PAGE_4K)
  {
    hide Bit, Join;
    LowBitsOfJoin(p);
    HighBitsOfJoin(p);
  }

  /** `raw | ACCESSED`. */
  function WithAccessed(raw: Qword): Qword
  {
    SetAccessedDecodes(raw);
    Set(raw, 32)
  }

  /** `raw | ACCESSED | DIRTY`. */
  function WithDirty(raw: Qword): Qword
  {
    SetAccessedDecodes(raw);
    SetDirtyDecodes(Set(raw, 32));
    Set(Set(raw, 32), 64)
  }

  lemma SetAccessedDecodes(raw: Qword)
    ensures Set(raw, 32) < TWO_64
    ensures Decode(Set(raw, 32)) == Decode(raw).(accessed := true)
  {
    hide Decode, Bit;
    var p := Cut(raw);
    DecodeJoin(p);
    DecodeJoin(p.(accessed := 1));
    FieldBits(raw);
    assert Set(raw, 32) == Join(p.(accessed := 1));
  }

  lemma SetDirtyDecodes(raw: Qword)
    ensures Set(raw, 64) < TWO_64
    ensures Decode(Set(raw, 64)) == Decode(raw).(dirty := true)
  {
    hide Decode, Bit;
    var p := Cut(raw);
    DecodeJoin(p);
    DecodeJoin(p.(dirty := 1));
    FieldBits(raw);
    assert Set(raw, 64) == Join(p.(dirty := 1));
  }

  function WeightIf(on: bool, weight: nat): nat
  {
    if on then weight else 0
  }

  /** A present entry for an address, as `PageTableEntry::table`, `page_4k`, `page_2m` and `page_1g` build it. */
  function MakeEntry(address: Qword, permissions: Permissions, huge: bool): (raw: Qword)
    ensures Decode(raw) ==
            Fields(true, permissions.writable, permissions.user, false, false, huge, false, !permissions.executable,
                   address % TWO_52 / PAGE_4K * PAGE_4K)
  {
    var raw := 1 + WeightIf(permissions.writable, 2) + WeightIf(permissions.user, 4) + WeightIf(huge, 128)
               + address % TWO_52 / PAGE_4K * PAGE_4K + WeightIf(!permissions.executable, NX_BIT);
    ghost var p := Parts(1, WeightIf(permissions.writable, 1), WeightIf(permissions.user, 1), 0, 0, 0, WeightIf(huge, 1),
                         0, address % TWO_52 / PAGE_4K, 0, WeightIf(!permissions.executable, 1));
    DecodeJoin(p);
    assert raw == Join(p);
    raw
  }

  lemma FieldBits(raw: Qword)
    ensures Bit(raw, 2) == Decode(raw).writable && Bit(raw, 4) == Decode(raw).user
    ensures Bit(raw, 32) == Decode(raw).accessed && Bit(raw, 64) == Decode(raw).dirty
    ensures Bit(raw, NX_BIT) == Decode(raw).noExecute
  {
  }

  function PutWritable(raw: Qword, on: bool): (r: Qword)
    ensures Decode(r) == Decode(raw).(writable := on)
  {
    PutWritableDecodes(raw, on);
    Put(raw, 2, on)
  }

  lemma PutWritableDecodes(raw: Qword, on: bool)
    ensures 0 <= Put(raw, 2, on) < TWO_64
    ensures Decode(Put(raw, 2, on)) == Decode(raw).(writable := on)
  {
    hide Decode, Bit;
    var p := Cut(raw);
    var q := if on then p.(writable := 1) else p.(writable := 0);
    assert Join(q) == Join(p) - 2 * p.writable + 2 * q.writable;
    hide Join;
    DecodeJoin(p);
    DecodeJoin(q);
    FieldBits(raw);
    assert Bit(raw, 2) == (p.writable == 1);
    assert Put(raw, 2, on) == Join(q);
  }

  function PutUser(raw: Qword, on: bool): (r: Qword)
    ensures Decode(r) == Decode(raw).(user := on)
  {
    PutUserDecodes(raw, on);
    Put(raw, 4, on)
  }

  lemma PutUserDecodes(raw: Qword, on: bool)
    ensures 0 <= Put(raw, 4, on) < TWO_64
    ensures Decode(Put(raw, 4, on)) == Decode(raw).(user := on)
  {
    hide Decode, Bit;
    var p := Cut(raw);
    var q := if on then p.(user := 1) else p.(user := 0);
    assert Join(q) == Join(p) - 4 * p.user + 4 * q.user;
    hide Join;
    DecodeJoin(p);
    DecodeJoin(q);
    FieldBits(raw);
    assert Bit(raw, 4) == (p.user == 1);
    assert Put(raw, 4, on) == Join(q);
  }

  function PutNoExecute(raw: Qword, on: bool): (r: Qword)
    ensures Decode(r) == Decode(raw).(noExecute := on)
  {
    PutNoExecuteDecodes(raw, on);
    Put(raw, NX_BIT, on)
  }

  lemma PutNoExecuteDecodes(raw: Qword, on: bool)
    ensures 0 <= Put(raw, NX_BIT, on) < TWO_64
    ensures Decode(Put(raw, NX_BIT, on)) == Decode(raw).(noExecute := on)
  {
    hide Decode, Bit;
    var p := Cut(raw);
    var q := if on then p.(noExecute := 1) else p.(noExecute := 0);
    assert Join(q) == Join(p) - NX_BIT * p.noExecute + NX_BIT * q.noExecute;
    hide Join;
    DecodeJoin(p);
    DecodeJoin(q);
    FieldBits(raw);
    assert Bit(raw, NX_BIT) == (p.noExecute == 1);
    assert Put(raw, NX_BIT, on) == Join(q);
  }

  /** Replaces the permission bits, as `PageTableEntry::with_permissions` does by clearing them and or-ing the new ones. */
  function WithPermissions(raw: Qword, permissions: Permissions): Qword
  {
    PutNoExecute(PutUser(PutWritable(raw, permissions.writable), permissions.user), !permissions.executable)
  }

  lemma WithPermissionsDecodes(raw: Qword, permissions: Permissions)
    ensures Decode(WithPermissions(raw, permissions)) ==
            Decode(raw).(writable := permissions.writable, user := permissions.user, noExecute := !permissions.executable)
  {
    hide Decode, Put;
  }

  // ---------- Entries in memory ----------

  function LoadEntry(mem: Memory, address: nat): Qword
    requires ContainsRange(mem, address, 8)
  {
    FromBytesBounded(mem[address..address + 8]);
    assert Pow256(8) == TWO_64;
    Load(mem, address, 8)
  }

  function StoreEntry(mem: Memory, address: nat, raw: Qword): (mem': Memory)
    requires ContainsRange(mem, address, 8)
    ensures |mem'| == |mem|
  {
    Store(mem, address, 8, raw)
  }

  /** Aligned entries do not overlap: a store changes the entry at its address and no other. */
  lemma EntryAfterStore(mem: Memory, address: nat, raw: Qword, other: nat)
    requires ContainsRange(mem, address, 8) && ContainsRange(mem, other, 8)
    requires address % 8 == 0 && other % 8 == 0
    ensures LoadEntry(StoreEntry(mem, address, raw), other) == if other == address then raw else LoadEntry(mem, other)
  {
    assert Pow256(8) == TWO_64;
    if other == address {
      LoadAfterStore(mem, address, 8, raw);
    } else {
      LoadElsewhere(mem, address, 8, raw, other, 8);
    }
  }

  // ---------- Results of a translation ----------

  datatype Translation = Translation(
    virtualBase: nat, frameBase: nat, size: nat, permissions: Permissions, leafAddress: nat, dirty: bool)
  {
    predicate Covers(va: Qword)
    {
      va >= virtualBase && va - virtualBase < size
    }

    function PhysicalAddress(va: Qword): nat
      requires Covers(va)
    {
      frameBase + (va - virtualBase)
    }
  }

  datatype Outcome =
    | Translated(translation: Translation)
    | PageFault(va: Qword, kind: AccessKind, reason: FaultReason, code: nat)
    | Thrown(error: Error)

  function ErrorCode(kind: AccessKind, privilege: Privilege, reason: FaultReason): nat
  {
    WeightIf(reason != NOT_PRESENT, 1) + WeightIf(kind == WRITE, 2) + WeightIf(privilege == RING3, 4)
    + WeightIf(reason == RESERVED_BIT, 8) + WeightIf(kind == EXECUTE, 16)
  }

  function Fault(va: Qword, kind: AccessKind, privilege: Privilege, reason: FaultReason): Outcome
  {
    PageFault(va, kind, reason, ErrorCode(kind, privilege, reason))
  }

  /** The control state that translation reads: CR3, PCID, generation and the mode flags. */
  datatype PagingState = PagingState(
    cr3: Qword, pcid: nat, generation: nat, enabled: bool, pcidEnabled: bool, writeProtect: bool, executeDisable: bool)

  /** Why an access to a page with these effective permissions faults, if it does. */
  function Denial(ps: PagingState, permissions: Permissions, kind: AccessKind, privilege: Privilege): Option<FaultReason>
  {
    if privilege == RING3 && !permissions.user then Some(USER_SUPERVISOR)
    else if kind == WRITE && !permissions.writable && !(privilege != RING3 && !ps.writeProtect) then Some(WRITE_PROTECTION)
    else if kind == EXECUTE && !permissions.executable then Some(EXECUTE_DISABLE)
    else None
  }

  // ---------- What protection means ----------

  /** The rules of protection: user mode reaches user pages only, writes need a writable page unless supervisor writes ignore it, fetches an executable one. */
  ghost predicate Allowed(ps: PagingState, permissions: Permissions, kind: AccessKind, privilege: Privilege)
  {
    && (privilege == RING3 ==> permissions.user)
    && (kind == WRITE ==> permissions.writable || (privilege != RING3 && !ps.writeProtect))
    && (kind == EXECUTE ==> permissions.executable)
  }

  /** The first of the rules that an access breaks. */
  ghost predicate BreaksFirst(ps: PagingState, permissions: Permissions, kind: AccessKind, privilege: Privilege, reason: FaultReason)
  {
    var reaches := privilege == RING3 ==> permissions.user;
    var writes := kind == WRITE ==> permissions.writable || (privilege != RING3 && !ps.writeProtect);
    var fetches := kind == EXECUTE ==> permissions.executable;
    match reason
    case USER_SUPERVISOR => !reaches
    case WRITE_PROTECTION => reaches && !writes
    case EXECUTE_DISABLE => reaches && writes && !fetches
    case _ => false
  }

  lemma DenialIsTheRules(ps: PagingState, permissions: Permissions, kind: AccessKind, privilege: Privilege)
    ensures Denial(ps, permissions, kind, privilege).None? <==> Allowed(ps, permissions, kind, privilege)
    ensures forall reason :: Denial(ps, permissions, kind, privilege) == Some(reason) <==>
                             BreaksFirst(ps, permissions, kind, privilege, reason)
  {
  }

  /** A page fault for this address and reason, whose error code has exactly the bits of section 4.7. */
  ghost predicate Faults(outcome: Outcome, va: Qword, kind: AccessKind, privilege: Privilege, reason: FaultReason)
  {
    && outcome.PageFault? && outcome.va == va && outcome.kind == kind && outcome.reason == reason
    && outcome.code < 32
    && (outcome.code % 2 == 1 <==> reason != NOT_PRESENT)
    && (outcome.code / 2 % 2 == 1 <==> kind == WRITE)
    && (outcome.code / 4 % 2 == 1 <==> privilege == RING3)
    && (outcome.code / 8 % 2 == 1 <==> reason == RESERVED_BIT)
    && (outcome.code / 16 % 2 == 1 <==> kind == EXECUTE)
  }

  lemma FaultFaults(va: Qword, kind: AccessKind, privilege: Privilege, reason: FaultReason)
    ensures Fault(va, kind, privilege, reason).PageFault? && Faults(Fault(va, kind, privilege, reason), va, kind, privilege, reason)
  {
  }

  /** Canonical addresses are those whose upper bits repeat bit 47. */
  lemma CanonicalIsSignExtended(va: Qword)
    ensures IsCanonical(va) <==> va == va % 0x8000_0000_0000 + if va / 0x8000_0000_0000 % 2 == 1 then TWO_64 - 0x8000_0000_0000 else 0
  {
  }
}
