/** On-disk records of SimpleFS: inodes, directory entries and bitmap bits. */
module SimpleFsCodec {
  import opened LittleEndian
  import opened MemoryBus
  import opened Results
  import opened Fields

  const DIRECT_BLOCKS := 6
  const MAX_NAME := 56
  const RECORD := 64
  const EMPTY_BLOCK := 0

  datatype Kind = FILE | DIRECTORY

  function KindToDisk(kind: Kind): nat
  {
    if kind == FILE then 1 else 2
  }

  function KindFromDisk(value: nat): Option<Kind>
  {
    if value == 1 then Some(FILE) else if value == 2 then Some(DIRECTORY) else None
  }

  // ---------- Inodes ----------

  datatype Inode = Free | Inode(kind: Kind, size: nat, direct: seq<nat>)

  function Zeros(n: nat): (bytes: seq<Byte>)
    ensures |bytes| == n
  {
    seq(n, _ => 0)
  }

  function InodeFields(inode: Inode): seq<Field>
    requires inode.Inode? ==> |inode.direct| == DIRECT_BLOCKS
  {
    if inode.Free? then [Field(0, 1, 0)]
    else
      var d := inode.direct;
      [Field(0, 1, 1), Field(1, 1, KindToDisk(inode.kind)), Field(2, 2, 1), Field(8, 8, inode.size),
       Field(16, 8, d[0]), Field(24, 8, d[1]), Field(32, 8, d[2]), Field(40, 8, d[3]), Field(48, 8, d[4]), Field(56, 8, d[5])]
  }

  function EncodeInode(inode: Inode): (record: seq<Byte>)
    requires inode.Inode? ==> |inode.direct| == DIRECT_BLOCKS
    ensures |record| == RECORD
  {
    PutFields(Zeros(RECORD), InodeFields(inode))
  }

  predicate AddressOk(a: nat, dataStart: nat, dataCount: nat)
  {
    a == EMPTY_BLOCK || dataStart <= a < dataStart + dataCount
  }

  function DecodeInode(record: seq<Byte>, maxSize: nat, dataStart: nat, dataCount: nat): Result<Inode>
    requires |record| == RECORD
  {
    if Load(record, 0, 1) != 1 then Ok(Free)
    else
      var kind := KindFromDisk(Load(record, 1, 1));
      var size := Load(record, 8, 8);
      var direct := [Load(record, 16, 8), Load(record, 24, 8), Load(record, 32, 8), Load(record, 40, 8), Load(record, 48, 8), Load(record, 56, 8)];
      if kind.None? || size > maxSize then Err(RuntimeError)
      else if exists k :: 0 <= k < DIRECT_BLOCKS && !AddressOk(direct[k], dataStart, dataCount) then Err(RuntimeError)
      else Ok(Inode(kind.value, size, direct))
  }

  /** What the encoder may be given: sizes and addresses within their fields and the file system's limits. */
  ghost predicate Encodable(inode: Inode, maxSize: nat, dataStart: nat, dataCount: nat)
  {
    inode.Inode? ==>
      && |inode.direct| == DIRECT_BLOCKS && inode.size <= maxSize < Pow256(8) && dataStart + dataCount <= Pow256(8)
      && forall k :: 0 <= k < DIRECT_BLOCKS ==> AddressOk(inode.direct[k], dataStart, dataCount)
  }

  /** An inode record reads back as written. */
  lemma InodeRoundTrip(inode: Inode, maxSize: nat, dataStart: nat, dataCount: nat)
    requires Encodable(inode, maxSize, dataStart, dataCount)
    ensures DecodeInode(EncodeInode(inode), maxSize, dataStart, dataCount) == Ok(inode)
  {
    Widths();
    hide Load, PutFields, Pow256;
    var fields := InodeFields(inode);
    var zero := Zeros(RECORD);
    assert Ordered(fields, RECORD);
    FieldReadsBack(zero, fields, 0);
    if inode.Inode? {
      forall i: nat | i < 10 ensures Load(PutFields(zero, fields), fields[i].offset, fields[i].width) == fields[i].value {
        FieldReadsBack(zero, fields, i);
      }
      InodeReads(EncodeInode(inode), inode, maxSize, dataStart, dataCount);
    }
  }

  lemma InodeReads(record: seq<Byte>, inode: Inode, maxSize: nat, dataStart: nat, dataCount: nat)
    requires |record| == RECORD && inode.Inode? && Encodable(inode, maxSize, dataStart, dataCount)
    requires forall i: nat | i < 10 :: var f := InodeFields(inode)[i]; Load(record, f.offset, f.width) == f.value
    ensures DecodeInode(record, maxSize, dataStart, dataCount) == Ok(inode)
  {
    hide Load, Pow256;
    var f, d := InodeFields(inode), inode.direct;
    assert f[0] == Field(0, 1, 1) && f[1] == Field(1, 1, KindToDisk(inode.kind)) && f[3] == Field(8, 8, inode.size);
    assert f[4] == Field(16, 8, d[0]) && f[5] == Field(24, 8, d[1]) && f[6] == Field(32, 8, d[2]);
    assert f[7] == Field(40, 8, d[3]) && f[8] == Field(48, 8, d[4]) && f[9] == Field(56, 8, d[5]);
    assert d == [d[0], d[1], d[2], d[3], d[4], d[5]];
  }

  // ---------- Directory entries ----------

  datatype Entry = Entry(name: seq<Byte>, inode: nat, kind: Kind)

  predicate Nameable(name: seq<Byte>)
  {
    0 < |name| <= MAX_NAME
  }

  function EntryFields(entry: Entry): seq<Field>
  {
    [Field(0, 1, 1), Field(1, 1, KindToDisk(entry.kind)), Field(2, 2, |entry.name|), Field(4, 4, entry.inode)]
  }

  function EncodeEntry(entry: Entry): (record: seq<Byte>)
    requires Nameable(entry.name)
    ensures |record| == RECORD
  {
    PutFields(Zeros(8), EntryFields(entry)) + entry.name + Zeros(MAX_NAME - |entry.name|)
  }

  function DecodeEntry(record: seq<Byte>): Result<Option<Entry>>
    requires |record| == RECORD
  {
    if Load(record, 0, 1) == 0 then Ok(None)
    else
      var length := Load(record, 2, 2);
      if length == 0 || length > MAX_NAME then Err(RuntimeError)
      else
        var kind := KindFromDisk(Load(record, 1, 1));
        if kind.None? then Err(RuntimeError)
        else Ok(Some(Entry(record[8..8 + length], Load(record, 4, 4), kind.value)))
  }

  /** A directory entry reads back as written. */
  lemma EntryRoundTrip(entry: Entry)
    requires Nameable(entry.name) && entry.inode < Pow256(4)
    ensures DecodeEntry(EncodeEntry(entry)) == Ok(Some(entry))
  {
    Widths();
    hide PutFields, Pow256;
    var fields := EntryFields(entry);
    var zero := Zeros(8);
    var record := EncodeEntry(entry);
    assert Ordered(fields, 8);
    FieldReadsBack(zero, fields, 0);
    FieldReadsBack(zero, fields, 1);
    FieldReadsBack(zero, fields, 2);
    FieldReadsBack(zero, fields, 3);
    LoadPrefix(record, PutFields(zero, fields));
    assert record[8..8 + |entry.name|] == entry.name;
    hide Load;
    assert fields[0] == Field(0, 1, 1) && fields[1] == Field(1, 1, KindToDisk(entry.kind));
    assert fields[2] == Field(2, 2, |entry.name|) && fields[3] == Field(4, 4, entry.inode);
  }

  lemma LoadPrefix(record: seq<Byte>, head: seq<Byte>)
    requires |head| == 8 <= |record| && record[..8] == head
    ensures forall a: nat, c: nat :: a + c <= 8 ==> Load(record, a, c) == Load(head, a, c)
  {
    forall a: nat, c: nat | a + c <= 8 ensures Load(record, a, c) == Load(head, a, c) {
      assert record[a..a + c] == head[a..a + c];
    }
  }

  // ---------- Bitmap bits ----------

  function Bit(v: nat, k: nat): bool
  {
    if k == 0 then v % 2 == 1 else Bit(v / 2, k - 1)
  }

  function SetBit(v: nat, k: nat): nat
  {
    if k == 0 then v - v % 2 + 1 else v % 2 + 2 * SetBit(v / 2, k - 1)
  }

  lemma {:induction false} SetBitOnly(v: nat, k: nat, j: nat)
    ensures Bit(SetBit(v, k), j) == (j == k || Bit(v, j))
  {
    if k > 0 && j > 0 {
      SetBitOnly(v / 2, k - 1, j - 1);
      assert SetBit(v, k) / 2 == SetBit(v / 2, k - 1);
    } else if k == 0 && j > 0 {
      assert SetBit(v, 0) / 2 == v / 2;
    }
  }

  function Pow2(n: nat): nat
  {
    if n == 0 then 1 else 2 * Pow2(n - 1)
  }

  lemma {:induction false} SetBitBounded(v: nat, k: nat, n: nat)
    requires k < n && v < Pow2(n)
    ensures SetBit(v, k) < Pow2(n)
  {
    var p, h := Pow2(n - 1), v / 2;
    assert Pow2(n) == 2 * p && v == 2 * h + v % 2 && h < p;
    if k > 0 {
      SetBitBounded(h, k - 1, n - 1);
      hide Pow2, SetBit;
      SetBitIs(v, k);
    }
  }

  lemma SetBitIs(v: nat, k: nat)
    requires k > 0
    ensures SetBit(v, k) == v % 2 + 2 * SetBit(v / 2, k - 1)
  {
  }

  predicate TestBitmapBit(block: seq<Byte>, i: nat)
    requires i < 8 * |block|
  {
    Bit(block[i / 8], i % 8)
  }

  function SetByteBit(b: Byte, k: nat): Byte
    requires k < 8
  {
    assert Pow2(8) == 2 * Pow2(7) && Pow2(7) == 2 * Pow2(6) && Pow2(6) == 2 * Pow2(5) && Pow2(5) == 2 * Pow2(4);
    SetBitBounded(b, k, 8);
    SetBit(b, k)
  }

  function SetBitmapBit(block: seq<Byte>, i: nat): (block': seq<Byte>)
    requires i < 8 * |block|
    ensures |block'| == |block|
  {
    block[i / 8 := SetByteBit(block[i / 8], i % 8)]
  }

  /** Setting a bit of a bitmap block sets that bit and no other. */
  lemma SetBitmapBitOnly(block: seq<Byte>, i: nat, j: nat)
    requires i < 8 * |block| && j < 8 * |block|
    ensures TestBitmapBit(SetBitmapBit(block, i), j) == (j == i || TestBitmapBit(block, j))
  {
    SetBitOnly(block[i / 8], i % 8, j % 8);
  }
}
