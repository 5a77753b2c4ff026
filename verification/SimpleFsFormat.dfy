/** The on-disk format of SimpleFS byte by byte: where each field lies, and which records a reader refuses. */
module SimpleFsFormat {
  import opened LittleEndian
  import opened MemoryBus
  import opened Results
  import opened Blocks
  import opened BlockDevice
  import opened Fields
  import opened SimpleFsLayout
  import Arithmetic
  import Codec = SimpleFsCodec

  /** A little-endian value of this width lies at this offset. */
  predicate ValueAt(bytes: seq<Byte>, offset: nat, width: nat, value: nat)
  {
    offset + width <= |bytes| && FromBytes(bytes[offset..offset + width]) == value
  }

  lemma FieldAt(zero: seq<Byte>, fields: seq<Field>, i: nat)
    requires Ordered(fields, |zero|) && i < |fields|
    ensures ValueAt(PutFields(zero, fields), fields[i].offset, fields[i].width, fields[i].value)
  {
    hide PutFields;
    FieldReadsBack(zero, fields, i);
  }

  // ---------- The superblock ----------

  /** The superblock of a made layout, field by field. */
  lemma SuperblockBytes(geometry: Geometry, inodeCount: nat)
    requires 0 < inodeCount <= MAX_U32
    requires MakeGeometry(geometry.blockSize, geometry.blockCount) == Ok(geometry) && MakeLayout(geometry, inodeCount).Ok?
    ensures var l := MakeLayout(geometry, inodeCount).value;
            l.blockSize >= MIN_BLOCK_SIZE &&
            var b := WriteSuperblock(l);
            && ValueAt(b, 0, 4, 0x53464E4D) && ValueAt(b, 4, 2, 1) && ValueAt(b, 8, 4, l.blockSize) && ValueAt(b, 16, 8, l.blockCount)
            && ValueAt(b, 24, 8, l.inodeTableStart) && ValueAt(b, 32, 4, l.inodeTableBlocks) && ValueAt(b, 36, 4, l.inodeCount)
            && ValueAt(b, 40, 8, l.bitmapStart) && ValueAt(b, 48, 4, l.bitmapBlocks) && ValueAt(b, 56, 8, l.dataStart)
            && ValueAt(b, 64, 8, l.dataCount) && ValueAt(b, 72, 4, l.root)
  {
    MadeLayoutIsSound(geometry, inodeCount);
    Widths();
    hide PutFields, Pow256, CeilDiv, LayoutValid, ValueAt, LeastCover;
    var l := MakeLayout(geometry, inodeCount).value;
    var zero: Block := seq(l.blockSize, _ => 0);
    var f := SuperblockFields(l);
    assert Ordered(f, |zero|);
    forall i: nat | i < 12 ensures ValueAt(PutFields(zero, f), f[i].offset, f[i].width, f[i].value) {
      FieldAt(zero, f, i);
    }
    assert f[0] == Field(0, 4, MAGIC) && f[1] == Field(4, 2, VERSION) && f[2] == Field(8, 4, l.blockSize);
    assert f[3] == Field(16, 8, l.blockCount) && f[4] == Field(24, 8, l.inodeTableStart) && f[5] == Field(32, 4, l.inodeTableBlocks);
    assert f[6] == Field(36, 4, l.inodeCount) && f[7] == Field(40, 8, l.bitmapStart) && f[8] == Field(48, 4, l.bitmapBlocks);
    assert f[9] == Field(56, 8, l.dataStart) && f[10] == Field(64, 8, l.dataCount) && f[11] == Field(72, 4, l.root);
  }

  /**
   Which superblocks are accepted: magic and version right, the device's geometry, nothing empty, the root inside the table, the regions in order
   (with ends cut to 64 bits), and bits for all data blocks. Every other one is refused with the same error.
   */
  lemma SuperblockAcceptedIff(block: Block, geometry: Geometry)
    requires |block| >= MIN_BLOCK_SIZE
    ensures var r := ReadSuperblock(block, geometry);
            var size, count := Load(block, 8, 4), Load(block, 16, 8);
            var tableAt, tables, inodes := Load(block, 24, 8), Load(block, 32, 4), Load(block, 36, 4);
            var bitmapAt, bitmaps, dataAt, data, root := Load(block, 40, 8), Load(block, 48, 4), Load(block, 56, 8), Load(block, 64, 8), Load(block, 72, 4);
            && (r.Ok? <==>
                  && Load(block, 0, 4) == 0x53464E4D && Load(block, 4, 2) == 1
                  && size == geometry.blockSize >= 128 && count == geometry.blockCount
                  && 1 <= root <= inodes && tableAt > 0 && tables > 0 && bitmaps > 0 && data > 0
                  && (tableAt + tables) % 0x1_0000_0000_0000_0000 <= bitmapAt
                  && (bitmapAt + bitmaps) % 0x1_0000_0000_0000_0000 <= dataAt
                  && (dataAt + data) % 0x1_0000_0000_0000_0000 <= count
                  && bitmaps * size * 8 % 0x1_0000_0000_0000_0000 >= data)
            && (r.Err? ==> r == Err(RuntimeError))
            && (r.Ok? ==> r.value == Layout(size, count, tableAt, tables, inodes, bitmapAt, bitmaps, dataAt, data, root))
  {
    hide Load;
  }

  // ---------- Inode records ----------

  /** An inode record, field by field: in use, kind, one link, size, six block addresses; a free one is zeros. */
  lemma InodeBytes(inode: Codec.Inode, maxSize: nat, dataStart: nat, dataCount: nat, k: nat)
    requires Codec.Encodable(inode, maxSize, dataStart, dataCount)
    ensures var b := Codec.EncodeInode(inode);
            && |b| == 64
            && ValueAt(b, 0, 1, if inode.Free? then 0 else 1)
            && (inode.Inode? ==>
                  && ValueAt(b, 1, 1, if inode.kind.FILE? then 1 else 2) && ValueAt(b, 2, 2, 1) && ValueAt(b, 8, 8, inode.size)
                  && |inode.direct| == 6 && (k < 6 ==> ValueAt(b, 16 + 8 * k, 8, inode.direct[k])))
  {
    Widths();
    hide PutFields, Pow256, ValueAt;
    var zero, f := Codec.Zeros(64), Codec.InodeFields(inode);
    assert Ordered(f, 64);
    FieldAt(zero, f, 0);
    if inode.Inode? {
      FieldAt(zero, f, 1);
      FieldAt(zero, f, 2);
      FieldAt(zero, f, 3);
      assert f[1] == Field(1, 1, Codec.KindToDisk(inode.kind)) && f[2] == Field(2, 2, 1) && f[3] == Field(8, 8, inode.size);
      if k < 6 {
        FieldAt(zero, f, 4 + k);
        assert f[4 + k] == Field(16 + 8 * k, 8, inode.direct[k]);
      }
    }
  }

  /** Which inode records are accepted: any that is not in use, and one in use with a known kind, a size in bounds and addresses of data blocks. */
  lemma InodeAcceptedIff(record: seq<Byte>, maxSize: nat, dataStart: nat, dataCount: nat)
    requires |record| == 64
    ensures var r := Codec.DecodeInode(record, maxSize, dataStart, dataCount);
            var used, kind, size := Load(record, 0, 1), Load(record, 1, 1), Load(record, 8, 8);
            && (used != 1 ==> r == Ok(Codec.Free))
            && (used == 1 ==>
                  && (r.Ok? <==> (kind == 1 || kind == 2) && size <= maxSize
                                 && DataAddress(Load(record, 16, 8), dataStart, dataCount) && DataAddress(Load(record, 24, 8), dataStart, dataCount)
                                 && DataAddress(Load(record, 32, 8), dataStart, dataCount) && DataAddress(Load(record, 40, 8), dataStart, dataCount)
                                 && DataAddress(Load(record, 48, 8), dataStart, dataCount) && DataAddress(Load(record, 56, 8), dataStart, dataCount))
                  && (r.Err? ==> r == Err(RuntimeError))
                  && (r.Ok? ==> r.value.Inode? && (r.value.kind.FILE? <==> kind == 1) && r.value.size == size
                                && r.value.direct == [Load(record, 16, 8), Load(record, 24, 8), Load(record, 32, 8),
                                                      Load(record, 40, 8), Load(record, 48, 8), Load(record, 56, 8)]))
  {
    hide Load;
    var direct := [Load(record, 16, 8), Load(record, 24, 8), Load(record, 32, 8), Load(record, 40, 8), Load(record, 48, 8), Load(record, 56, 8)];
    assert direct[0] == Load(record, 16, 8) && direct[1] == Load(record, 24, 8) && direct[2] == Load(record, 32, 8);
    assert direct[3] == Load(record, 40, 8) && direct[4] == Load(record, 48, 8) && direct[5] == Load(record, 56, 8);
  }

  /** No block, or a block of the data region. */
  predicate DataAddress(a: nat, dataStart: nat, dataCount: nat)
  {
    a == 0 || (a >= dataStart && a - dataStart < dataCount)
  }

  // ---------- Directory entries ----------

  /** A directory entry, field by field: in use, kind, length, inode number, and the name from byte 8 on with zeros behind it. */
  lemma EntryBytes(entry: Codec.Entry, i: nat)
    requires 1 <= |entry.name| <= 56 && entry.inode < 0x1_0000_0000
    ensures var b := Codec.EncodeEntry(entry);
            && |b| == 64
            && ValueAt(b, 0, 1, 1) && ValueAt(b, 1, 1, if entry.kind.FILE? then 1 else 2) && ValueAt(b, 2, 2, |entry.name|)
            && ValueAt(b, 4, 4, entry.inode)
            && (8 <= i < 64 ==> b[i] == if i - 8 < |entry.name| then entry.name[i - 8] else 0)
  {
    Widths();
    hide PutFields, Pow256;
    var zero, f := Codec.Zeros(8), Codec.EntryFields(entry);
    assert Ordered(f, 8);
    FieldAt(zero, f, 0);
    FieldAt(zero, f, 1);
    FieldAt(zero, f, 2);
    FieldAt(zero, f, 3);
    var b, head := Codec.EncodeEntry(entry), PutFields(zero, f);
    assert f[0] == Field(0, 1, 1) && f[1] == Field(1, 1, Codec.KindToDisk(entry.kind)) && f[2] == Field(2, 2, |entry.name|);
    assert f[3] == Field(4, 4, entry.inode);
    HeadValue(head, b, 0, 1);
    HeadValue(head, b, 1, 1);
    HeadValue(head, b, 2, 2);
    HeadValue(head, b, 4, 4);
  }

  lemma HeadValue(head: seq<Byte>, whole: seq<Byte>, offset: nat, width: nat)
    requires |head| == 8 <= |whole| && whole[..8] == head && offset + width <= 8
    ensures whole[offset..offset + width] == head[offset..offset + width]
  {
    assert forall i :: 0 <= i < 8 ==> whole[i] == whole[..8][i];
  }

  /** Which entries are accepted: any that is not in use, and one in use with a length from 1 to 56 and a known kind. */
  lemma EntryAcceptedIff(record: seq<Byte>)
    requires |record| == 64
    ensures var r := Codec.DecodeEntry(record);
            var used, kind, length, inode := Load(record, 0, 1), Load(record, 1, 1), Load(record, 2, 2), Load(record, 4, 4);
            && (used == 0 ==> r == Ok(None))
            && (used != 0 ==>
                  && (r.Ok? <==> 1 <= length <= 56 && (kind == 1 || kind == 2))
                  && (r.Err? ==> r == Err(RuntimeError))
                  && (r.Ok? ==> r.value == Some(Codec.Entry(record[8..8 + length], inode, if kind == 1 then Codec.FILE else Codec.DIRECTORY))))
  {
    hide Load;
  }

  // ---------- The bitmap ----------

  /** Bit i of a bitmap block is bit i modulo 8 of byte i / 8, counted from the least significant. */
  lemma BitmapBitIs(block: seq<Byte>, i: nat)
    requires i < 8 * |block|
    ensures Codec.TestBitmapBit(block, i) <==> block[i / 8] / Weight(i % 8) % 2 == 1
  {
    BitIs(block[i / 8], i % 8);
  }

  function Weight(k: nat): nat
    requires k < 8
    ensures Weight(k) > 0
  {
    [1, 2, 4, 8, 16, 32, 64, 128][k]
  }

  lemma {:induction false} BitIs(v: nat, k: nat)
    requires k < 8
    ensures Codec.Bit(v, k) <==> v / Weight(k) % 2 == 1
  {
    if k > 0 {
      BitIs(v / 2, k - 1);
      Arithmetic.DivDiv(v, 2, Weight(k - 1));
      assert Weight(k) == 2 * Weight(k - 1);
    }
  }
}
