/** How a file system lies on the blocks of a disk: inode table, bitmap and data. */
module SimpleFsDisk {
  import opened LittleEndian
  import opened MemoryBus
  import opened Results
  import opened Arithmetic
  import opened Blocks
  import opened BlockDevice
  import opened SimpleFsLayout
  import opened SimpleFsCodec
  import opened SimpleFs

  /** What every made layout satisfies. */
  ghost predicate LayoutSound(l: Layout)
  {
    && Regions(l) && MIN_BLOCK_SIZE <= l.blockSize <= MAX_U32 && 0 < l.inodeCount <= MAX_U32
    && l.blockCount < TWO_64 && l.root == ROOT_INODE
  }

  /** A layout fit for use: no inode record straddles a block. */
  ghost predicate LayoutOk(l: Layout)
  {
    LayoutSound(l) && RecordsFit(l)
  }

  /** A made layout needs only that its inode records fit their blocks. */
  lemma MadeLayoutIsOk(geometry: Geometry, inodeCount: nat)
    requires 0 < inodeCount <= MAX_U32 && MakeGeometry(geometry.blockSize, geometry.blockCount) == Ok(geometry)
    requires MakeLayout(geometry, inodeCount).Ok?
    ensures var l := MakeLayout(geometry, inodeCount).value; LayoutSound(l) && (LayoutOk(l) <==> RecordsFit(l))
  {
    MadeLayoutIsSound(geometry, inodeCount);
    hide CeilDiv, Regions, RecordsFit;
  }

  ghost predicate WholeBlocks(disk: seq<Block>, l: Layout)
  {
    |disk| == l.blockCount && forall b :: 0 <= b < |disk| ==> |disk[b]| == l.blockSize
  }

  // ---------- Inode records ----------

  function TableBlock(l: Layout, n: nat): nat
    requires l.blockSize > 0
  {
    l.inodeTableStart + RecordBlock(l, n)
  }

  ghost function Record(disk: seq<Block>, l: Layout, n: nat): (record: seq<Byte>)
    requires LayoutOk(l) && WholeBlocks(disk, l) && n < l.inodeCount
    ensures |record| == RECORD
  {
    RecordFits(l, n);
    RecordInTable(l, n);
    disk[TableBlock(l, n)][RecordOffset(l, n)..RecordOffset(l, n) + RECORD]
  }

  ghost predicate InodeOnDisk(disk: seq<Block>, l: Layout, n: nat, inode: Inode)
    requires LayoutOk(l) && WholeBlocks(disk, l) && n < l.inodeCount
  {
    DecodeInode(Record(disk, l, n), DIRECT_BLOCKS * l.blockSize, l.dataStart, l.dataCount) == Ok(inode)
  }

  // ---------- Bitmap ----------

  function BitsPerBlock(l: Layout): nat
  {
    l.blockSize * 8
  }

  function BitBlock(l: Layout, d: nat): nat
    requires l.blockSize > 0
  {
    NatDiv(d, BitsPerBlock(l))
  }

  function BitIndex(l: Layout, d: nat): (i: nat)
    requires l.blockSize > 0
    ensures i < BitsPerBlock(l)
  {
    d % BitsPerBlock(l)
  }

  lemma BitPlace(l: Layout, block: nat, bit: nat)
    requires l.blockSize > 0 && bit < BitsPerBlock(l)
    ensures BitBlock(l, block * BitsPerBlock(l) + bit) == block && BitIndex(l, block * BitsPerBlock(l) + bit) == bit
  {
    var bits := BitsPerBlock(l);
    assert block * bits == bits * block;
    DivUnique(block * bits + bit, bits, block, bit);
  }

  lemma BitInMap(l: Layout, d: nat)
    requires LayoutOk(l) && d < l.dataCount
    ensures BitBlock(l, d) < l.bitmapBlocks
  {
    var bits, q := BitsPerBlock(l), BitBlock(l, d);
    assert d == bits * q + BitIndex(l, d);
    assert bits * l.bitmapBlocks == l.bitmapBlocks * bits;
    if q >= l.bitmapBlocks {
      MulOrder(bits, l.bitmapBlocks, q);
    }
  }

  lemma BitsApart(l: Layout, d: nat, e: nat)
    requires l.blockSize > 0 && BitBlock(l, d) == BitBlock(l, e) && BitIndex(l, d) == BitIndex(l, e)
    ensures d == e
  {
    var bits := BitsPerBlock(l);
    assert d == bits * BitBlock(l, d) + BitIndex(l, d);
    assert e == bits * BitBlock(l, e) + BitIndex(l, e);
  }

  ghost predicate BitOnDisk(disk: seq<Block>, l: Layout, d: nat)
    requires LayoutOk(l) && WholeBlocks(disk, l) && d < l.dataCount
  {
    BitInMap(l, d);
    TestBitmapBit(disk[l.bitmapStart + BitBlock(l, d)], BitIndex(l, d))
  }

  // ---------- The whole disk ----------

  /** The disk holds the file system: each record decodes to its inode, each bit and data block is in its place. */
  ghost predicate OnDisk(disk: seq<Block>, l: Layout, fs: Fs)
    requires LayoutOk(l)
  {
    && WholeBlocks(disk, l)
    && fs.bs == l.blockSize && fs.start == l.dataStart
    && |fs.inodes| == l.inodeCount && |fs.used| == |fs.data| == l.dataCount
    && (forall n: nat :: n < l.inodeCount ==> InodeOnDisk(disk, l, n, fs.inodes[n]))
    && (forall d: nat :: d < l.dataCount ==> fs.used[d] == BitOnDisk(disk, l, d))
    && (forall d: nat :: d < l.dataCount ==> fs.data[d] == disk[l.dataStart + d])
  }

  lemma OnDiskShape(disk: seq<Block>, l: Layout, fs: Fs)
    requires LayoutOk(l) && OnDisk(disk, l, fs)
    ensures Shape(fs)
  {
  }

  function Patched(block: Block, offset: nat, record: seq<Byte>): (block': Block)
    requires offset + |record| <= |block|
    ensures |block'| == |block|
  {
    block[..offset] + record + block[offset + |record|..]
  }

  lemma PatchedElsewhere(block: Block, offset: nat, record: seq<Byte>, other: nat)
    requires offset + RECORD <= |block| && other + RECORD <= |block| && |record| == RECORD
    requires offset == other || offset + RECORD <= other || other + RECORD <= offset
    ensures Patched(block, offset, record)[other..other + RECORD] == if other == offset then record else block[other..other + RECORD]
  {
  }

  /** Rewriting one record in its block changes that inode and nothing else. */
  lemma PutInode(disk: seq<Block>, l: Layout, fs: Fs, n: nat, inode: Inode)
    requires LayoutOk(l) && OnDisk(disk, l, fs) && n < l.inodeCount
    requires Encodable(inode, DIRECT_BLOCKS * l.blockSize, l.dataStart, l.dataCount)
    ensures TableBlock(l, n) < |disk| && RecordOffset(l, n) + RECORD <= |disk[TableBlock(l, n)]|
    ensures OnDisk(disk[TableBlock(l, n) := Patched(disk[TableBlock(l, n)], RecordOffset(l, n), EncodeInode(inode))], l,
                   fs.(inodes := fs.inodes[n := inode]))
  {
    hide RecordBlock, RecordOffset, EncodeInode, DecodeInode, BitBlock, BitIndex, RecordsFit, Patched;
    RecordFits(l, n);
    RecordInTable(l, n);
    InodeRoundTrip(inode, DIRECT_BLOCKS * l.blockSize, l.dataStart, l.dataCount);
    var b := TableBlock(l, n);
    var disk' := disk[b := Patched(disk[b], RecordOffset(l, n), EncodeInode(inode))];
    var inodes' := fs.inodes[n := inode];
    forall x: nat | x < l.inodeCount ensures InodeOnDisk(disk', l, x, inodes'[x]) {
      PutRecord(disk, l, n, EncodeInode(inode), x);
      assert InodeOnDisk(disk, l, x, fs.inodes[x]);
    }
    BitsElsewhere(disk, disk', l);
    hide InodeOnDisk, BitOnDisk;
  }

  lemma BitsElsewhere(disk: seq<Block>, disk': seq<Block>, l: Layout)
    requires LayoutOk(l) && WholeBlocks(disk, l) && WholeBlocks(disk', l)
    requires forall b :: l.bitmapStart <= b < l.dataStart ==> disk'[b] == disk[b]
    ensures forall d: nat :: d < l.dataCount ==> BitOnDisk(disk', l, d) == BitOnDisk(disk, l, d)
  {
    hide BitBlock, BitIndex, TestBitmapBit, RecordsFit;
    forall d: nat | d < l.dataCount ensures BitOnDisk(disk', l, d) == BitOnDisk(disk, l, d) {
      BitInMap(l, d);
    }
  }

  lemma InodesElsewhere(disk: seq<Block>, disk': seq<Block>, l: Layout)
    requires LayoutOk(l) && WholeBlocks(disk, l) && WholeBlocks(disk', l)
    requires forall b :: l.inodeTableStart <= b < l.bitmapStart ==> disk'[b] == disk[b]
    ensures forall n: nat :: n < l.inodeCount ==> Record(disk', l, n) == Record(disk, l, n)
  {
    hide RecordBlock, RecordOffset, RecordsFit;
    forall n: nat | n < l.inodeCount ensures Record(disk', l, n) == Record(disk, l, n) {
      RecordInTable(l, n);
      RecordFits(l, n);
    }
  }

  lemma PutRecord(disk: seq<Block>, l: Layout, n: nat, record: seq<Byte>, x: nat)
    requires LayoutOk(l) && WholeBlocks(disk, l) && n < l.inodeCount && x < l.inodeCount && |record| == RECORD
    ensures TableBlock(l, n) < |disk| && RecordOffset(l, n) + RECORD <= |disk[TableBlock(l, n)]|
    ensures var disk' := disk[TableBlock(l, n) := Patched(disk[TableBlock(l, n)], RecordOffset(l, n), record)];
            WholeBlocks(disk', l) && Record(disk', l, x) == if x == n then record else Record(disk, l, x)
  {
    RecordFits(l, n);
    RecordInTable(l, n);
    RecordFits(l, x);
    RecordInTable(l, x);
    if x != n { RecordsApart(l, n, x); }
    hide RecordBlock, RecordOffset, Regions, RecordsFit, Patched;
    if TableBlock(l, x) == TableBlock(l, n) {
      PatchedElsewhere(disk[TableBlock(l, n)], RecordOffset(l, n), record, RecordOffset(l, x));
    }
  }

  /** Setting one bit of the bitmap marks that data block and nothing else. */
  lemma PutBit(disk: seq<Block>, l: Layout, fs: Fs, d: nat)
    requires LayoutOk(l) && OnDisk(disk, l, fs) && d < l.dataCount
    ensures l.bitmapStart + BitBlock(l, d) < |disk| && BitIndex(l, d) < 8 * |disk[l.bitmapStart + BitBlock(l, d)]|
    ensures var b := l.bitmapStart + BitBlock(l, d);
            OnDisk(disk[b := SetBitmapBit(disk[b], BitIndex(l, d))], l, fs.(used := fs.used[d := true]))
  {
    BitInMap(l, d);
    var b := l.bitmapStart + BitBlock(l, d);
    var disk' := disk[b := SetBitmapBit(disk[b], BitIndex(l, d))];
    hide BitBlock, BitIndex, DecodeInode, SetBitmapBit, TestBitmapBit, RecordsFit, Record;
    InodesElsewhere(disk, disk', l);
    forall x: nat | x < l.inodeCount ensures InodeOnDisk(disk', l, x, fs.inodes[x]) {
      assert InodeOnDisk(disk, l, x, fs.inodes[x]);
    }
    forall e: nat | e < l.dataCount ensures BitOnDisk(disk', l, e) == (e == d || BitOnDisk(disk, l, e)) {
      BitInMap(l, e);
      SetBitmapBitOnly(disk[b], BitIndex(l, d), BitIndex(l, e));
      if BitBlock(l, d) == BitBlock(l, e) && BitIndex(l, d) == BitIndex(l, e) { BitsApart(l, d, e); }
    }
  }

  /** Writing a data block changes that block and nothing else. */
  lemma PutData(disk: seq<Block>, l: Layout, fs: Fs, d: nat, block: Block)
    requires LayoutOk(l) && OnDisk(disk, l, fs) && d < l.dataCount && |block| == l.blockSize
    ensures OnDisk(disk[l.dataStart + d := block], l, fs.(data := fs.data[d := block]))
  {
    var disk' := disk[l.dataStart + d := block];
    hide BitOnDisk, DecodeInode, RecordsFit, Record;
    InodesElsewhere(disk, disk', l);
    BitsElsewhere(disk, disk', l);
    forall x: nat | x < l.inodeCount ensures InodeOnDisk(disk', l, x, fs.inodes[x]) {
      assert InodeOnDisk(disk, l, x, fs.inodes[x]);
    }
  }
}
