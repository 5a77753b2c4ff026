/** Records made of little-endian fields at fixed offsets. */
module Fields {
  import opened LittleEndian
  import opened MemoryBus

  datatype Field = Field(offset: nat, width: nat, value: nat)

  /** The fields lie one after the other inside size bytes, each value within its width. */
  ghost predicate Ordered(fields: seq<Field>, size: nat)
  {
    && (forall i :: 0 <= i < |fields| ==> fields[i].offset + fields[i].width <= size && fields[i].value < Pow256(fields[i].width))
    && (forall i, j :: 0 <= i < j < |fields| ==> fields[i].offset + fields[i].width <= fields[j].offset)
  }

  function PutFields(bytes: seq<Byte>, fields: seq<Field>): (bytes': seq<Byte>)
    requires forall i :: 0 <= i < |fields| ==> fields[i].offset + fields[i].width <= |bytes|
    ensures |bytes'| == |bytes|
    decreases |fields|
  {
    if fields == [] then bytes
    else
      var last := fields[|fields| - 1];
      Store(PutFields(bytes, fields[..|fields| - 1]), last.offset, last.width, last.value)
  }

  /** Every field reads back as written. */
  lemma {:induction false} FieldReadsBack(bytes: seq<Byte>, fields: seq<Field>, i: nat)
    requires Ordered(fields, |bytes|) && i < |fields|
    ensures Load(PutFields(bytes, fields), fields[i].offset, fields[i].width) == fields[i].value
    decreases |fields|
  {
    hide Load, Store;
    var last := fields[|fields| - 1];
    var before := PutFields(bytes, fields[..|fields| - 1]);
    if i == |fields| - 1 {
      LoadAfterStore(before, last.offset, last.width, last.value);
    } else {
      FieldReadsBack(bytes, fields[..|fields| - 1], i);
      LoadElsewhere(before, last.offset, last.width, last.value, fields[i].offset, fields[i].width);
    }
  }

  /** Bytes beyond the last field stay. */
  lemma {:induction false} FieldsLeaveRest(bytes: seq<Byte>, fields: seq<Field>, from: nat)
    requires from <= |bytes| && forall i :: 0 <= i < |fields| ==> fields[i].offset + fields[i].width <= from
    ensures PutFields(bytes, fields)[from..] == bytes[from..]
    decreases |fields|
  {
    if fields != [] {
      FieldsLeaveRest(bytes, fields[..|fields| - 1], from);
      StoreLeavesRest(PutFields(bytes, fields[..|fields| - 1]), fields[|fields| - 1], from);
    }
  }

  lemma StoreLeavesRest(bytes: seq<Byte>, f: Field, from: nat)
    requires f.offset + f.width <= from <= |bytes|
    ensures Store(bytes, f.offset, f.width, f.value)[from..] == bytes[from..]
  {
  }

  lemma Widths()
    ensures Pow256(1) == 0x100 && Pow256(2) == 0x1_0000 && Pow256(4) == 0x1_0000_0000 && Pow256(8) == 0x1_0000_0000_0000_0000
  {
    assert Pow256(3) == 256 * Pow256(2) && Pow256(5) == 256 * Pow256(4) && Pow256(6) == 256 * Pow256(5) && Pow256(7) == 256 * Pow256(6);
  }
}

/** The on-disk layout of SimpleFS and its superblock. */
module SimpleFsLayout {
  import opened LittleEndian
  import opened MemoryBus
  import opened Results
  import opened Arithmetic
  import opened Blocks
  import opened BlockDevice
  import opened Fields

  const TWO_64 := 0x1_0000_0000_0000_0000
  const MAX_U32 := 0xFFFF_FFFF
  const MAGIC := 0x53464E4D
  const VERSION := 1
  const MIN_BLOCK_SIZE := 128
  const INODE_RECORD_SIZE := 64
  const ROOT_INODE := 1

  datatype Layout = Layout(
    blockSize: nat, blockCount: nat, inodeTableStart: nat, inodeTableBlocks: nat, inodeCount: nat,
    bitmapStart: nat, bitmapBlocks: nat, dataStart: nat, dataCount: nat, root: nat)

  function CeilDiv(value: nat, divisor: nat): (q: nat)
    requires divisor > 0
  {
    if value == 0 then 0 else NatDiv(value - 1, divisor) + 1
  }

  function NatDiv(a: nat, b: nat): (q: nat)
    requires b > 0
    ensures q == a / b
  {
    MulOrder(b, a / b + 1, 0);
    a / b
  }

  /** The least count of divisor-sized pieces that cover the value. */
  lemma CeilDivIsLeast(value: nat, divisor: nat, n: nat)
    requires divisor > 0
    ensures value <= n * divisor <==> CeilDiv(value, divisor) <= n
  {
    if value > 0 {
      var q, r := (value - 1) / divisor, (value - 1) % divisor;
      assert value - 1 == divisor * q + r;
      if n <= q {
        MulOrder(divisor, n, q);
      } else {
        MulOrder(divisor, q + 1, n);
        assert divisor * (q + 1) == divisor * q + divisor;
      }
      assert n * divisor == divisor * n;
    } else {
      MulOrder(divisor, 0, n);
      assert n * divisor == divisor * n;
    }
  }

  function MakeLayout(geometry: Geometry, inodeCount: nat): Result<Layout>
  {
    if geometry.blockSize < MIN_BLOCK_SIZE || geometry.blockSize > MAX_U32 then Err(InvalidArgument)
    else
      var tables := CeilDiv(inodeCount * INODE_RECORD_SIZE, geometry.blockSize);
      if tables > MAX_U32 || geometry.blockCount <= 1 + tables then Err(LengthError)
      else
        var bitmapStart := 1 + tables;
        var bitmaps := CeilDiv(geometry.blockCount - bitmapStart, geometry.blockSize * 8);
        var dataStart := bitmapStart + bitmaps;
        if bitmaps > MAX_U32 || dataStart >= geometry.blockCount then Err(LengthError)
        else Ok(Layout(geometry.blockSize, geometry.blockCount, 1, tables, inodeCount, bitmapStart, bitmaps,
                       dataStart, geometry.blockCount - dataStart, ROOT_INODE))
  }

  /** The checks on a layout read from disk; sums and products wrap at 64 bits. */
  predicate LayoutValid(l: Layout, geometry: Geometry)
  {
    && l.blockSize == geometry.blockSize && l.blockCount == geometry.blockCount && l.blockSize >= MIN_BLOCK_SIZE
    && l.inodeCount >= ROOT_INODE && l.root != 0 && l.root <= l.inodeCount
    && l.inodeTableStart != 0 && l.inodeTableBlocks != 0 && l.bitmapBlocks != 0 && l.dataCount != 0
    && (l.inodeTableStart + l.inodeTableBlocks) % TWO_64 <= l.bitmapStart
    && (l.bitmapStart + l.bitmapBlocks) % TWO_64 <= l.dataStart
    && (l.dataStart + l.dataCount) % TWO_64 <= l.blockCount
    && l.bitmapBlocks * l.blockSize * 8 % TWO_64 >= l.dataCount
  }

  /** The regions of a layout follow one another and fill the device, and tables and bitmap are large enough. */
  ghost predicate Regions(l: Layout)
  {
    && l.inodeTableStart == 1
    && l.bitmapStart == l.inodeTableStart + l.inodeTableBlocks
    && l.dataStart == l.bitmapStart + l.bitmapBlocks
    && l.blockCount == l.dataStart + l.dataCount
    && l.inodeTableBlocks > 0 && l.bitmapBlocks > 0 && l.dataCount > 0
    && l.inodeCount * INODE_RECORD_SIZE <= l.inodeTableBlocks * l.blockSize
    && l.dataCount <= l.bitmapBlocks * (l.blockSize * 8)
  }

  /** The least number of pieces of this size that cover the value. */
  ghost predicate LeastCover(value: nat, piece: nat, q: nat)
  {
    value <= q * piece && (q > 0 ==> (q - 1) * piece < value)
  }

  lemma LeastCoverIsCeilDiv(value: nat, piece: nat, q: nat)
    requires piece > 0
    ensures LeastCover(value, piece, q) <==> q == CeilDiv(value, piece)
  {
    hide CeilDiv;
    var c := CeilDiv(value, piece);
    CeilDivIsLeast(value, piece, q);
    CeilDivIsLeast(value, piece, c);
    if q > 0 { CeilDivIsLeast(value, piece, q - 1); }
    if c > 0 { CeilDivIsLeast(value, piece, c - 1); }
  }

  lemma LeastCoverExists(value: nat, piece: nat) returns (q: nat)
    requires piece > 0
    ensures LeastCover(value, piece, q)
  {
    q := CeilDiv(value, piece);
    LeastCoverIsCeilDiv(value, piece, q);
  }

  /**
   Which layouts are made: with the least number of blocks for records of 64 bytes and the least number of bitmap blocks for all blocks
   behind them, a layout is made exactly if the block size is in range, the counts fit 32 bits and a data block is left; and it
   is the one with these counts. The error is otherwise the one for the block size or the one for the device.
   */
  lemma MakeLayoutIff(geometry: Geometry, inodeCount: nat, tables: nat, bitmaps: nat)
    requires geometry.blockSize > 0 && LeastCover(inodeCount * 64, geometry.blockSize, tables)
    requires geometry.blockCount > 1 + tables ==> LeastCover(geometry.blockCount - 1 - tables, geometry.blockSize * 8, bitmaps)
    ensures var r, bs, n := MakeLayout(geometry, inodeCount), geometry.blockSize, geometry.blockCount;
            var sized := 128 <= bs <= 0xFFFF_FFFF;
            && (r.Ok? <==> sized && tables <= 0xFFFF_FFFF && bitmaps <= 0xFFFF_FFFF && 1 + tables + bitmaps < n)
            && (r == Err(InvalidArgument) <==> !sized)
            && (r == Err(LengthError) <==> sized && !r.Ok?)
            && (r.Ok? ==> r.value == Layout(bs, n, 1, tables, inodeCount, 1 + tables, bitmaps, 1 + tables + bitmaps, n - 1 - tables - bitmaps, 1))
  {
    hide CeilDiv;
    LeastCoverIsCeilDiv(inodeCount * 64, geometry.blockSize, tables);
    if geometry.blockCount > 1 + tables {
      LeastCoverIsCeilDiv(geometry.blockCount - 1 - tables, geometry.blockSize * 8, bitmaps);
    }
    hide LeastCover;
  }

  /** Every layout that is made has its regions in place, never overflows 64 bits, and passes the checks. */
  lemma MadeLayoutIsSound(geometry: Geometry, inodeCount: nat)
    requires 0 < inodeCount <= MAX_U32
    requires MakeGeometry(geometry.blockSize, geometry.blockCount) == Ok(geometry)
    requires MakeLayout(geometry, inodeCount).Ok?
    ensures var l := MakeLayout(geometry, inodeCount).value;
            && Regions(l) && LayoutValid(l, geometry)
            && LeastCover(inodeCount * 64, l.blockSize, l.inodeTableBlocks)
            && LeastCover(l.blockCount - l.bitmapStart, l.blockSize * 8, l.bitmapBlocks)
            && l.blockCount < TWO_64 && l.bitmapBlocks * (l.blockSize * 8) < TWO_64
            && l.inodeTableBlocks <= MAX_U32 && l.bitmapBlocks <= MAX_U32
  {
    var l := MakeLayout(geometry, inodeCount).value;
    var bs, n := geometry.blockSize, geometry.blockCount;
    GeometryAccepted(bs, n);
    hide CeilDiv, LayoutValid;
    CeilDivIsLeast(inodeCount * INODE_RECORD_SIZE, bs, l.inodeTableBlocks);
    CeilDivIsLeast(inodeCount * INODE_RECORD_SIZE, bs, 0);
    BitmapFits(bs, n, n - l.bitmapStart);
    LayoutChecks(l, geometry);
    LeastCoverIsCeilDiv(inodeCount * 64, bs, l.inodeTableBlocks);
    LeastCoverIsCeilDiv(n - l.bitmapStart, bs * 8, l.bitmapBlocks);
    hide LeastCover;
  }

  lemma BitmapFits(bs: nat, n: nat, candidates: nat)
    requires MIN_BLOCK_SIZE <= bs <= MAX_U32 && bs * n < TWO_64 && 0 < candidates <= n
    ensures var b := CeilDiv(candidates, bs * 8);
            0 < b && candidates <= b * (bs * 8) < TWO_64 && b * bs * 8 == b * (bs * 8)
  {
    hide CeilDiv;
    var bits := bs * 8;
    var b := CeilDiv(candidates, bits);
    CeilDivIsLeast(candidates, bits, b);
    CeilDivIsLeast(candidates, bits, 0);
    CeilDivIsLeast(candidates, bits, b - 1);
    Distribute(b, bits);
    MulOrder(n, 128, bs);
    assert n * 128 == 128 * n && n * bs == bs * n;
    assert b * bits < 128 * n + bits;
    Associate(b, bs);
  }

  lemma Distribute(b: int, bits: int)
    ensures (b - 1) * bits == b * bits - bits
  {
  }

  lemma Associate(b: int, bs: int)
    ensures b * bs * 8 == b * (bs * 8)
  {
  }

  lemma LayoutChecks(l: Layout, geometry: Geometry)
    requires Regions(l) && l.blockSize == geometry.blockSize >= MIN_BLOCK_SIZE && l.blockCount == geometry.blockCount < TWO_64
    requires l.inodeCount > 0 && l.root == ROOT_INODE && l.bitmapBlocks * l.blockSize * 8 < TWO_64
    requires l.bitmapBlocks * l.blockSize * 8 == l.bitmapBlocks * (l.blockSize * 8)
    ensures LayoutValid(l, geometry)
  {
  }

  // ---------- The superblock ----------

  function SuperblockFields(l: Layout): seq<Field>
  {
    [Field(0, 4, MAGIC), Field(4, 2, VERSION), Field(8, 4, l.blockSize), Field(16, 8, l.blockCount),
     Field(24, 8, l.inodeTableStart), Field(32, 4, l.inodeTableBlocks), Field(36, 4, l.inodeCount),
     Field(40, 8, l.bitmapStart), Field(48, 4, l.bitmapBlocks), Field(56, 8, l.dataStart),
     Field(64, 8, l.dataCount), Field(72, 4, l.root)]
  }

  function WriteSuperblock(l: Layout): (block: Block)
    requires l.blockSize >= MIN_BLOCK_SIZE
    ensures |block| == l.blockSize
  {
    PutFields(seq(l.blockSize, _ => 0), SuperblockFields(l))
  }

  function ReadSuperblock(block: Block, geometry: Geometry): Result<Layout>
    requires |block| >= MIN_BLOCK_SIZE
  {
    if Load(block, 0, 4) != MAGIC then Err(RuntimeError)
    else if Load(block, 4, 2) != VERSION then Err(RuntimeError)
    else
      var l := Layout(Load(block, 8, 4), Load(block, 16, 8), Load(block, 24, 8), Load(block, 32, 4), Load(block, 36, 4),
                      Load(block, 40, 8), Load(block, 48, 4), Load(block, 56, 8), Load(block, 64, 8), Load(block, 72, 4));
      if LayoutValid(l, geometry) then Ok(l) else Err(RuntimeError)
  }

  /** The superblock of every made layout reads back as that layout and passes validation. */
  lemma SuperblockRoundTrip(geometry: Geometry, inodeCount: nat)
    requires 0 < inodeCount <= MAX_U32
    requires MakeGeometry(geometry.blockSize, geometry.blockCount) == Ok(geometry)
    requires MakeLayout(geometry, inodeCount).Ok?
    ensures var l := MakeLayout(geometry, inodeCount).value;
            l.blockSize >= MIN_BLOCK_SIZE && ReadSuperblock(WriteSuperblock(l), geometry) == Ok(l)
  {
    var l := MakeLayout(geometry, inodeCount).value;
    MadeLayoutIsSound(geometry, inodeCount);
    Widths();
    hide LayoutValid, Load, PutFields, Pow256, CeilDiv;
    var zero: Block := seq(l.blockSize, _ => 0);
    var fields := SuperblockFields(l);
    assert Ordered(fields, |zero|);
    forall i: nat | i < 12 ensures Load(PutFields(zero, fields), fields[i].offset, fields[i].width) == fields[i].value {
      FieldReadsBack(zero, fields, i);
    }
    SuperblockReads(WriteSuperblock(l), l, geometry);
  }

  lemma SuperblockReads(block: Block, l: Layout, geometry: Geometry)
    requires |block| >= MIN_BLOCK_SIZE && LayoutValid(l, geometry)
    requires forall i: nat | i < 12 ::
               var f := SuperblockFields(l)[i]; Load(block, f.offset, f.width) == f.value
    ensures ReadSuperblock(block, geometry) == Ok(l)
  {
    hide LayoutValid, Load;
    var f := SuperblockFields(l);
    assert f[0] == Field(0, 4, MAGIC) && f[1] == Field(4, 2, VERSION) && f[2] == Field(8, 4, l.blockSize);
    assert f[3] == Field(16, 8, l.blockCount) && f[4] == Field(24, 8, l.inodeTableStart) && f[5] == Field(32, 4, l.inodeTableBlocks);
    assert f[6] == Field(36, 4, l.inodeCount) && f[7] == Field(40, 8, l.bitmapStart) && f[8] == Field(48, 4, l.bitmapBlocks);
    assert f[9] == Field(56, 8, l.dataStart) && f[10] == Field(64, 8, l.dataCount) && f[11] == Field(72, 4, l.root);
  }

  // ---------- Inode records inside blocks ----------

  function RecordBlock(l: Layout, n: nat): nat
    requires l.blockSize > 0
  {
    NatDiv(n * INODE_RECORD_SIZE, l.blockSize)
  }

  function RecordOffset(l: Layout, n: nat): (o: nat)
    requires l.blockSize > 0
    ensures o < l.blockSize
  {
    n * INODE_RECORD_SIZE % l.blockSize
  }

  /** What the inode table needs of the block size, and what the code does not check. */
  predicate RecordsFit(l: Layout)
    requires l.blockSize > 0
  {
    l.blockSize % INODE_RECORD_SIZE == 0 || l.inodeCount <= l.blockSize / INODE_RECORD_SIZE
  }

  /** No inode record straddles a block exactly when records divide the block or all lie in the first one. */
  lemma NoRecordStraddlesIff(l: Layout)
    requires l.blockSize >= MIN_BLOCK_SIZE
    ensures RecordsFit(l) <==> forall n: nat :: n < l.inodeCount ==> RecordOffset(l, n) + INODE_RECORD_SIZE <= l.blockSize
  {
    var bs := l.blockSize;
    if RecordsFit(l) {
      forall n: nat | n < l.inodeCount ensures RecordOffset(l, n) + INODE_RECORD_SIZE <= bs {
        RecordFits(l, n);
      }
    } else {
      var n := bs / INODE_RECORD_SIZE;
      DivUnique(n * INODE_RECORD_SIZE, bs, 0, n * INODE_RECORD_SIZE);
      assert RecordOffset(l, n) == n * INODE_RECORD_SIZE;
    }
  }

  /** Inode number n lies whole in one block, as read_inode and write_inode take for granted. */
  predicate InodeInBlock(l: Layout, number: nat)
    requires l.blockSize > 0 && number > 0
  {
    RecordOffset(l, number - 1) + INODE_RECORD_SIZE <= l.blockSize
  }

  /**
   For every layout that make_layout accepts: all inode numbers lie whole in a block exactly when
   RecordsFit, and otherwise the first that does not is the one after the records of the first block.
   */
  lemma MadeLayoutStraddlesIff(geometry: Geometry, inodeCount: nat)
    requires MakeLayout(geometry, inodeCount).Ok?
    ensures var l := MakeLayout(geometry, inodeCount).value;
            && l.blockSize == geometry.blockSize >= MIN_BLOCK_SIZE && l.inodeCount == inodeCount
            && (RecordsFit(l) <==> forall number: nat :: 0 < number <= inodeCount ==> InodeInBlock(l, number))
            && (!RecordsFit(l) ==>
                  var first := l.blockSize / INODE_RECORD_SIZE + 1;
                  && 0 < first <= inodeCount && !InodeInBlock(l, first)
                  && forall number: nat :: 0 < number < first ==> InodeInBlock(l, number))
  {
    var l := MakeLayout(geometry, inodeCount).value;
    hide CeilDiv, InodeInBlock;
    if RecordsFit(l) {
      forall number: nat | 0 < number <= inodeCount ensures InodeInBlock(l, number) {
        NumberFits(l, number);
      }
    } else {
      FirstStraddles(l);
    }
  }

  lemma NumberFits(l: Layout, number: nat)
    requires l.blockSize >= MIN_BLOCK_SIZE && RecordsFit(l) && 0 < number <= l.inodeCount
    ensures InodeInBlock(l, number)
  {
    RecordFits(l, number - 1);
  }

  lemma FirstStraddles(l: Layout)
    requires l.blockSize >= MIN_BLOCK_SIZE && !RecordsFit(l)
    ensures var first := l.blockSize / INODE_RECORD_SIZE + 1;
            && 0 < first <= l.inodeCount && !InodeInBlock(l, first)
            && forall number: nat :: 0 < number < first ==> InodeInBlock(l, number)
  {
    var n := l.blockSize / INODE_RECORD_SIZE;
    SmallOffset(l, n);
    forall number: nat | 0 < number < n + 1 ensures InodeInBlock(l, number) {
      SmallOffset(l, number - 1);
    }
  }

  lemma SmallOffset(l: Layout, n: nat)
    requires l.blockSize > 0 && n * INODE_RECORD_SIZE < l.blockSize
    ensures RecordOffset(l, n) == n * INODE_RECORD_SIZE
  {
    DivUnique(n * INODE_RECORD_SIZE, l.blockSize, 0, n * INODE_RECORD_SIZE);
  }

  /** A block size of 160 bytes is accepted, and inode 3 then straddles the first two blocks of the table. */
  lemma StraddlingExample()
    ensures MakeGeometry(160, 100).Ok? && MakeLayout(MakeGeometry(160, 100).value, 3).Ok?
    ensures var l := MakeLayout(MakeGeometry(160, 100).value, 3).value;
            l.blockSize == 160 && !RecordsFit(l) && InodeInBlock(l, 2) && !InodeInBlock(l, 3)
  {
  }

  lemma RecordFits(l: Layout, n: nat)
    requires l.blockSize >= MIN_BLOCK_SIZE && RecordsFit(l) && n < l.inodeCount
    ensures RecordOffset(l, n) + INODE_RECORD_SIZE <= l.blockSize
  {
    var bs := l.blockSize;
    if bs % INODE_RECORD_SIZE == 0 {
      var per := bs / INODE_RECORD_SIZE;
      assert bs == INODE_RECORD_SIZE * per;
      DivModMod(n * INODE_RECORD_SIZE, INODE_RECORD_SIZE, per);
      ModMod(n * INODE_RECORD_SIZE, INODE_RECORD_SIZE, per);
    } else {
      DivUnique(n * INODE_RECORD_SIZE, bs, 0, n * INODE_RECORD_SIZE);
    }
  }

  /** The records of different inodes share no byte, and all lie in the inode table. */
  lemma RecordsApart(l: Layout, n: nat, m: nat)
    requires l.blockSize >= MIN_BLOCK_SIZE && RecordsFit(l) && Regions(l) && n < l.inodeCount && m < l.inodeCount && n != m
    ensures RecordBlock(l, n) == RecordBlock(l, m) ==>
              RecordOffset(l, n) + INODE_RECORD_SIZE <= RecordOffset(l, m) || RecordOffset(l, m) + INODE_RECORD_SIZE <= RecordOffset(l, n)
  {
    var bs := l.blockSize;
    assert n * INODE_RECORD_SIZE == bs * RecordBlock(l, n) + RecordOffset(l, n);
    assert m * INODE_RECORD_SIZE == bs * RecordBlock(l, m) + RecordOffset(l, m);
  }

  lemma RecordInTable(l: Layout, n: nat)
    requires l.blockSize >= MIN_BLOCK_SIZE && Regions(l) && n < l.inodeCount
    ensures RecordBlock(l, n) < l.inodeTableBlocks
  {
    var bs := l.blockSize;
    var q := RecordBlock(l, n);
    assert n * INODE_RECORD_SIZE == bs * q + RecordOffset(l, n);
    assert bs * l.inodeTableBlocks == l.inodeTableBlocks * bs;
    if q >= l.inodeTableBlocks {
      MulOrder(bs, l.inodeTableBlocks, q);
    }
  }
}
