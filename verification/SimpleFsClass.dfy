/** SimpleFS as it runs: every access goes through the buffer cache. */
module SimpleFileSystems {
  import opened LittleEndian
  import opened MemoryBus
  import opened Results
  import opened Arithmetic
  import opened Blocks
  import opened BlockDevice
  import opened BufferCaches
  import opened SimpleFsLayout
  import opened SimpleFsCodec
  import opened SimpleFs
  import opened SimpleFsFiles
  import opened SimpleFsState
  import opened SimpleFsTree
  import opened SimpleFsRefinement
  import opened SimpleFsDisk
  import Fields
  import SimpleFsRuns
  import BufferCacheSpec

  class SimpleFileSystem {
    const cache: BufferCache
    const l: Layout
    ghost var fs: Fs

    /** The cache's blocks hold the file system. */
    ghost predicate Mounted()
      reads this, cache, cache.device
    {
      && LayoutOk(l) && cache.Valid()
      && cache.device.blockSize == l.blockSize && cache.device.blockCount == l.blockCount
      && OnDisk(cache.Disk(), l, fs)
    }

    constructor (cache: BufferCache, l: Layout, ghost fs: Fs)
      requires LayoutOk(l) && cache.Valid() && OnDisk(cache.Disk(), l, fs)
      requires cache.device.blockSize == l.blockSize && cache.device.blockCount == l.blockCount
      ensures this.cache == cache && this.l == l && this.fs == fs && Mounted()
    {
      this.cache, this.l, this.fs := cache, l, fs;
    }

    method ReadDisk(b: nat) returns (block: Block)
      requires Mounted() && b < l.blockCount
      modifies cache, cache.device
      ensures Mounted() && cache.Disk() == old(cache.Disk()) && block == cache.Disk()[b] && |block| == l.blockSize
    {
      hide OnDisk, LayoutOk, BufferCacheSpec.Inv;
      var r := cache.ReadBlock(b, l.blockSize);
      block := r.value;
      BlockIsWhole(cache.Disk(), l, fs, b);
    }

    method ReadInode(n: nat) returns (r: Result<Inode>)
      requires Mounted()
      modifies cache, cache.device
      ensures Mounted() && cache.Disk() == old(cache.Disk())
      ensures r == if n == 0 || n > |fs.inodes| then Err(OutOfRange) else Ok(fs.inodes[n - 1])
    {
      hide OnDisk, BufferCacheSpec.Inv, DecodeInode, RecordsFit, RecordBlock, RecordOffset;
      Sizes(cache.Disk(), l, fs);
      if n == 0 || n > l.inodeCount {
        return Err(OutOfRange);
      }
      RecordInTable(l, n - 1);
      RecordFits(l, n - 1);
      var block := ReadDisk(TableBlock(l, n - 1));
      var offset := RecordOffset(l, n - 1);
      r := DecodeInode(block[offset..offset + RECORD], DIRECT_BLOCKS * l.blockSize, l.dataStart, l.dataCount);
      InodeThere(cache.Disk(), l, fs, n - 1);
    }

    method WriteInode(n: nat, inode: Inode)
      requires Mounted() && 0 < n <= |fs.inodes|
      requires Encodable(inode, DIRECT_BLOCKS * l.blockSize, l.dataStart, l.dataCount)
      modifies cache, cache.device, this`fs
      ensures Mounted() && fs == old(fs).(inodes := old(fs).inodes[n - 1 := inode])
    {
      hide OnDisk, BufferCacheSpec.Inv, Encodable, EncodeInode, RecordsFit, RecordBlock, RecordOffset;
      Sizes(cache.Disk(), l, fs);
      RecordInTable(l, n - 1);
      RecordFits(l, n - 1);
      var b, offset := TableBlock(l, n - 1), RecordOffset(l, n - 1);
      var block := ReadDisk(b);
      PutInode(cache.Disk(), l, fs, n - 1, inode);
      EncodableShape(inode, DIRECT_BLOCKS * l.blockSize, l.dataStart, l.dataCount);
      var _ := cache.WriteBlock(b, Patched(block, offset, EncodeInode(inode)));
      fs := fs.(inodes := fs.inodes[n - 1 := inode]);
    }

    method WriteData(d: nat, block: Block)
      requires Mounted() && d < |fs.data| && |block| == l.blockSize
      modifies cache, cache.device, this`fs
      ensures Mounted() && fs == old(fs).(data := old(fs).data[d := block])
    {
      hide OnDisk, BufferCacheSpec.Inv, RecordsFit;
      Sizes(cache.Disk(), l, fs);
      PutData(cache.Disk(), l, fs, d, block);
      var _ := cache.WriteBlock(l.dataStart + d, block);
      fs := fs.(data := fs.data[d := block]);
    }

    method ReadData(d: nat) returns (block: Block)
      requires Mounted() && d < |fs.data|
      modifies cache, cache.device
      ensures Mounted() && block == fs.data[d] && |block| == l.blockSize
    {
      hide OnDisk, BufferCacheSpec.Inv, RecordsFit;
      Sizes(cache.Disk(), l, fs);
      block := ReadDisk(l.dataStart + d);
      DataThere(cache.Disk(), l, fs, d);
    }

    method TakeBlock(d: nat, bitmap: Block)
      requires Mounted() && d < |fs.used| && |fs.data| == |fs.used| && l.bitmapStart + BitBlock(l, d) < |cache.Disk()|
      requires bitmap == cache.Disk()[l.bitmapStart + BitBlock(l, d)] && BitIndex(l, d) < 8 * |bitmap|
      modifies cache, cache.device, this`fs
      ensures Mounted() && fs == Taken(old(fs), d)
    {
      hide OnDisk, BufferCacheSpec.Inv, RecordsFit, BitBlock, BitIndex, SetBitmapBit;
      Sizes(cache.Disk(), l, fs);
      PutBit(cache.Disk(), l, fs, d);
      BlockIsWhole(cache.Disk(), l, fs, l.bitmapStart + BitBlock(l, d));
      var _ := cache.WriteBlock(l.bitmapStart + BitBlock(l, d), SetBitmapBit(bitmap, BitIndex(l, d)));
      fs := fs.(used := fs.used[d := true]);
      WriteData(d, Zeros(l.blockSize));
    }

    method FindFreeBlock() returns (d: nat, bitmap: Block)
      requires Mounted()
      modifies cache, cache.device
      ensures Mounted() && cache.Disk() == old(cache.Disk()) && d == FirstFree(fs.used)
      ensures d < |fs.used| ==>
                && l.bitmapStart + BitBlock(l, d) < |cache.Disk()| && bitmap == cache.Disk()[l.bitmapStart + BitBlock(l, d)]
                && BitIndex(l, d) < 8 * |bitmap|
    {
      hide OnDisk, BufferCacheSpec.Inv, RecordsFit, FirstFree, BitsPerBlock, BitBlock, BitIndex, TestBitmapBit, Base, Scan;
      Sizes(cache.Disk(), l, fs);
      ScanStarts(fs.used, l);
      for i := 0 to l.bitmapBlocks
        invariant Mounted() && cache.Disk() == old(cache.Disk()) && UsedBelow(fs.used, Base(l, i))
      {
        bitmap := ReadDisk(l.bitmapStart + i);
        if Base(l, i) >= l.dataCount {
          ScanEnds(fs.used, Base(l, i));
          return l.dataCount, bitmap;
        }
        ScanFits(l, i);
        var bit := FirstClear(bitmap, Scan(l, i));
        ScanMeans(cache.Disk(), l, fs, i, bit, bitmap);
        if bit < Scan(l, i) {
          return Base(l, i) + bit, bitmap;
        }
      }
      CoversAll(l);
      ScanEnds(fs.used, Base(l, l.bitmapBlocks));
      return l.dataCount, [];
    }

    /** The scan takes the first free block, zeroes it, and fails only when there is none. */
    method AllocateDataBlock() returns (r: Result<nat>)
      requires Mounted()
      modifies cache, cache.device, this`fs
      ensures Mounted()
      ensures var d := FirstFree(old(fs).used);
              if d < |old(fs).used|
              then r == Ok(l.dataStart + d) && |old(fs).data| == |old(fs).used| && fs == Taken(old(fs), d)
              else r == Err(LengthError) && fs == old(fs)
    {
      hide OnDisk, BufferCacheSpec.Inv, RecordsFit, FirstFree, BitBlock, BitIndex, Taken;
      Sizes(cache.Disk(), l, fs);
      var d, bitmap := FindFreeBlock();
      if d == l.dataCount {
        return Err(LengthError);
      }
      TakeBlock(d, bitmap);
      return Ok(l.dataStart + d);
    }

    method FreeDataBlockCount() returns (count: nat)
      requires Mounted()
      modifies cache, cache.device
      ensures Mounted() && count == FreeCount(fs.used)
    {
      hide OnDisk, BufferCacheSpec.Inv, RecordsFit, FreeCount, BitsPerBlock, BitBlock, BitIndex, TestBitmapBit, Base, Scan, FreeBelow;
      Sizes(cache.Disk(), l, fs);
      ScanStarts(fs.used, l);
      count := 0;
      for i := 0 to l.bitmapBlocks
        invariant Mounted() && count == FreeBelow(fs.used, Base(l, i))
      {
        var bitmap := ReadDisk(l.bitmapStart + i);
        if Base(l, i) >= l.dataCount {
          AllCounted(fs.used, Base(l, i));
          return;
        }
        ScanFits(l, i);
        var more := CountClear(bitmap, Scan(l, i));
        CountMeans(cache.Disk(), l, fs, i, Scan(l, i));
        NextBase(l, i);
        NextCount(fs.used, l, i);
        count := count + more;
      }
      CoversAll(l);
      AllCounted(fs.used, Base(l, l.bitmapBlocks));
    }

    // ---------- Bytes of an inode ----------

    method ReadTurn(inode: Inode, cur: nat, c: nat) returns (piece: seq<Byte>)
      requires Mounted() && fs.bs == l.blockSize > 0 && InodeOk(fs, inode)
      requires Rem(cur, l.blockSize) + c <= l.blockSize && Quot(cur, l.blockSize) < DIRECT_BLOCKS
      modifies cache, cache.device
      ensures Mounted() && fs.bs == l.blockSize && piece == PieceAt(fs, inode, cur, c)
    {
      hide OnDisk, BufferCacheSpec.Inv, LayoutOk, SlotsOk, Quot, Rem;
      Sizes(cache.Disk(), l, fs);
      SlotsInRange(fs, inode);
      var a, o := inode.direct[Quot(cur, l.blockSize)], Rem(cur, l.blockSize);
      if a == EMPTY_BLOCK {
        return Zeros(c);
      }
      assert AddressOk(a, fs.start, |fs.data|);
      var block := ReadData(a - l.dataStart);
      return block[o..o + c];
    }

    method ReadLoop(inode: Inode, offset: nat, total: nat) returns (bytes: seq<Byte>)
      requires Mounted() && inode.Inode? && InodeOk(fs, inode) && offset + total <= inode.size
      modifies cache, cache.device
      ensures Mounted() && bytes == ReadWhole(fs, inode, offset, total)
    {
      hide OnDisk, BufferCacheSpec.Inv, LayoutOk, InodeOk, ReadWhole, PieceAt, Quot, Rem, Chunk;
      bytes := [];
      Sizes(cache.Disk(), l, fs);
      var cur: nat, remaining: nat := offset, total;
      ghost var whole := ReadWhole(fs, inode, offset, total);
      while remaining > 0
        invariant Mounted() && cur + remaining <= inode.size
        invariant whole == bytes + ReadWhole(fs, inode, cur, remaining)
        decreases remaining
      {
        var c := Chunk(l.blockSize, cur, remaining);
        ReadChunksUnfold(fs, inode, cur, remaining);
        var piece := ReadTurn(inode, cur, c);
        Associates(bytes, piece, ReadWhole(fs, inode, cur + c, remaining - c));
        bytes := bytes + piece;
        cur, remaining := cur + c, remaining - c;
      }
      ReadNothing(fs, inode, cur);
    }

    method ReadInodeBytes(inode: Inode, offset: nat, count: nat) returns (bytes: seq<Byte>)
      requires Mounted() && InodeOk(fs, inode)
      modifies cache, cache.device
      ensures Mounted() && bytes == ReadBytes(fs, inode, offset, count)
    {
      hide OnDisk, BufferCacheSpec.Inv, LayoutOk, SlotsOk, ReadChunks;
      if offset >= inode.size || count == 0 {
        return [];
      }
      bytes := ReadLoop(inode, offset, if count < inode.size - offset then count else inode.size - offset);
    }

    /** One turn of the write loop. */
    method WriteTurn(inode: Inode, ghost m: nat, cur: nat, piece: seq<Byte>) returns (inode': Inode)
      requires Mounted() && CanWriteOne(fs, inode, m, cur, |piece|)
      modifies cache, cache.device, this`fs
      ensures Mounted() && (fs, inode') == WriteOne(old(fs), inode, m, cur, piece)
    {
      hide OnDisk, BufferCacheSpec.Inv, LayoutOk, Quot, Rem, FirstFree;
      Sizes(cache.Disk(), l, fs);
      var k, o := Quot(cur, l.blockSize), Rem(cur, l.blockSize);
      var a := inode.direct[k];
      var block := Zeros(l.blockSize);
      if a == EMPTY_BLOCK {
        var found := AllocateDataBlock();
        a := found.value;
      } else {
        block := ReadData(a - l.dataStart);
        assert fs.used[a - l.dataStart := true] == fs.used;
      }
      inode' := inode.(direct := inode.direct[k := a]);
      ghost var d := a - l.dataStart;
      var next := block[..o] + piece + block[o + |piece|..];
      WriteData(a - l.dataStart, next);
      assert old(fs).data[d := Zeros(l.blockSize)][d := next] == old(fs).data[d := next];
    }

    method WriteInodeBytes(inode: Inode, offset: nat, source: seq<Byte>) returns (inode': Inode, r: Result<nat>)
      requires Mounted() && InodeOk(fs, inode)
      modifies cache, cache.device, this`fs
      ensures Mounted() && (fs, inode', r) == WriteBytes(old(fs), inode, offset, source)
    {
      hide OnDisk, BufferCacheSpec.Inv, LayoutOk, Quot, Rem, FreeCount, BlocksFor, CountSlots, WriteChunks, SlotsOk;
      Sizes(cache.Disk(), l, fs);
      inode' := inode;
      if offset > inode.size {
        return inode, Err(InvalidArgument);
      }
      if source == [] {
        return inode, Ok(0);
      }
      if |source| > MAX_U64 - offset {
        return inode, Err(LengthError);
      }
      var blocks := AdditionalBlocks(l.blockSize, inode, offset + |source|);
      if blocks.Err? {
        return inode, Err(blocks.error);
      }
      var available := FreeDataBlockCount();
      if blocks.value > available {
        return inode, Err(LengthError);
      }
      AcceptedMeansCanWrite(fs, inode, offset, |source|);
      inode' := WriteLoop(inode, BlocksFor(inode.size, l.blockSize), offset, source);
      inode' := inode'.(size := Max(inode.size, offset + |source|));
      r := Ok(|source|);
    }

    method WriteLoop(inode: Inode, ghost slots: nat, offset: nat, source: seq<Byte>) returns (inode': Inode)
      requires Mounted() && CanWrite(fs, inode, slots, offset, |source|)
      modifies cache, cache.device, this`fs
      ensures Mounted() && (fs, inode') == WriteChunks(old(fs), inode, slots, offset, source)
    {
      hide OnDisk, BufferCacheSpec.Inv, LayoutOk, CanWrite, CanWriteOne, WriteOne, Chunk, Extends;
      inode' := inode;
      var cur, done := offset, 0;
      ghost var m := slots;
      ghost var whole := WriteChunks(fs, inode, slots, offset, source);
      assert source[0..] == source;
      while done < |source|
        invariant done <= |source| && Mounted() && CanWrite(fs, inode', m, cur, |source| - done)
        invariant WriteChunks(fs, inode', m, cur, source[done..]) == whole
        decreases |source| - done
      {
        Sizes(cache.Disk(), l, fs);
        var c := Chunk(l.blockSize, cur, |source| - done);
        WriteChunksUnfold(fs, inode', m, cur, source[done..]);
        ghost var m' := Grown(fs, m, cur);
        assert source[done..][..c] == source[done..done + c] && source[done..][c..] == source[done + c..];
        inode' := WriteTurn(inode', m, cur, source[done..done + c]);
        m, cur, done := m', cur + c, done + c;
      }
      WriteChunksEnd(fs, inode', m, cur, source[done..]);
    }

    method AllocateInode(kind: Kind) returns (r: Result<nat>)
      requires Mounted()
      modifies cache, cache.device, this`fs
      ensures Mounted()
      ensures var i := FirstFreeInode(old(fs).inodes);
              if i < |old(fs).inodes| then r == Ok(i + 1) && fs == WithNewInode(old(fs), i, kind)
              else r == Err(LengthError) && fs == old(fs)
    {
      hide OnDisk, BufferCacheSpec.Inv, FirstFreeInode, Encodable, RecordsFit;
      Sizes(cache.Disk(), l, fs);
      for n := 1 to l.inodeCount + 1
        invariant Mounted() && fs == old(fs) && forall j :: 0 <= j < n - 1 ==> !fs.inodes[j].Free?
      {
        var inode := ReadInode(n);
        if inode.value.Free? {
          EmptyIsEncodable(l, kind);
          WriteInode(n, Inode(kind, 0, NO_BLOCKS));
          return Ok(n);
        }
      }
      return Err(LengthError);
    }

    // ---------- Files and directories ----------

    method ReadFile(n: nat, offset: nat, count: nat) returns (r: Result<seq<Byte>>)
      requires Mounted() && Inv(fs)
      modifies cache, cache.device
      ensures Mounted() && r == FsRead(fs, n, offset, count)
    {
      hide OnDisk, BufferCacheSpec.Inv, LayoutOk, InodeOk, ReadBytes;
      var inode := ReadInode(n);
      if inode.Err? || inode.value.Free? {
        return Err(OutOfRange);
      }
      if inode.value.kind != FILE {
        return Err(InvalidArgument);
      }
      assert NodeOk(fs, n - 1);
      var bytes := ReadInodeBytes(inode.value, offset, count);
      return Ok(bytes);
    }

    method WriteFile(n: nat, offset: nat, source: seq<Byte>) returns (r: Result<nat>)
      requires Mounted() && Inv(fs)
      modifies cache, cache.device, this`fs
      ensures Mounted() && (fs, r) == FsWrite(old(fs), n, offset, source)
    {
      hide OnDisk, BufferCacheSpec.Inv, LayoutOk, InodeOk, WriteBytes, Encodable;
      Sizes(cache.Disk(), l, fs);
      var inode := ReadInode(n);
      if inode.Err? || inode.value.Free? {
        return Err(OutOfRange);
      }
      if inode.value.kind != FILE {
        return Err(InvalidArgument);
      }
      assert NodeOk(fs, n - 1);
      WriteKeepsCount(fs, inode.value, offset, source);
      WrittenIsEncodable(cache.Disk(), l, fs, inode.value, offset, source);
      var inode';
      inode', r := WriteInodeBytes(inode.value, offset, source);
      if r.Ok? {
        WriteInode(n, inode');
      }
    }

    method ReadDirectory(n: nat) returns (r: Result<seq<Entry>>)
      requires Mounted() && Inv(fs)
      modifies cache, cache.device
      ensures Mounted() && r == FsDirectory(fs, n)
    {
      hide OnDisk, BufferCacheSpec.Inv, LayoutOk, InodeOk, ReadBytes, DecodeEntry;
      var inode := ReadInode(n);
      if inode.Err? || inode.value.Free? {
        return Err(OutOfRange);
      }
      if inode.value.kind != DIRECTORY {
        return Err(InvalidArgument);
      }
      if inode.value.size % RECORD != 0 {
        return Err(RuntimeError);
      }
      assert NodeOk(fs, n - 1);
      ReadAll(fs, inode.value);
      var bytes := ReadInodeBytes(inode.value, 0, inode.value.size);
      r := DecodeEntries(bytes, inode.value.size / RECORD);
    }

    method Lookup(n: nat, name: seq<Byte>) returns (r: Result<Option<Entry>>)
      requires Mounted() && Inv(fs)
      modifies cache, cache.device
      ensures Mounted() && r == FsLookup(fs, n, name)
    {
      hide OnDisk, BufferCacheSpec.Inv, LayoutOk, Inv, FsDirectory, FindName;
      if !ValidName(name) {
        return Err(InvalidArgument);
      }
      var entries := ReadDirectory(n);
      if entries.Err? {
        return Err(entries.error);
      }
      for i := 0 to |entries.value|
        invariant Mounted() && forall j :: 0 <= j < i ==> entries.value[j].name != name
      {
        if entries.value[i].name == name {
          return Ok(Some(entries.value[i]));
        }
      }
      return Ok(None);
    }

    /** create_file and create_directory. */
    method CreateNode(n: nat, name: seq<Byte>, kind: Kind) returns (r: Result<nat>)
      requires Mounted() && Inv(fs)
      modifies cache, cache.device, this`fs
      ensures Mounted() && (fs, r) == FsCreate(old(fs), n, name, kind)
    {
      hide OnDisk, BufferCacheSpec.Inv, LayoutOk, InodeOk, WriteBytes, Encodable, FreeCount, CountSlots, BlocksFor, EncodeEntry, FsDirectory, FirstFreeInode;
      Sizes(cache.Disk(), l, fs);
      var found := Lookup(n, name);
      if found.Err? {
        return Err(found.error);
      }
      if found.value.Some? {
        return Err(InvalidArgument);
      }
      FoundInDirectory(fs, n, name);
      var parent := ReadInode(n);
      var inode := parent.value;
      var blocks := AdditionalBlocks(l.blockSize, inode, inode.size + RECORD);
      if blocks.Err? {
        return Err(blocks.error);
      }
      var available := FreeDataBlockCount();
      if blocks.value > available {
        return Err(LengthError);
      }
      assert NodeOk(fs, n - 1);
      var number := AllocateInode(kind);
      if number.Err? {
        return Err(number.error);
      }
      var entry := EncodeEntry(Entry(name, number.value, kind));
      SameBytes(old(fs), fs, inode);
      WriteKeepsCount(fs, inode, inode.size, entry);
      Sizes(cache.Disk(), l, fs);
      WrittenIsEncodable(cache.Disk(), l, fs, inode, inode.size, entry);
      var inode', written := WriteInodeBytes(inode, inode.size, entry);
      if written.Err? {
        return Err(written.error);
      }
      WriteInode(n, inode');
      return number;
    }
  }

  // ---------- Format ----------

  /** The block at an address after format: superblock, root inode, or zeros. */
  function FormattedBlock(l: Layout, b: nat): Block
    requires l.blockSize >= MIN_BLOCK_SIZE
  {
    if b == 0 then WriteSuperblock(l)
    else if b == l.inodeTableStart then Patched(Zeros(l.blockSize), 0, EncodeInode(Inode(DIRECTORY, 0, NO_BLOCKS)))
    else Zeros(l.blockSize)
  }

  method ZeroBlocks(cache: BufferCache)
    requires cache.Valid()
    modifies cache, cache.device
    ensures cache.Valid()
    ensures forall b :: 0 <= b < cache.device.blockCount ==> cache.Disk()[b] == Zeros(cache.device.blockSize)
  {
    hide BufferCacheSpec.Inv;
    for b := 0 to cache.device.blockCount
      invariant cache.Valid() && forall x :: 0 <= x < b ==> cache.Disk()[x] == Zeros(cache.device.blockSize)
    {
      var _ := cache.WriteBlock(b, Zeros(cache.device.blockSize));
    }
  }

  /** Every block zeroed, a superblock, and an empty root directory, for every layout that make_layout accepts. */
  method Format(cache: BufferCache, l: Layout)
    requires LayoutSound(l) && cache.Valid() && cache.device.blockSize == l.blockSize && cache.device.blockCount == l.blockCount
    modifies cache, cache.device
    ensures cache.Valid() && cache.device.Contents() == cache.Disk()
    ensures forall b: nat :: b < l.blockCount ==> cache.Disk()[b] == FormattedBlock(l, b)
    ensures RecordsFit(l) ==> OnDisk(cache.Disk(), l, SimpleFsRuns.Formatted(l.blockSize, l.dataStart, l.inodeCount, l.dataCount))
  {
    hide BufferCacheSpec.Inv, OnDisk, RecordsFit, WriteSuperblock, EncodeInode, SimpleFsRuns.Formatted;
    ZeroBlocks(cache);
    var _ := cache.WriteBlock(0, WriteSuperblock(l));
    var _ := cache.WriteBlock(l.inodeTableStart, Patched(Zeros(l.blockSize), 0, EncodeInode(Inode(DIRECTORY, 0, NO_BLOCKS))));
    cache.FlushAllEntries();
    if RecordsFit(l) {
      FormattedDisk(cache.Disk(), l);
    }
  }

  lemma FormattedDisk(disk: seq<Block>, l: Layout)
    requires LayoutOk(l) && |disk| == l.blockCount && forall b: nat :: b < l.blockCount ==> disk[b] == FormattedBlock(l, b)
    ensures OnDisk(disk, l, SimpleFsRuns.Formatted(l.blockSize, l.dataStart, l.inodeCount, l.dataCount))
  {
    hide OnDisk, RecordsFit, WriteSuperblock, EncodeInode, Encodable, SimpleFsRuns.Formatted;
    var b := l.inodeTableStart;
    var blank := disk[b := Zeros(l.blockSize)];
    BlankDisk(blank, l);
    EmptyIsEncodable(l, DIRECTORY);
    PutInode(blank, l, Blank(l), 0, Inode(DIRECTORY, 0, NO_BLOCKS));
    FirstRecord(l);
    FormattedIs(l);
    assert disk == blank[b := FormattedBlock(l, b)];
  }

  /** The file system once data block d is taken: marked used, and zeroed. */
  ghost function Taken(fs: Fs, d: nat): Fs
    requires d < |fs.used| && |fs.data| == |fs.used|
  {
    fs.(used := fs.used[d := true], data := fs.data[d := Zeros(fs.bs)])
  }

  // ---------- Facts about the disk, one at a time ----------

  lemma BlockIsWhole(disk: seq<Block>, l: Layout, fs: Fs, b: nat)
    requires LayoutOk(l) && OnDisk(disk, l, fs) && b < l.blockCount
    ensures |disk| == l.blockCount && |disk[b]| == l.blockSize
  {
  }

  lemma Sizes(disk: seq<Block>, l: Layout, fs: Fs)
    requires LayoutOk(l) && OnDisk(disk, l, fs)
    ensures |disk| == l.blockCount && fs.bs == l.blockSize && fs.start == l.dataStart
    ensures |fs.inodes| == l.inodeCount && |fs.used| == |fs.data| == l.dataCount && Shape(fs)
  {
    OnDiskShape(disk, l, fs);
  }

  lemma InodeThere(disk: seq<Block>, l: Layout, fs: Fs, n: nat)
    requires LayoutOk(l) && OnDisk(disk, l, fs) && n < l.inodeCount
    ensures TableBlock(l, n) < |disk| && RecordOffset(l, n) + RECORD <= |disk[TableBlock(l, n)]|
    ensures DecodeInode(disk[TableBlock(l, n)][RecordOffset(l, n)..RecordOffset(l, n) + RECORD], DIRECT_BLOCKS * l.blockSize, l.dataStart, l.dataCount)
            == Ok(fs.inodes[n])
  {
    RecordInTable(l, n);
    RecordFits(l, n);
    assert InodeOnDisk(disk, l, n, fs.inodes[n]);
    hide DecodeInode, RecordsFit, RecordBlock, RecordOffset;
  }

  lemma DataThere(disk: seq<Block>, l: Layout, fs: Fs, d: nat)
    requires LayoutOk(l) && OnDisk(disk, l, fs) && d < l.dataCount
    ensures disk[l.dataStart + d] == fs.data[d]
  {
  }

  lemma BitThere(disk: seq<Block>, l: Layout, fs: Fs, d: nat)
    requires LayoutOk(l) && OnDisk(disk, l, fs) && d < l.dataCount
    ensures l.bitmapStart + BitBlock(l, d) < |disk| && BitIndex(l, d) < 8 * |disk[l.bitmapStart + BitBlock(l, d)]|
    ensures TestBitmapBit(disk[l.bitmapStart + BitBlock(l, d)], BitIndex(l, d)) == fs.used[d]
  {
    BitInMap(l, d);
    hide TestBitmapBit, RecordsFit, BitBlock, BitIndex;
    assert BitOnDisk(disk, l, d) == fs.used[d];
  }

  lemma EncodableShape(inode: Inode, maxSize: nat, dataStart: nat, dataCount: nat)
    requires Encodable(inode, maxSize, dataStart, dataCount)
    ensures inode.Inode? ==> |inode.direct| == DIRECT_BLOCKS
  {
  }

  // ---------- Scanning the bitmap ----------

  /** The first data block that bitmap block i speaks for. */
  function Base(l: Layout, i: nat): nat
  {
    i * BitsPerBlock(l)
  }

  /** How many bits of bitmap block i are in use. */
  function Scan(l: Layout, i: nat): nat
    requires Base(l, i) < l.dataCount
  {
    if BitsPerBlock(l) < l.dataCount - Base(l, i) then BitsPerBlock(l) else l.dataCount - Base(l, i)
  }

  ghost predicate AllSet(bitmap: Block, n: nat)
    requires n <= 8 * |bitmap|
  {
    forall j: nat :: j < n ==> TestBitmapBit(bitmap, j)
  }

  method FirstClear(bitmap: Block, scan: nat) returns (bit: nat)
    requires scan <= 8 * |bitmap|
    ensures bit <= scan && AllSet(bitmap, bit) && (bit < scan ==> !TestBitmapBit(bitmap, bit))
  {
    bit := 0;
    while bit < scan && TestBitmapBit(bitmap, bit)
      invariant bit <= scan && AllSet(bitmap, bit)
    {
      bit := bit + 1;
    }
  }

  ghost function ClearBelow(bitmap: Block, n: nat): nat
    requires n <= 8 * |bitmap|
  {
    if n == 0 then 0 else ClearBelow(bitmap, n - 1) + (if TestBitmapBit(bitmap, n - 1) then 0 else 1)
  }

  method CountClear(bitmap: Block, scan: nat) returns (count: nat)
    requires scan <= 8 * |bitmap|
    ensures count == ClearBelow(bitmap, scan)
  {
    count := 0;
    for bit := 0 to scan
      invariant count == ClearBelow(bitmap, bit)
    {
      if !TestBitmapBit(bitmap, bit) {
        count := count + 1;
      }
    }
  }

  ghost predicate UsedBelow(used: seq<bool>, n: nat)
  {
    forall d :: 0 <= d < |used| && d < n ==> used[d]
  }

  lemma ScanStarts(used: seq<bool>, l: Layout)
    ensures UsedBelow(used, Base(l, 0)) && FreeBelow(used, Base(l, 0)) == 0
  {
  }

  lemma ScanFits(l: Layout, i: nat)
    requires LayoutOk(l) && Base(l, i) < l.dataCount
    ensures Scan(l, i) <= 8 * l.blockSize
  {
  }

  lemma NextBase(l: Layout, i: nat)
    requires Base(l, i) < l.dataCount
    ensures Base(l, i + 1) == Base(l, i) + BitsPerBlock(l)
    ensures if Base(l, i + 1) < l.dataCount then Base(l, i) + Scan(l, i) == Base(l, i + 1) else Base(l, i) + Scan(l, i) == l.dataCount
  {
    assert (i + 1) * BitsPerBlock(l) == i * BitsPerBlock(l) + BitsPerBlock(l);
  }

  lemma BitAt(disk: seq<Block>, l: Layout, fs: Fs, i: nat, bit: nat)
    requires LayoutOk(l) && OnDisk(disk, l, fs) && i < l.bitmapBlocks && Base(l, i) < l.dataCount && bit < Scan(l, i)
    ensures var d := Base(l, i) + bit;
            && d < l.dataCount && BitBlock(l, d) == i && BitIndex(l, d) == bit
            && l.bitmapStart + i < |disk| && bit < 8 * |disk[l.bitmapStart + i]|
            && TestBitmapBit(disk[l.bitmapStart + i], bit) == fs.used[d]
  {
    hide OnDisk, BitBlock, BitIndex, TestBitmapBit, RecordsFit;
    BitPlace(l, i, bit);
    BitThere(disk, l, fs, Base(l, i) + bit);
  }

  lemma {:induction false} UsedByBits(disk: seq<Block>, l: Layout, fs: Fs, i: nat, bit: nat, bitmap: Block)
    requires LayoutOk(l) && OnDisk(disk, l, fs) && i < l.bitmapBlocks && Base(l, i) < l.dataCount && bit <= Scan(l, i)
    requires UsedBelow(fs.used, Base(l, i)) && l.bitmapStart + i < |disk| && bitmap == disk[l.bitmapStart + i]
    requires bit <= 8 * |bitmap| && AllSet(bitmap, bit)
    ensures UsedBelow(fs.used, Base(l, i) + bit)
  {
    hide OnDisk, BitBlock, BitIndex, TestBitmapBit, RecordsFit, Base, Scan;
    if bit > 0 {
      UsedByBits(disk, l, fs, i, bit - 1, bitmap);
      BitAt(disk, l, fs, i, bit - 1);
      assert TestBitmapBit(bitmap, bit - 1);
    }
  }

  lemma ScanMeans(disk: seq<Block>, l: Layout, fs: Fs, i: nat, bit: nat, bitmap: Block)
    requires LayoutOk(l) && OnDisk(disk, l, fs) && i < l.bitmapBlocks && Base(l, i) < l.dataCount && bit <= Scan(l, i)
    requires UsedBelow(fs.used, Base(l, i)) && l.bitmapStart + i < |disk| && bitmap == disk[l.bitmapStart + i]
    requires Scan(l, i) <= 8 * |bitmap| && AllSet(bitmap, bit) && (bit < Scan(l, i) ==> !TestBitmapBit(bitmap, bit))
    ensures bit < Scan(l, i) ==>
              var d := Base(l, i) + bit;
              FirstFree(fs.used) == d && d < |fs.used| && BitBlock(l, d) == i && BitIndex(l, d) == bit
    ensures bit == Scan(l, i) ==> UsedBelow(fs.used, Base(l, i + 1))
  {
    hide OnDisk, BitBlock, BitIndex, TestBitmapBit, RecordsFit, Base, Scan, FirstFree;
    Sizes(disk, l, fs);
    UsedByBits(disk, l, fs, i, bit, bitmap);
    NextBase(l, i);
    if bit < Scan(l, i) {
      BitAt(disk, l, fs, i, bit);
      FirstIs(fs.used, Base(l, i) + bit);
    }
  }

  lemma FirstIs(used: seq<bool>, d: nat)
    requires d < |used| && !used[d] && UsedBelow(used, d)
    ensures FirstFree(used) == d
  {
  }

  lemma ScanEnds(used: seq<bool>, n: nat)
    requires UsedBelow(used, n) && n >= |used|
    ensures FirstFree(used) == |used|
  {
  }

  lemma CoversAll(l: Layout)
    requires LayoutOk(l)
    ensures Base(l, l.bitmapBlocks) >= l.dataCount
  {
  }

  /** The free blocks among the first n. */
  ghost function FreeBelow(used: seq<bool>, n: nat): nat
  {
    FreeCount(used[..if n < |used| then n else |used|])
  }

  lemma AllCounted(used: seq<bool>, n: nat)
    requires n >= |used|
    ensures FreeBelow(used, n) == FreeCount(used)
  {
    assert used[..|used|] == used;
  }

  lemma {:induction false} FreeAppend(used: seq<bool>, b: bool)
    ensures FreeCount(used + [b]) == FreeCount(used) + (if b then 0 else 1)
  {
    if used == [] {
      assert used + [b] == [b] && [b][1..] == [];
    } else {
      FreeAppend(used[1..], b);
      assert (used + [b])[1..] == used[1..] + [b];
    }
  }

  lemma OneMore(used: seq<bool>, d: nat)
    requires d < |used|
    ensures FreeBelow(used, d + 1) == FreeBelow(used, d) + (if used[d] then 0 else 1)
  {
    FreeAppend(used[..d], used[d]);
    assert used[..d] + [used[d]] == used[..d + 1];
  }

  lemma {:induction false} CountMeans(disk: seq<Block>, l: Layout, fs: Fs, i: nat, n: nat)
    requires LayoutOk(l) && OnDisk(disk, l, fs) && i < l.bitmapBlocks && Base(l, i) < l.dataCount && n <= Scan(l, i)
    requires l.bitmapStart + i < |disk| && Scan(l, i) <= 8 * |disk[l.bitmapStart + i]|
    ensures FreeBelow(fs.used, Base(l, i) + n) == FreeBelow(fs.used, Base(l, i)) + ClearBelow(disk[l.bitmapStart + i], n)
  {
    hide OnDisk, BitBlock, BitIndex, TestBitmapBit, RecordsFit, Base, Scan, FreeBelow;
    if n > 0 {
      Sizes(disk, l, fs);
      CountMeans(disk, l, fs, i, n - 1);
      BitAt(disk, l, fs, i, n - 1);
      OneMore(fs.used, Base(l, i) + n - 1);
    }
  }

  lemma NextCount(used: seq<bool>, l: Layout, i: nat)
    requires Base(l, i) < l.dataCount == |used|
    ensures FreeBelow(used, Base(l, i) + Scan(l, i)) == FreeBelow(used, Base(l, i + 1))
  {
    NextBase(l, i);
  }

  // ---------- Facts about the loops ----------

  /** The read loop on an inode in order. */
  ghost function ReadWhole(fs: Fs, inode: Inode, cur: nat, n: nat): seq<Byte>
    requires InodeOk(fs, inode) && cur + n <= inode.size
  {
    SlotsInRange(fs, inode);
    ReadChunks(fs, inode, cur, n)
  }

  /** The bytes of an inode inside one block. */
  ghost function PieceAt(fs: Fs, inode: Inode, cur: nat, c: nat): (piece: seq<Byte>)
    requires InodeOk(fs, inode) && Rem(cur, fs.bs) + c <= fs.bs && Quot(cur, fs.bs) < DIRECT_BLOCKS
  {
    SlotsInRange(fs, inode);
    var a, o := inode.direct[Quot(cur, fs.bs)], Rem(cur, fs.bs);
    assert AddressOk(a, fs.start, |fs.data|);
    if a == EMPTY_BLOCK then Zeros(c) else fs.data[a - fs.start][o..o + c]
  }

  lemma ReadChunksUnfold(fs: Fs, inode: Inode, cur: nat, n: nat)
    requires InodeOk(fs, inode) && cur + n <= inode.size && n > 0
    ensures fs.bs > 0 && Quot(cur, fs.bs) < DIRECT_BLOCKS
    ensures var c := Chunk(fs.bs, cur, n);
            ReadWhole(fs, inode, cur, n) == PieceAt(fs, inode, cur, c) + ReadWhole(fs, inode, cur + c, n - c)
  {
    SlotsInRange(fs, inode);
    QuotBound(cur, fs.bs, DIRECT_BLOCKS);
    hide SlotsOk, Quot, Rem, Chunk, BlocksFor;
  }

  lemma ReadNothing(fs: Fs, inode: Inode, cur: nat)
    requires InodeOk(fs, inode) && cur <= inode.size
    ensures ReadWhole(fs, inode, cur, 0) == []
  {
    SlotsInRange(fs, inode);
  }

  lemma Associates(a: seq<Byte>, b: seq<Byte>, c: seq<Byte>)
    ensures a + (b + c) == (a + b) + c
  {
  }

  lemma WriteChunksUnfold(fs: Fs, inode: Inode, m: nat, cur: nat, source: seq<Byte>)
    requires CanWrite(fs, inode, m, cur, |source|) && source != []
    ensures fs.bs > 0 && Chunk(fs.bs, cur, |source|) <= |source|
    ensures var c := Chunk(fs.bs, cur, |source|);
            && CanWriteOne(fs, inode, m, cur, c)
            && var (fs1, inode1) := WriteOne(fs, inode, m, cur, source[..c]);
            && CanWrite(fs1, inode1, Grown(fs, m, cur), cur + c, |source| - c)
            && WriteChunks(fs, inode, m, cur, source) == WriteChunks(fs1, inode1, Grown(fs, m, cur), cur + c, source[c..])
  {
    hide WriteOne, CanWriteOne, Extends, Quot, Rem, SlotsOk, BlocksFor, FreeCount, Grown, Chunk;
    var c := Chunk(fs.bs, cur, |source|);
    ChunkIsWritable(fs, inode, m, cur, |source|);
    WriteOneSlots(fs, inode, m, cur, source[..c]);
    var (fs1, inode1) := WriteOne(fs, inode, m, cur, source[..c]);
    RestIsWritable(fs, inode, m, cur, |source|, fs1, inode1);
  }

  lemma WriteChunksEnd(fs: Fs, inode: Inode, m: nat, cur: nat, source: seq<Byte>)
    requires CanWrite(fs, inode, m, cur, |source|) && source == []
    ensures WriteChunks(fs, inode, m, cur, source) == (fs, inode)
  {
  }

  lemma EmptyIsEncodable(l: Layout, kind: Kind)
    requires LayoutOk(l)
    ensures Encodable(Inode(kind, 0, NO_BLOCKS), DIRECT_BLOCKS * l.blockSize, l.dataStart, l.dataCount)
  {
    Fields.Widths();
    hide Pow256;
  }

  lemma OkIsEncodable(disk: seq<Block>, l: Layout, fs: Fs, inode: Inode)
    requires LayoutOk(l) && fs.bs == l.blockSize && fs.start == l.dataStart && |fs.data| == l.dataCount && InodeOk(fs, inode)
    ensures Encodable(inode, DIRECT_BLOCKS * l.blockSize, l.dataStart, l.dataCount)
  {
    Fields.Widths();
    SlotsInRange(fs, inode);
    hide Pow256, SlotsOk, BlocksFor;
  }

  lemma WrittenIsEncodable(disk: seq<Block>, l: Layout, fs: Fs, inode: Inode, offset: nat, source: seq<Byte>)
    requires LayoutOk(l) && OnDisk(disk, l, fs) && InodeOk(fs, inode)
    ensures var (fs', inode', r) := WriteBytes(fs, inode, offset, source);
            r.Ok? ==> Encodable(inode', DIRECT_BLOCKS * l.blockSize, l.dataStart, l.dataCount)
  {
    assert inode.Inode?;
    hide OnDisk, InodeOk, WriteChunks, Encodable, LayoutOk;
    Sizes(disk, l, fs);
    if WriteRefusal(fs, inode, offset, |source|).None? {
      if source == [] {
        OkIsEncodable(disk, l, fs, inode);
      } else {
        WriteBytesEffect(fs, inode, offset, source);
        var (fs', inode', r) := WriteBytes(fs, inode, offset, source);
        KindStays(fs, inode, fs', inode');
        StartStays(fs, inode, fs', inode');
        OkIsEncodable(disk, l, fs', inode');
      }
    }
  }

  lemma StartStays(fs: Fs, inode: Inode, fs1: Fs, inode1: Inode)
    requires InodeOk(fs, inode) && inode1.Inode?
    requires Extends(fs, inode, BlocksFor(inode.size, fs.bs), fs1, inode1.(size := inode.size), BlocksFor(inode1.size, fs.bs))
    ensures fs1.start == fs.start && |fs1.data| == |fs.data|
  {
    hide TakesFree, KeepsOthers, SlotsOk, BlocksFor;
  }

  method DecodeEntries(bytes: seq<Byte>, n: nat) returns (r: Result<seq<Entry>>)
    requires RECORD * n <= |bytes|
    ensures r == DecodeFirst(bytes, n)
  {
    hide DecodeEntry;
    var entries := [];
    for i := 0 to n
      invariant DecodeFirst(bytes, i) == Ok(entries)
    {
      var record := DecodeEntry(bytes[RECORD * i..RECORD * (i + 1)]);
      if record.Err? {
        DecodeFails(bytes, i + 1, n);
        return Err(record.error);
      }
      if record.value.Some? {
        entries := entries + [record.value.value];
      }
    }
    r := Ok(entries);
  }

  lemma {:induction false} DecodeFails(bytes: seq<Byte>, i: nat, n: nat)
    requires i <= n && RECORD * n <= |bytes| && DecodeFirst(bytes, i).Err?
    ensures DecodeFirst(bytes, n) == DecodeFirst(bytes, i)
    decreases n
  {
    if i < n { DecodeFails(bytes, i, n - 1); }
  }

  lemma FoundInDirectory(fs: Fs, n: nat, name: seq<Byte>)
    requires Inv(fs) && FsLookup(fs, n, name).Ok?
    ensures 0 < n <= |fs.inodes| && fs.inodes[n - 1].Inode? && Nameable(name)
  {
    hide Inv, DecodeFirst, ReadBytes;
  }

  // ---------- A formatted disk ----------

  ghost function Blank(l: Layout): Fs
  {
    Fs(l.blockSize, l.dataStart, seq(l.inodeCount, _ => Free), seq(l.dataCount, _ => false), seq(l.dataCount, _ => Zeros(l.blockSize)))
  }

  lemma ZeroRecord()
    ensures forall maxSize: nat, start: nat, count: nat :: DecodeInode(Zeros(RECORD), maxSize, start, count) == Ok(Free)
  {
    assert Zeros(RECORD)[0..1] == [0];
    assert FromBytes([0]) == 0 + 256 * FromBytes([0][1..]);
  }

  lemma {:induction false} ZeroBits(k: nat)
    ensures !Bit(0, k)
  {
    if k > 0 { ZeroBits(k - 1); }
  }

  lemma BlankDisk(disk: seq<Block>, l: Layout)
    requires LayoutOk(l) && |disk| == l.blockCount && |disk[0]| == l.blockSize
    requires forall b :: 0 < b < |disk| ==> disk[b] == Zeros(l.blockSize)
    ensures OnDisk(disk, l, Blank(l))
  {
    var fs := Blank(l);
    assert WholeBlocks(disk, l);
    ZeroRecord();
    forall n: nat | n < l.inodeCount ensures InodeOnDisk(disk, l, n, fs.inodes[n]) {
      RecordInTable(l, n);
      RecordFits(l, n);
      hide RecordBlock, RecordOffset, DecodeInode, RecordsFit;
      assert Record(disk, l, n) == Zeros(RECORD);
    }
    forall d: nat | d < l.dataCount ensures fs.used[d] == BitOnDisk(disk, l, d) {
      BitInMap(l, d);
      ZeroBits(BitIndex(l, d) % 8);
      hide BitBlock, BitIndex, RecordsFit, Bit;
    }
    hide InodeOnDisk, BitOnDisk, RecordsFit;
  }

  lemma FirstRecord(l: Layout)
    requires LayoutOk(l)
    ensures TableBlock(l, 0) == l.inodeTableStart && RecordOffset(l, 0) == 0
  {
    DivUnique(0, l.blockSize, 0, 0);
  }

  lemma FormattedIs(l: Layout)
    requires LayoutOk(l)
    ensures Blank(l).(inodes := Blank(l).inodes[0 := Inode(DIRECTORY, 0, NO_BLOCKS)])
            == SimpleFsRuns.Formatted(l.blockSize, l.dataStart, l.inodeCount, l.dataCount)
  {
    var formatted := SimpleFsRuns.Formatted(l.blockSize, l.dataStart, l.inodeCount, l.dataCount);
    assert Blank(l).inodes[0 := Inode(DIRECTORY, 0, NO_BLOCKS)] == formatted.inodes;
  }
}
