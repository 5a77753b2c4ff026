/** Inodes as byte strings: every file is its bytes, and a write to one leaves all others as they are. */
module SimpleFsFiles {
  import opened LittleEndian
  import opened Results
  import opened Arithmetic
  import opened Blocks
  import opened BlockDevice
  import opened SimpleFsCodec
  import opened SimpleFs

  // ---------- Contents ----------

  ghost predicate InodeOk(fs: Fs, inode: Inode)
  {
    Shape(fs) && inode.Inode? && inode.size <= DIRECT_BLOCKS * fs.bs && SlotsOk(fs, inode, BlocksFor(inode.size, fs.bs))
  }

  lemma InsideBlocks(i: nat, size: nat, bs: nat)
    requires bs > 0 && i < size
    ensures Quot(i, bs) < BlocksFor(size, bs)
  {
    ReachesBlock(i, size - i, bs);
  }

  /** The byte string that an inode stands for. */
  ghost function Bytes(fs: Fs, inode: Inode): (bytes: seq<Byte>)
    requires InodeOk(fs, inode)
    ensures |bytes| == inode.size
  {
    seq(inode.size, i requires 0 <= i < inode.size =>
      (InsideBlocks(i, inode.size, fs.bs); ByteOf(fs, inode, BlocksFor(inode.size, fs.bs), i)))
  }

  // ---------- Reading ----------

  /** The read loop: chunk after chunk, none crossing a block; an empty slot reads as zeros. */
  function ReadChunks(fs: Fs, inode: Inode, cur: nat, n: nat): (bytes: seq<Byte>)
    requires Shape(fs) && inode.Inode? && |inode.direct| == DIRECT_BLOCKS && cur + n <= DIRECT_BLOCKS * fs.bs
    requires forall k :: 0 <= k < DIRECT_BLOCKS ==> AddressOk(inode.direct[k], fs.start, |fs.data|)
    ensures |bytes| == n
    decreases n
  {
    if n == 0 then []
    else
      QuotBound(cur, fs.bs, DIRECT_BLOCKS);
      var k, o, c := Quot(cur, fs.bs), Rem(cur, fs.bs), Chunk(fs.bs, cur, n);
      var a := inode.direct[k];
      assert AddressOk(a, fs.start, |fs.data|);
      var piece := if a == EMPTY_BLOCK then Zeros(c) else fs.data[a - fs.start][o..o + c];
      piece + ReadChunks(fs, inode, cur + c, n - c)
  }

  function ReadBytes(fs: Fs, inode: Inode, offset: nat, count: nat): seq<Byte>
    requires InodeOk(fs, inode)
  {
    SlotsInRange(fs, inode);
    if offset >= inode.size || count == 0 then []
    else ReadChunks(fs, inode, offset, if count < inode.size - offset then count else inode.size - offset)
  }

  lemma SlotsInRange(fs: Fs, inode: Inode)
    requires InodeOk(fs, inode)
    ensures |inode.direct| == DIRECT_BLOCKS
    ensures forall k :: 0 <= k < DIRECT_BLOCKS ==> AddressOk(inode.direct[k], fs.start, |fs.data|)
  {
    forall k | 0 <= k < DIRECT_BLOCKS ensures AddressOk(inode.direct[k], fs.start, |fs.data|) {
      assert inode.direct[k] != EMPTY_BLOCK ==> SlotUsed(fs, inode.direct[k]);
    }
  }

  lemma {:induction false} ReadChunksAt(fs: Fs, inode: Inode, cur: nat, n: nat, j: nat)
    requires InodeOk(fs, inode) && cur + n <= inode.size && j < n
    ensures forall k :: 0 <= k < DIRECT_BLOCKS ==> AddressOk(inode.direct[k], fs.start, |fs.data|)
    ensures ReadChunks(fs, inode, cur, n)[j] == Bytes(fs, inode)[cur + j]
    decreases n
  {
    SlotsInRange(fs, inode);
    var c := Chunk(fs.bs, cur, n);
    QuotBound(cur, fs.bs, DIRECT_BLOCKS);
    InsideBlocks(cur, inode.size, fs.bs);
    if j < c {
      SameBlock(cur, cur + j, fs.bs);
      hide Quot, Rem, BlocksFor;
      assert SlotUsed(fs, inode.direct[Quot(cur, fs.bs)]);
    } else {
      ReadChunksAt(fs, inode, cur + c, n - c, j - c);
    }
  }

  /** A read returns exactly the slice of the contents, across any number of blocks, cut off at the end of the file. */
  lemma ReadIsSlice(fs: Fs, inode: Inode, offset: nat, count: nat)
    requires InodeOk(fs, inode)
    ensures ReadBytes(fs, inode, offset, count) ==
            if offset >= inode.size then []
            else Bytes(fs, inode)[offset..if count < inode.size - offset then offset + count else inode.size]
  {
    SlotsInRange(fs, inode);
    if offset < inode.size && count > 0 {
      var n := if count < inode.size - offset then count else inode.size - offset;
      forall j: nat | j < n ensures ReadChunks(fs, inode, offset, n)[j] == Bytes(fs, inode)[offset + j] {
        ReadChunksAt(fs, inode, offset, n, j);
      }
      hide InodeOk, ReadChunks, Bytes;
    }
  }

  // ---------- Writing ----------

  function CountSlots(direct: seq<nat>): nat
  {
    if direct == [] then 0 else (if direct[0] == EMPTY_BLOCK then 0 else 1) + CountSlots(direct[1..])
  }

  lemma {:induction false} CountPrefix(direct: seq<nat>, m: nat)
    requires m <= |direct| && forall k :: 0 <= k < |direct| ==> (direct[k] != EMPTY_BLOCK <==> k < m)
    ensures CountSlots(direct) == m
  {
    if direct != [] {
      CountPrefix(direct[1..], if m == 0 then 0 else m - 1);
    }
  }

  function AdditionalBlocks(bs: nat, inode: Inode, end: nat): Result<nat>
    requires bs > 0 && inode.Inode?
  {
    if end > DIRECT_BLOCKS * bs then Err(LengthError)
    else
      var needed, current := BlocksFor(end, bs), CountSlots(inode.direct);
      Ok(if needed > current then needed - current else 0)
  }

  function Max(a: nat, b: nat): nat
  {
    if a < b then b else a
  }

  /** The checks of write_inode_bytes, in order, before anything is written. */
  function WriteRefusal(fs: Fs, inode: Inode, offset: nat, n: nat): Option<Error>
    requires fs.bs > 0 && inode.Inode?
  {
    if offset > inode.size then Some(InvalidArgument)
    else if n == 0 then None
    else if n > MAX_U64 - offset then Some(LengthError)
    else
      match AdditionalBlocks(fs.bs, inode, offset + n)
      case Err(error) => Some(error)
      case Ok(blocks) => if blocks > FreeCount(fs.used) then Some(LengthError) else None
  }

  lemma AcceptedMeansCanWrite(fs: Fs, inode: Inode, offset: nat, n: nat)
    requires InodeOk(fs, inode) && WriteRefusal(fs, inode, offset, n).None?
    ensures n > 0 ==> CanWrite(fs, inode, BlocksFor(inode.size, fs.bs), offset, n)
  {
    var m := BlocksFor(inode.size, fs.bs);
    CountPrefix(inode.direct, m);
    NoGap(offset, inode.size, fs.bs);
    hide Quot, FreeCount, CountSlots, BlocksFor;
  }

  lemma NoGap(offset: nat, size: nat, bs: nat)
    requires bs > 0 && offset <= size
    ensures Quot(offset, bs) <= BlocksFor(size, bs)
  {
    if offset < size {
      InsideBlocks(offset, size, bs);
    } else if size > 0 {
      var q := (size - 1) / bs;
      assert size - 1 == bs * q + (size - 1) % bs;
      QuotBound(size, bs, q + 2);
      assert (q + 2) * bs == bs * q + 2 * bs;
    } else {
      assert Quot(0, bs) == 0;
    }
  }

  /** write_inode_bytes on the record in memory. */
  ghost function WriteBytes(fs: Fs, inode: Inode, offset: nat, source: seq<Byte>): (Fs, Inode, Result<nat>)
    requires InodeOk(fs, inode)
  {
    match WriteRefusal(fs, inode, offset, |source|)
    case Some(error) => (fs, inode, Err(error))
    case None =>
      if source == [] then (fs, inode, Ok(0))
      else
        AcceptedMeansCanWrite(fs, inode, offset, |source|);
        var (fs', inode') := WriteChunks(fs, inode, BlocksFor(inode.size, fs.bs), offset, source);
        (fs', inode'.(size := Max(inode.size, offset + |source|)), Ok(|source|))
  }

  /** Overwriting part of a byte string, perhaps past its end. */
  function Overwrite(bytes: seq<Byte>, offset: nat, source: seq<Byte>): seq<Byte>
    requires offset <= |bytes|
  {
    bytes[..offset] + source + (if offset + |source| < |bytes| then bytes[offset + |source|..] else [])
  }

  lemma FinalIsSize(fs: Fs, size: nat, offset: nat, n: nat)
    requires fs.bs > 0 && offset <= size && n > 0
    ensures FinalSlots(fs, BlocksFor(size, fs.bs), offset, n) == BlocksFor(Max(size, offset + n), fs.bs)
  {
    if offset + n <= size {
      BlocksMonotone(offset + n, size, fs.bs);
    } else {
      BlocksMonotone(size, offset + n, fs.bs);
    }
  }

  lemma BlocksMonotone(a: nat, b: nat, bs: nat)
    requires bs > 0 && a <= b
    ensures BlocksFor(a, bs) <= BlocksFor(b, bs)
  {
    if a > 0 {
      InsideBlocks(a - 1, b, bs);
    }
  }

  /** An accepted write replaces the bytes in place and takes blocks only from the free ones. */
  lemma WriteBytesEffect(fs: Fs, inode: Inode, offset: nat, source: seq<Byte>)
    requires InodeOk(fs, inode) && WriteRefusal(fs, inode, offset, |source|).None? && source != []
    ensures var (fs', inode', r) := WriteBytes(fs, inode, offset, source);
            && r == Ok(|source|) && InodeOk(fs', inode') && inode'.Inode? && inode'.size == Max(inode.size, offset + |source|)
            && Extends(fs, inode, BlocksFor(inode.size, fs.bs), fs', inode'.(size := inode.size), BlocksFor(inode'.size, fs.bs))
            && Bytes(fs', inode') == Overwrite(Bytes(fs, inode), offset, source)
  {
    hide WriteChunks, Quot, Rem, FreeCount, FinalSlots, BlocksFor, Extends, Written, SlotsOk, Shape;
    var m, n := BlocksFor(inode.size, fs.bs), |source|;
    AcceptedMeansCanWrite(fs, inode, offset, n);
    WriteChunksEffect(fs, inode, m, offset, source);
    FinalIsSize(fs, inode.size, offset, n);
    var (fs1, inode1) := WriteChunks(fs, inode, m, offset, source);
    var (fs', inode', r) := WriteBytes(fs, inode, offset, source);
    var m' := BlocksFor(inode'.size, fs.bs);
    ExtendsParts(fs, inode, m, fs1, inode1, m');
    ExtendsKeepsSize(fs, inode, m, fs1, inode1, m');
    SizeIsNotSlots(fs1, inode1, m', inode'.size);
    WrittenBytes(fs, inode, fs1, inode1, m', offset, source);
  }

  lemma ExtendsKeepsSize(fs: Fs, inode: Inode, m: nat, fs1: Fs, inode1: Inode, m1: nat)
    requires Extends(fs, inode, m, fs1, inode1, m1)
    ensures inode1.Inode? && inode1.size == inode.size && inode1.(size := inode.size) == inode1
  {
  }

  lemma SizeIsNotSlots(fs: Fs, inode: Inode, m: nat, size: nat)
    requires SlotsOk(fs, inode, m)
    ensures SlotsOk(fs, inode.(size := size), m)
  {
  }

  lemma WrittenBytes(fs: Fs, inode: Inode, fs1: Fs, inode1: Inode, m': nat, offset: nat, source: seq<Byte>)
    requires InodeOk(fs, inode) && offset <= inode.size && source != [] && fs1.bs == fs.bs
    requires Shape(fs1) && SlotsOk(fs1, inode1, m')
    requires Written(fs, inode, BlocksFor(inode.size, fs.bs), fs1, inode1, m', offset, source)
    requires m' == BlocksFor(Max(inode.size, offset + |source|), fs.bs) && offset + |source| <= DIRECT_BLOCKS * fs.bs
    ensures var inode' := inode1.(size := Max(inode.size, offset + |source|));
            InodeOk(fs1, inode') && Bytes(fs1, inode') == Overwrite(Bytes(fs, inode), offset, source)
  {
    var size' := Max(inode.size, offset + |source|);
    var inode' := inode1.(size := size');
    SizeIsNotSlots(fs1, inode1, m', size');
    var m := BlocksFor(inode.size, fs.bs);
    forall i: nat | i < size' ensures Bytes(fs1, inode')[i] == Overwrite(Bytes(fs, inode), offset, source)[i] {
      InsideBlocks(i, size', fs.bs);
      if i < inode.size { InsideBlocks(i, inode.size, fs.bs); }
      WrittenByte(fs, inode, m, fs1, inode1, m', offset, source, i, size');
    }
    hide BlocksFor, Quot, Rem, SlotsOk, Written;
  }

  lemma WrittenByte(fs: Fs, inode: Inode, m: nat, fs1: Fs, inode1: Inode, m': nat, offset: nat, source: seq<Byte>, i: nat, size: nat)
    requires Shape(fs) && Shape(fs1) && SlotsOk(fs, inode, m) && SlotsOk(fs1, inode1, m') && fs1.bs == fs.bs
    requires Written(fs, inode, m, fs1, inode1, m', offset, source) && Quot(i, fs.bs) < m'
    ensures SlotsOk(fs1, inode1.(size := size), m')
    ensures ByteOf(fs1, inode1.(size := size), m', i) ==
            if offset <= i < offset + |source| then source[i - offset] else if Quot(i, fs.bs) < m then ByteOf(fs, inode, m, i) else 0
  {
    SizeIsNotSlots(fs1, inode1, m', size);
    assert ByteOf(fs1, inode1, m', i) ==
           if offset <= i < offset + |source| then source[i - offset] else if Quot(i, fs.bs) < m then ByteOf(fs, inode, m, i) else 0;
    hide SlotsOk, Quot, Rem;
  }
}
