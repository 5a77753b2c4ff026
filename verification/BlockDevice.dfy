/** Flat storage seen as an array of equal blocks. */
module Blocks {
  import opened LittleEndian
  import opened Arithmetic

  type Block = seq<Byte>

  /** Where block i starts. */
  function StartAt(i: nat, size: nat): nat
  {
    i * size
  }

  lemma BlockFits(i: nat, n: nat, size: nat)
    ensures i < n ==> StartAt(i, size) + size <= n * size
  {
    if i < n && size > 0 {
      MulOrder(size, i + 1, n);
      assert size * (i + 1) == i * size + size;
      assert size * n == n * size;
    }
  }

  lemma BlocksApart(i: nat, j: nat, size: nat)
    ensures i < j ==> StartAt(i, size) + size <= StartAt(j, size)
  {
    BlockFits(i, j, size);
  }

  function Slice(storage: seq<Byte>, size: nat, n: nat, i: nat): (b: Block)
    requires |storage| == n * size && i < n
    ensures |b| == size
  {
    BlockFits(i, n, size);
    storage[StartAt(i, size)..StartAt(i, size) + size]
  }

  function PutSlice(storage: seq<Byte>, size: nat, n: nat, i: nat, b: Block): (storage': seq<Byte>)
    requires |storage| == n * size && i < n && |b| == size
    ensures |storage'| == |storage|
  {
    BlockFits(i, n, size);
    storage[..StartAt(i, size)] + b + storage[StartAt(i, size) + size..]
  }

  /** The blocks of a flat storage. */
  ghost function Split(storage: seq<Byte>, size: nat, n: nat): (blocks: seq<Block>)
    requires |storage| == n * size
    ensures |blocks| == n && forall i :: 0 <= i < n ==> blocks[i] == Slice(storage, size, n, i)
  {
    seq(n, i requires 0 <= i < n => Slice(storage, size, n, i))
  }

  lemma SliceAfterPut(storage: seq<Byte>, size: nat, n: nat, i: nat, b: Block, j: nat)
    requires |storage| == n * size && i < n && |b| == size && j < n
    ensures Slice(PutSlice(storage, size, n, i, b), size, n, j) == if j == i then b else Slice(storage, size, n, j)
  {
    hide StartAt;
    BlocksApart(i, j, size);
    BlocksApart(j, i, size);
    BlockFits(i, n, size);
    BlockFits(j, n, size);
    SliceOfPut(storage, StartAt(i, size), size, b, StartAt(j, size));
  }

  /** Overwriting the bytes of one block replaces that block and no other. */
  lemma SplitPut(storage: seq<Byte>, size: nat, n: nat, i: nat, b: Block)
    requires |storage| == n * size && i < n && |b| == size
    ensures Split(PutSlice(storage, size, n, i, b), size, n) == Split(storage, size, n)[i := b]
  {
    var storage' := PutSlice(storage, size, n, i, b);
    BlockFits(i, n, size);
    forall j: nat | j < n ensures Slice(storage', size, n, j) == if j == i then b else Slice(storage, size, n, j) {
      SliceAfterPut(storage, size, n, i, b, j);
    }
    hide Slice, PutSlice;
  }

  lemma ZeroSplit(storage: seq<Byte>, size: nat, n: nat)
    requires |storage| == n * size && storage == seq(n * size, _ => 0)
    ensures Split(storage, size, n) == seq(n, _ => seq(size, _ => 0))
  {
    forall i: nat | i < n ensures Slice(storage, size, n, i) == seq(size, _ => 0) {
      BlockFits(i, n, size);
      ZeroSlice(storage, StartAt(i, size), size);
    }
  }

  lemma ZeroSlice(storage: seq<Byte>, at: nat, size: nat)
    requires at + size <= |storage| && forall i :: 0 <= i < |storage| ==> storage[i] == 0
    ensures storage[at..at + size] == seq(size, _ => 0)
  {
  }

  lemma SliceOfPut(storage: seq<Byte>, at: nat, size: nat, b: Block, other: nat)
    requires at + size <= |storage| && other + size <= |storage| && |b| == size
    requires at == other || at + size <= other || other + size <= at
    ensures (storage[..at] + b + storage[at + size..])[other..other + size] == if other == at then b else storage[other..other + size]
  {
  }
}

/** The in-memory block device. */
module BlockDevice {
  import opened LittleEndian
  import opened Results
  import opened Arithmetic
  import opened Blocks

  const MAX_U64 := 0xFFFF_FFFF_FFFF_FFFF

  datatype Geometry = Geometry(blockSize: nat, blockCount: nat, capacity: nat)

  function MakeGeometry(blockSize: nat, blockCount: nat): Result<Geometry>
  {
    if blockSize == 0 || blockCount == 0 then Err(InvalidArgument)
    else if blockCount > MAX_U64 / blockSize then Err(OverflowError)
    else Ok(Geometry(blockSize, blockCount, blockSize * blockCount))
  }

  /** The division guard accepts exactly the geometries whose capacity fits in 64 bits. */
  lemma GeometryAccepted(blockSize: nat, blockCount: nat)
    ensures MakeGeometry(blockSize, blockCount).Ok? <==> blockSize > 0 && blockCount > 0 && blockSize * blockCount <= 0xFFFF_FFFF_FFFF_FFFF
  {
    if blockSize > 0 {
      var q, r := MAX_U64 / blockSize, MAX_U64 % blockSize;
      assert MAX_U64 == blockSize * q + r;
      if blockCount > q {
        MulOrder(blockSize, q + 1, blockCount);
        assert blockSize * (q + 1) == blockSize * q + blockSize;
      } else {
        MulOrder(blockSize, blockCount, q);
      }
    }
  }

  class MemoryBlockDevice {
    const blockSize: nat
    const blockCount: nat
    var storage: seq<Byte>

    ghost predicate Valid()
      reads this
    {
      blockSize > 0 && |storage| == blockCount * blockSize
    }

    ghost function Contents(): seq<Block>
      requires Valid()
      reads this
    {
      Split(storage, blockSize, blockCount)
    }

    constructor (geometry: Geometry)
      requires geometry.blockSize > 0
      ensures Valid() && blockSize == geometry.blockSize && blockCount == geometry.blockCount
      ensures Contents() == seq(blockCount, _ => seq(blockSize, _ => 0))
    {
      blockSize, blockCount := geometry.blockSize, geometry.blockCount;
      storage := seq(geometry.blockCount * geometry.blockSize, _ => 0);
      new;
      ZeroSplit(storage, blockSize, blockCount);
    }

    method ReadBlock(address: nat, count: nat) returns (r: Result<Block>)
      requires Valid()
      ensures r == if count != blockSize then Err(InvalidArgument)
                   else if address >= blockCount then Err(OutOfRange)
                   else Ok(Contents()[address])
    {
      if count != blockSize {
        return Err(InvalidArgument);
      }
      if address >= blockCount {
        return Err(OutOfRange);
      }
      return Ok(Slice(storage, blockSize, blockCount, address));
    }

    method WriteBlock(address: nat, source: Block) returns (r: Result<()>)
      requires Valid()
      modifies this
      ensures Valid()
      ensures |source| == blockSize && address < blockCount ==> r == Ok(()) && Contents() == old(Contents())[address := source]
      ensures |source| != blockSize ==> r == Err(InvalidArgument) && storage == old(storage)
      ensures |source| == blockSize && address >= blockCount ==> r == Err(OutOfRange) && storage == old(storage)
    {
      if |source| != blockSize {
        return Err(InvalidArgument);
      }
      if address >= blockCount {
        return Err(OutOfRange);
      }
      SplitPut(storage, blockSize, blockCount, address, source);
      storage := PutSlice(storage, blockSize, blockCount, address, source);
      return Ok(());
    }
  }
}
