/** SimpleFS over decoded inodes, bitmap bits and data blocks: reading and writing the bytes of an inode. */
module SimpleFs {
  import opened LittleEndian
  import opened Results
  import opened Arithmetic
  import opened Blocks
  import opened SimpleFsCodec

  /** Inode number n is inodes[n - 1]; data block d has address start + d. */
  datatype Fs = Fs(bs: nat, start: nat, inodes: seq<Inode>, used: seq<bool>, data: seq<Block>)

  ghost predicate Shape(fs: Fs)
  {
    fs.bs > 0 && fs.start > 0 && |fs.used| == |fs.data| && forall d :: 0 <= d < |fs.data| ==> |fs.data[d]| == fs.bs
  }

  // ---------- Positions ----------

  function Quot(i: nat, bs: nat): (q: nat)
    requires bs > 0
    ensures q == i / bs
  {
    MulOrder(bs, i / bs + 1, 0);
    i / bs
  }

  function Rem(i: nat, bs: nat): (r: nat)
    requires bs > 0
    ensures r < bs
  {
    i % bs
  }

  function Chunk(bs: nat, cur: nat, remaining: nat): (c: nat)
    requires bs > 0
    ensures c <= remaining && Rem(cur, bs) + c <= bs && (remaining > 0 ==> c > 0)
    ensures c < remaining ==> Rem(cur, bs) + c == bs
  {
    if remaining < bs - Rem(cur, bs) then remaining else bs - Rem(cur, bs)
  }

  lemma SameBlock(cur: nat, i: nat, bs: nat)
    requires bs > 0 && cur <= i < cur + (bs - Rem(cur, bs))
    ensures Quot(i, bs) == Quot(cur, bs) && Rem(i, bs) == Rem(cur, bs) + (i - cur)
  {
    var q, r := cur / bs, cur % bs;
    assert cur == bs * q + r;
    DivUnique(i, bs, q, r + (i - cur));
  }

  lemma SamePlace(i: nat, j: nat, bs: nat)
    requires bs > 0 && Quot(i, bs) == Quot(j, bs)
    ensures i - j == Rem(i, bs) - Rem(j, bs)
  {
    assert i == bs * (i / bs) + i % bs && j == bs * (j / bs) + j % bs;
  }

  lemma QuotBound(i: nat, bs: nat, m: nat)
    requires bs > 0
    ensures i < m * bs <==> Quot(i, bs) < m
  {
    var q := i / bs;
    assert i == bs * q + i % bs;
    assert m * bs == bs * m;
    if q < m {
      MulOrder(bs, q + 1, m);
      assert bs * (q + 1) == bs * q + bs;
    } else {
      MulOrder(bs, m, q);
    }
  }

  lemma NextBlock(cur: nat, c: nat, bs: nat)
    requires bs > 0 && Rem(cur, bs) + c <= bs
    ensures Rem(cur, bs) + c == bs ==> Quot(cur + c, bs) == Quot(cur, bs) + 1
    ensures Quot(cur + c, bs) <= Quot(cur, bs) + 1
  {
    var q, r := cur / bs, cur % bs;
    assert cur == bs * q + r;
    assert bs * (q + 1) == bs * q + bs;
    if r + c == bs {
      DivUnique(cur + c, bs, q + 1, 0);
    } else {
      DivUnique(cur + c, bs, q, r + c);
    }
  }

  // ---------- Slots ----------

  /** The non-empty direct slots are exactly the first m, and point at different used data blocks. */
  ghost predicate SlotsOk(fs: Fs, inode: Inode, m: nat)
  {
    && inode.Inode? && |inode.direct| == DIRECT_BLOCKS && m <= DIRECT_BLOCKS
    && (forall k :: 0 <= k < DIRECT_BLOCKS ==> (inode.direct[k] != EMPTY_BLOCK <==> k < m))
    && (forall k :: 0 <= k < m ==> SlotUsed(fs, inode.direct[k]))
    && (forall k, j :: 0 <= k < j < m ==> inode.direct[k] != inode.direct[j])
  }

  ghost predicate SlotUsed(fs: Fs, a: nat)
  {
    fs.start <= a < fs.start + |fs.used| && fs.used[a - fs.start]
  }

  /** Data block d is in one of the slots from lo up to hi. */
  ghost predicate InSlots(start: nat, inode: Inode, lo: nat, hi: nat, d: nat)
    requires inode.Inode? && hi <= |inode.direct|
  {
    exists k :: lo <= k < hi && inode.direct[k] == start + d
  }

  /** The byte at position i of an inode. */
  ghost function ByteOf(fs: Fs, inode: Inode, m: nat, i: nat): Byte
    requires Shape(fs) && SlotsOk(fs, inode, m) && Quot(i, fs.bs) < m
  {
    assert SlotUsed(fs, inode.direct[Quot(i, fs.bs)]);
    fs.data[inode.direct[Quot(i, fs.bs)] - fs.start][Rem(i, fs.bs)]
  }

  // ---------- Free blocks ----------

  function FirstFree(used: seq<bool>): (d: nat)
    ensures d <= |used| && (d < |used| ==> !used[d]) && forall j :: 0 <= j < d ==> used[j]
  {
    if used == [] || !used[0] then 0 else 1 + FirstFree(used[1..])
  }

  function FreeCount(used: seq<bool>): nat
  {
    if used == [] then 0 else (if used[0] then 0 else 1) + FreeCount(used[1..])
  }

  lemma {:induction false} FreeExists(used: seq<bool>)
    ensures FreeCount(used) > 0 <==> FirstFree(used) < |used|
    ensures FreeCount(used) <= |used|
  {
    if used != [] {
      FreeExists(used[1..]);
    }
  }

  lemma {:induction false} TakeFree(used: seq<bool>, d: nat)
    requires d < |used| && !used[d]
    ensures FreeCount(used[d := true]) == FreeCount(used) - 1
  {
    if d > 0 {
      TakeFree(used[1..], d - 1);
      assert used[d := true][1..] == used[1..][d - 1 := true];
    } else {
      assert used[0 := true][1..] == used[1..];
    }
  }

  // ---------- Writing one chunk ----------

  /** One turn of the write loop: allocate the slot if it is empty, then overwrite part of its block. */
  function WriteOne(fs: Fs, inode: Inode, ghost m: nat, cur: nat, piece: seq<Byte>): (Fs, Inode)
    requires CanWriteOne(fs, inode, m, cur, |piece|)
  {
    var k, o := Quot(cur, fs.bs), Rem(cur, fs.bs);
    var hole := inode.direct[k] == EMPTY_BLOCK;
    var d := if hole then FirstFree(fs.used) else inode.direct[k] - fs.start;
    var block := if hole then Zeros(fs.bs) else fs.data[d];
    (fs.(used := fs.used[d := true], data := fs.data[d := block[..o] + piece + block[o + |piece|..]]),
     inode.(direct := inode.direct[k := fs.start + d]))
  }

  ghost predicate SameFrame(fs: Fs, inode: Inode, m: nat, fs': Fs, inode': Inode, m': nat)
  {
    && Shape(fs) && Shape(fs') && SlotsOk(fs, inode, m) && SlotsOk(fs', inode', m') && m <= m'
    && fs'.bs == fs.bs && fs'.start == fs.start && fs'.inodes == fs.inodes && |fs'.used| == |fs.used|
    && inode'.kind == inode.kind && inode'.size == inode.size
    && (forall k :: 0 <= k < m ==> inode'.direct[k] == inode.direct[k])
  }

  /** The blocks in the new slots were free, and are all that became used. */
  ghost predicate TakesFree(fs: Fs, inode: Inode, m: nat, fs': Fs, inode': Inode, m': nat)
    requires SameFrame(fs, inode, m, fs', inode', m')
  {
    && (forall d: nat :: d < |fs.used| ==> (fs'.used[d] <==> fs.used[d] || InSlots(fs.start, inode', m, m', d)))
    && (forall k :: m <= k < m' ==> !SlotUsed(fs, inode'.direct[k]))
    && FreeCount(fs'.used) + (m' - m) == FreeCount(fs.used)
  }

  ghost predicate KeepsOthers(fs: Fs, inode: Inode, m: nat, fs': Fs)
    requires inode.Inode? && m <= |inode.direct| && |fs'.data| == |fs.data| == |fs.used|
  {
    forall d: nat :: d < |fs.used| && fs.used[d] && !InSlots(fs.start, inode, 0, m, d) ==> fs'.data[d] == fs.data[d]
  }

  /** What a write of part of an inode may change: new blocks, taken from the free ones, and the inode's own data. */
  ghost predicate Extends(fs: Fs, inode: Inode, m: nat, fs': Fs, inode': Inode, m': nat)
  {
    SameFrame(fs, inode, m, fs', inode', m') && TakesFree(fs, inode, m, fs', inode', m') && KeepsOthers(fs, inode, m, fs')
  }

  /** The bytes after a write at cur: the source inside, the old bytes or zeros outside. */
  ghost predicate Written(fs: Fs, inode: Inode, m: nat, fs': Fs, inode': Inode, m': nat, cur: nat, source: seq<Byte>)
    requires Shape(fs) && Shape(fs') && SlotsOk(fs, inode, m) && SlotsOk(fs', inode', m') && fs'.bs == fs.bs
  {
    forall i: nat :: Quot(i, fs.bs) < m' ==>
      ByteOf(fs', inode', m', i) ==
      if cur <= i < cur + |source| then source[i - cur] else if Quot(i, fs.bs) < m then ByteOf(fs, inode, m, i) else 0
  }

  ghost function Grown(fs: Fs, m: nat, cur: nat): nat
    requires fs.bs > 0
  {
    if Quot(cur, fs.bs) < m then m else Quot(cur, fs.bs) + 1
  }

  lemma WriteInPlace(fs: Fs, inode: Inode, m: nat, cur: nat, piece: seq<Byte>)
    requires CanWriteOne(fs, inode, m, cur, |piece|) && Quot(cur, fs.bs) < m
    ensures var (fs', inode') := WriteOne(fs, inode, m, cur, piece); Extends(fs, inode, m, fs', inode', m)
  {
    hide Quot, Rem, FreeCount, FirstFree;
    var k := Quot(cur, fs.bs);
    assert inode.direct[k] != EMPTY_BLOCK;
    var d := inode.direct[k] - fs.start;
    assert fs.used[d := true] == fs.used;
    assert inode.direct[k := fs.start + d] == inode.direct;
    assert InSlots(fs.start, inode, 0, m, d);
    var (fs', inode') := WriteOne(fs, inode, m, cur, piece);
    assert Shape(fs');
    assert SlotsOk(fs', inode', m);
  }

  lemma WriteGrows(fs: Fs, inode: Inode, m: nat, cur: nat, piece: seq<Byte>)
    requires CanWriteOne(fs, inode, m, cur, |piece|) && Quot(cur, fs.bs) == m
    ensures var (fs', inode') := WriteOne(fs, inode, m, cur, piece); Extends(fs, inode, m, fs', inode', m + 1)
  {
    hide Quot, Rem, FreeCount;
    var d := FirstFree(fs.used);
    TakeFree(fs.used, d);
    var (fs', inode') := WriteOne(fs, inode, m, cur, piece);
    hide FirstFree;
    assert inode'.direct[m] == fs.start + d;
    assert Shape(fs');
    GrownSlots(fs, inode, m, d, fs', inode');
    forall x: nat | x < |fs.used| ensures fs'.used[x] <==> fs.used[x] || InSlots(fs.start, inode', m, m + 1, x) {
      assert InSlots(fs.start, inode', m, m + 1, x) <==> x == d;
    }
    hide SlotsOk;
  }

  lemma GrownSlots(fs: Fs, inode: Inode, m: nat, d: nat, fs': Fs, inode': Inode)
    requires SlotsOk(fs, inode, m) && m < DIRECT_BLOCKS && fs.start > 0 && d < |fs.used| && !fs.used[d]
    requires fs'.used == fs.used[d := true] && fs'.start == fs.start && inode' == inode.(direct := inode.direct[m := fs.start + d])
    ensures SlotsOk(fs', inode', m + 1)
  {
    forall k | 0 <= k < m + 1 ensures SlotUsed(fs', inode'.direct[k]) {
      assert k < m ==> SlotUsed(fs, inode.direct[k]);
    }
    forall k, j | 0 <= k < j < m + 1 ensures inode'.direct[k] != inode'.direct[j] {
      assert SlotUsed(fs, inode.direct[k]);
    }
  }

  lemma WriteOneSlots(fs: Fs, inode: Inode, m: nat, cur: nat, piece: seq<Byte>)
    requires CanWriteOne(fs, inode, m, cur, |piece|)
    ensures var (fs', inode') := WriteOne(fs, inode, m, cur, piece); Extends(fs, inode, m, fs', inode', Grown(fs, m, cur))
  {
    hide Quot, Rem, Extends;
    if Quot(cur, fs.bs) < m {
      WriteInPlace(fs, inode, m, cur, piece);
    } else {
      WriteGrows(fs, inode, m, cur, piece);
    }
    hide WriteOne, SlotsOk, Shape;
  }

  lemma InChunk(cur: nat, n: nat, i: nat, bs: nat)
    requires bs > 0 && Rem(cur, bs) + n <= bs
    ensures cur <= i < cur + n <==> Quot(i, bs) == Quot(cur, bs) && Rem(cur, bs) <= Rem(i, bs) < Rem(cur, bs) + n
    ensures cur <= i < cur + n ==> i - cur == Rem(i, bs) - Rem(cur, bs)
  {
    if cur <= i < cur + n {
      SameBlock(cur, i, bs);
    } else if Quot(i, bs) == Quot(cur, bs) {
      SamePlace(i, cur, bs);
    }
  }

  lemma WriteOneBytes(fs: Fs, inode: Inode, m: nat, cur: nat, piece: seq<Byte>, i: nat)
    requires CanWriteOne(fs, inode, m, cur, |piece|)
    requires var (fs', inode') := WriteOne(fs, inode, m, cur, piece); Shape(fs') && SlotsOk(fs', inode', Grown(fs, m, cur))
    requires Quot(i, fs.bs) < Grown(fs, m, cur)
    ensures var (fs', inode') := WriteOne(fs, inode, m, cur, piece);
            ByteOf(fs', inode', Grown(fs, m, cur), i) ==
            if cur <= i < cur + |piece| then piece[i - cur] else if Quot(i, fs.bs) < m then ByteOf(fs, inode, m, i) else 0
  {
    hide Quot, Rem, SlotsOk, FirstFree, WriteOne;
    InChunk(cur, |piece|, i, fs.bs);
    WriteOneByte(fs, inode, m, cur, piece, Quot(i, fs.bs), Rem(i, fs.bs));
  }

  /** What one turn of the write loop relies on. */
  ghost predicate CanWriteOne(fs: Fs, inode: Inode, m: nat, cur: nat, n: nat)
  {
    && Shape(fs) && SlotsOk(fs, inode, m)
    && Quot(cur, fs.bs) <= m && Quot(cur, fs.bs) < DIRECT_BLOCKS && Rem(cur, fs.bs) + n <= fs.bs
    && (if Quot(cur, fs.bs) == m then FirstFree(fs.used) < |fs.used| else SlotUsed(fs, inode.direct[Quot(cur, fs.bs)]))
  }

  lemma WriteOneByte(fs: Fs, inode: Inode, m: nat, cur: nat, piece: seq<Byte>, q: nat, r: nat)
    requires CanWriteOne(fs, inode, m, cur, |piece|) && r < fs.bs
    requires q < m || q == Quot(cur, fs.bs)
    ensures |inode.direct| == DIRECT_BLOCKS && (q < m ==> SlotUsed(fs, inode.direct[q]))
    ensures var (fs', inode') := WriteOne(fs, inode, m, cur, piece);
            var k, o := Quot(cur, fs.bs), Rem(cur, fs.bs);
            && Shape(fs') && fs'.start == fs.start && fs'.bs == fs.bs && |inode'.direct| == DIRECT_BLOCKS && q < DIRECT_BLOCKS
            && fs.start <= inode'.direct[q] < fs.start + |fs'.data|
            && fs'.data[inode'.direct[q] - fs.start][r] ==
               if q == k && o <= r < o + |piece| then piece[r - o]
               else if q < m then fs.data[inode.direct[q] - fs.start][r] else 0
  {
    hide Quot, Rem, FirstFree;
    var k := Quot(cur, fs.bs);
    assert q < m ==> SlotUsed(fs, inode.direct[q]);
    var (fs', inode') := WriteOne(fs, inode, m, cur, piece);
    if q != k {
      assert inode'.direct[q] == inode.direct[q];
      if k < m {
        assert inode.direct[q] != inode.direct[k];
      }
    }
  }

  // ---------- The write loop ----------

  /** The blocks that hold so many bytes. */
  function BlocksFor(size: nat, bs: nat): nat
    requires bs > 0
  {
    if size == 0 then 0 else Quot(size - 1, bs) + 1
  }

  /** What the write loop relies on: no gap, room in the slots, and enough free blocks. */
  ghost predicate CanWrite(fs: Fs, inode: Inode, m: nat, cur: nat, n: nat)
  {
    && Shape(fs) && SlotsOk(fs, inode, m) && Quot(cur, fs.bs) <= m && cur + n <= DIRECT_BLOCKS * fs.bs
    && BlocksFor(cur + n, fs.bs) <= m + FreeCount(fs.used)
  }

  /** The slots in use after the write. */
  ghost function FinalSlots(fs: Fs, m: nat, cur: nat, n: nat): nat
    requires fs.bs > 0
  {
    if n == 0 || BlocksFor(cur + n, fs.bs) <= m then m else BlocksFor(cur + n, fs.bs)
  }

  lemma ReachesBlock(cur: nat, n: nat, bs: nat)
    requires bs > 0 && n > 0
    ensures Quot(cur, bs) < BlocksFor(cur + n, bs)
    ensures Rem(cur, bs) + n <= bs ==> BlocksFor(cur + n, bs) == Quot(cur, bs) + 1
  {
    if Rem(cur, bs) + n <= bs {
      SameBlock(cur, cur + n - 1, bs);
    } else {
      QuotBound(cur, bs, Quot(cur + n - 1, bs) + 1);
      QuotBound(cur + n - 1, bs, Quot(cur + n - 1, bs) + 1);
    }
  }

  lemma ChunkIsWritable(fs: Fs, inode: Inode, m: nat, cur: nat, n: nat)
    requires CanWrite(fs, inode, m, cur, n) && n > 0
    ensures CanWriteOne(fs, inode, m, cur, Chunk(fs.bs, cur, n))
  {
    ReachesBlock(cur, n, fs.bs);
    QuotBound(cur, fs.bs, DIRECT_BLOCKS);
    FreeExists(fs.used);
    hide Quot, Rem, FreeCount, FirstFree, BlocksFor;
  }

  lemma RestIsWritable(fs: Fs, inode: Inode, m: nat, cur: nat, n: nat, fs': Fs, inode': Inode)
    requires CanWrite(fs, inode, m, cur, n) && n > 0
    requires Extends(fs, inode, m, fs', inode', Grown(fs, m, cur))
    ensures CanWrite(fs', inode', Grown(fs, m, cur), cur + Chunk(fs.bs, cur, n), n - Chunk(fs.bs, cur, n))
  {
    var c := Chunk(fs.bs, cur, n);
    NextBlock(cur, c, fs.bs);
    hide Quot, Rem, FreeCount, BlocksFor, SlotsOk, Shape;
  }

  /** The write loop: chunk after chunk, none crossing a block. */
  ghost function WriteChunks(fs: Fs, inode: Inode, m: nat, cur: nat, source: seq<Byte>): (r: (Fs, Inode))
    requires CanWrite(fs, inode, m, cur, |source|)
    ensures r.1.Inode?
    decreases |source|
  {
    if source == [] then (fs, inode)
    else
      var c := Chunk(fs.bs, cur, |source|);
      ChunkIsWritable(fs, inode, m, cur, |source|);
      WriteOneSlots(fs, inode, m, cur, source[..c]);
      var (fs1, inode1) := WriteOne(fs, inode, m, cur, source[..c]);
      RestIsWritable(fs, inode, m, cur, |source|, fs1, inode1);
      WriteChunks(fs1, inode1, Grown(fs, m, cur), cur + c, source[c..])
  }

  lemma ExtendsRefl(fs: Fs, inode: Inode, m: nat)
    requires Shape(fs) && SlotsOk(fs, inode, m)
    ensures Extends(fs, inode, m, fs, inode, m)
  {
  }

  lemma ExtendsTrans(fs: Fs, inode: Inode, m: nat, fs1: Fs, inode1: Inode, m1: nat, fs2: Fs, inode2: Inode, m2: nat)
    requires Extends(fs, inode, m, fs1, inode1, m1) && Extends(fs1, inode1, m1, fs2, inode2, m2)
    ensures Extends(fs, inode, m, fs2, inode2, m2)
  {
    hide Shape, SlotsOk, TakesFree, KeepsOthers;
    TakesFreeTrans(fs, inode, m, fs1, inode1, m1, fs2, inode2, m2);
    KeepsOthersTrans(fs, inode, m, fs1, inode1, m1, fs2, inode2, m2);
  }

  lemma TakesFreeTrans(fs: Fs, inode: Inode, m: nat, fs1: Fs, inode1: Inode, m1: nat, fs2: Fs, inode2: Inode, m2: nat)
    requires Extends(fs, inode, m, fs1, inode1, m1) && Extends(fs1, inode1, m1, fs2, inode2, m2)
    ensures SameFrame(fs, inode, m, fs2, inode2, m2) && TakesFree(fs, inode, m, fs2, inode2, m2)
  {
    hide FreeCount, Shape, KeepsOthers, InSlots;
    forall d: nat | d < |fs.used| ensures fs2.used[d] <==> fs.used[d] || InSlots(fs.start, inode2, m, m2, d) {
      SlotsSplit(fs.start, inode1, m, m1, inode2, m2, d);
    }
    forall k | m <= k < m2 ensures !SlotUsed(fs, inode2.direct[k]) {
      if k < m1 {
        assert inode2.direct[k] == inode1.direct[k];
      } else {
        assert !SlotUsed(fs1, inode2.direct[k]);
      }
    }
  }

  lemma KeepsOthersTrans(fs: Fs, inode: Inode, m: nat, fs1: Fs, inode1: Inode, m1: nat, fs2: Fs, inode2: Inode, m2: nat)
    requires Extends(fs, inode, m, fs1, inode1, m1) && Extends(fs1, inode1, m1, fs2, inode2, m2)
    ensures KeepsOthers(fs, inode, m, fs2)
  {
    hide FreeCount, InSlots;
    forall d: nat | d < |fs.used| && fs.used[d] && !InSlots(fs.start, inode, 0, m, d) ensures fs2.data[d] == fs.data[d] {
      NotInGrown(fs, inode, m, inode1, m1, d);
    }
  }

  lemma NotInGrown(fs: Fs, inode: Inode, m: nat, inode1: Inode, m1: nat, d: nat)
    requires SlotsOk(fs, inode, m) && inode1.Inode? && |inode1.direct| == DIRECT_BLOCKS && m <= m1 <= DIRECT_BLOCKS
    requires forall k :: 0 <= k < m ==> inode1.direct[k] == inode.direct[k]
    requires forall k :: m <= k < m1 ==> !SlotUsed(fs, inode1.direct[k])
    requires d < |fs.used| && fs.used[d] && !InSlots(fs.start, inode, 0, m, d)
    ensures !InSlots(fs.start, inode1, 0, m1, d)
  {
    forall k | 0 <= k < m1 ensures inode1.direct[k] != fs.start + d {
      if k < m {
        assert inode1.direct[k] == inode.direct[k];
      } else {
        assert !SlotUsed(fs, inode1.direct[k]);
      }
    }
  }

  lemma SlotsSplit(start: nat, inode1: Inode, m: nat, m1: nat, inode2: Inode, m2: nat, d: nat)
    requires inode1.Inode? && inode2.Inode? && |inode1.direct| == |inode2.direct| == DIRECT_BLOCKS && m <= m1 <= m2 <= DIRECT_BLOCKS
    requires forall k :: 0 <= k < m1 ==> inode2.direct[k] == inode1.direct[k]
    ensures InSlots(start, inode2, m, m2, d) <==> InSlots(start, inode1, m, m1, d) || InSlots(start, inode2, m1, m2, d)
  {
    if InSlots(start, inode1, m, m1, d) {
      var k :| m <= k < m1 && inode1.direct[k] == start + d;
      assert inode2.direct[k] == start + d;
    }
  }

  lemma WrittenTrans(fs: Fs, inode: Inode, m: nat, fs1: Fs, inode1: Inode, m1: nat, fs2: Fs, inode2: Inode, m2: nat,
                     cur: nat, source: seq<Byte>, c: nat)
    requires Extends(fs, inode, m, fs1, inode1, m1) && Extends(fs1, inode1, m1, fs2, inode2, m2) && 0 <= c <= |source|
    requires Written(fs, inode, m, fs1, inode1, m1, cur, source[..c])
    requires Written(fs1, inode1, m1, fs2, inode2, m2, cur + c, source[c..])
    requires forall i: nat :: cur <= i < cur + c ==> Quot(i, fs.bs) < m1
    ensures Written(fs, inode, m, fs2, inode2, m2, cur, source)
  {
    ExtendsParts(fs, inode, m, fs1, inode1, m1);
    ExtendsParts(fs1, inode1, m1, fs2, inode2, m2);
    hide Quot, Extends, Shape, SlotsOk, ByteOf;
    forall i: nat | Quot(i, fs.bs) < m2
      ensures ByteOf(fs2, inode2, m2, i) ==
              if cur <= i < cur + |source| then source[i - cur] else if Quot(i, fs.bs) < m then ByteOf(fs, inode, m, i) else 0
    {
      if Quot(i, fs.bs) < m1 {
        assert ByteOf(fs1, inode1, m1, i) ==
               if cur <= i < cur + c then source[..c][i - cur] else if Quot(i, fs.bs) < m then ByteOf(fs, inode, m, i) else 0;
      }
    }
  }

  lemma ExtendsParts(fs: Fs, inode: Inode, m: nat, fs1: Fs, inode1: Inode, m1: nat)
    requires Extends(fs, inode, m, fs1, inode1, m1)
    ensures fs1.bs == fs.bs > 0 && Shape(fs) && Shape(fs1) && SlotsOk(fs, inode, m) && SlotsOk(fs1, inode1, m1) && m <= m1
  {
  }

  /**
   The write loop never runs out of blocks, takes exactly the blocks it was promised, leaves every
   other block alone, and puts the source where it belongs.
   */
  lemma {:induction false} WriteChunksEffect(fs: Fs, inode: Inode, m: nat, cur: nat, source: seq<Byte>)
    requires CanWrite(fs, inode, m, cur, |source|)
    ensures var (fs', inode') := WriteChunks(fs, inode, m, cur, source);
            var m' := FinalSlots(fs, m, cur, |source|);
            Extends(fs, inode, m, fs', inode', m') && Written(fs, inode, m, fs', inode', m', cur, source)
    decreases |source|
  {
    if source == [] {
      ExtendsRefl(fs, inode, m);
    } else {
      WriteChunksStep(fs, inode, m, cur, source);
    }
  }

  lemma {:induction false} WriteChunksStep(fs: Fs, inode: Inode, m: nat, cur: nat, source: seq<Byte>)
    requires CanWrite(fs, inode, m, cur, |source|) && source != []
    ensures var (fs', inode') := WriteChunks(fs, inode, m, cur, source);
            var m' := FinalSlots(fs, m, cur, |source|);
            Extends(fs, inode, m, fs', inode', m') && Written(fs, inode, m, fs', inode', m', cur, source)
    decreases |source|, 0
  {
    hide Quot, Rem, Shape, SlotsOk, FreeCount, ByteOf, BlocksFor, Extends, CanWriteOne;
    var n := |source|;
    var c := Chunk(fs.bs, cur, n);
    var m1 := Grown(fs, m, cur);
    ChunkIsWritable(fs, inode, m, cur, n);
    WriteOneSlots(fs, inode, m, cur, source[..c]);
    var (fs1, inode1) := WriteOne(fs, inode, m, cur, source[..c]);
    hide WriteOne;
    ExtendsParts(fs, inode, m, fs1, inode1, m1);
    OneIsWritten(fs, inode, m, cur, source[..c]);
    RestIsWritable(fs, inode, m, cur, n, fs1, inode1);
    WriteChunksEffect(fs1, inode1, m1, cur + c, source[c..]);
    var (fs2, inode2) := WriteChunks(fs1, inode1, m1, cur + c, source[c..]);
    var m2 := FinalSlots(fs1, m1, cur + c, n - c);
    ExtendsTrans(fs, inode, m, fs1, inode1, m1, fs2, inode2, m2);
    forall i: nat | cur <= i < cur + c ensures Quot(i, fs.bs) < m1 {
      SameBlock(cur, i, fs.bs);
    }
    WrittenTrans(fs, inode, m, fs1, inode1, m1, fs2, inode2, m2, cur, source, c);
    FinalSlotsStep(fs, m, cur, n);
  }

  lemma OneIsWritten(fs: Fs, inode: Inode, m: nat, cur: nat, piece: seq<Byte>)
    requires CanWriteOne(fs, inode, m, cur, |piece|)
    requires var (fs', inode') := WriteOne(fs, inode, m, cur, piece); Extends(fs, inode, m, fs', inode', Grown(fs, m, cur))
    ensures var (fs', inode') := WriteOne(fs, inode, m, cur, piece); Written(fs, inode, m, fs', inode', Grown(fs, m, cur), cur, piece)
  {
    var (fs', inode') := WriteOne(fs, inode, m, cur, piece);
    ExtendsParts(fs, inode, m, fs', inode', Grown(fs, m, cur));
    hide Quot, Extends, SlotsOk, Shape, ByteOf, FirstFree;
    forall i: nat | Quot(i, fs.bs) < Grown(fs, m, cur)
      ensures ByteOf(fs', inode', Grown(fs, m, cur), i) ==
              if cur <= i < cur + |piece| then piece[i - cur] else if Quot(i, fs.bs) < m then ByteOf(fs, inode, m, i) else 0
    {
      WriteOneBytes(fs, inode, m, cur, piece, i);
    }
  }

  lemma FinalSlotsStep(fs: Fs, m: nat, cur: nat, n: nat)
    requires fs.bs > 0 && n > 0 && Quot(cur, fs.bs) <= m
    ensures var c := Chunk(fs.bs, cur, n);
            FinalSlots(fs, Grown(fs, m, cur), cur + c, n - c) == FinalSlots(fs, m, cur, n)
  {
    var c := Chunk(fs.bs, cur, n);
    ReachesBlock(cur, n, fs.bs);
    ReachesBlock(cur, c, fs.bs);
    hide Quot, Rem, BlocksFor;
  }
}
