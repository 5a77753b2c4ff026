/** Whole file systems: who owns which block, and what each operation keeps. */
module SimpleFsState {
  import opened LittleEndian
  import opened Results
  import opened Blocks
  import opened BlockDevice
  import opened SimpleFsCodec
  import opened SimpleFs
  import opened SimpleFsFiles

  // ---------- Block ownership ----------

  /** Slot k of inode n holds data block d. */
  ghost predicate Owns(fs: Fs, n: nat, k: nat, d: nat)
  {
    && n < |fs.inodes| && fs.inodes[n].Inode? && |fs.inodes[n].direct| == DIRECT_BLOCKS && k < DIRECT_BLOCKS
    && fs.inodes[n].direct[k] == fs.start + d
  }

  ghost predicate Owned(fs: Fs, d: nat)
  {
    exists n: nat, k: nat :: Owns(fs, n, k, d)
  }

  ghost predicate OnlyOwner(fs: Fs, n: nat, k: nat, n': nat, k': nat, d: nat)
  {
    Owns(fs, n, k, d) && Owns(fs, n', k', d) ==> n == n' && k == k'
  }

  function TotalBlocks(inodes: seq<Inode>, bs: nat): nat
    requires bs > 0
  {
    if inodes == [] then 0
    else (if inodes[0].Free? then 0 else BlocksFor(inodes[0].size, bs)) + TotalBlocks(inodes[1..], bs)
  }

  ghost predicate NodeOk(fs: Fs, n: nat)
    requires n < |fs.inodes|
  {
    fs.inodes[n].Inode? ==> InodeOk(fs, fs.inodes[n])
  }

  /**
   Every inode's slots are exactly the blocks of its size; a bitmap bit is set exactly when one slot
   of one inode owns the block; free and owned blocks make up the whole.
   */
  ghost predicate Inv(fs: Fs)
  {
    && Shape(fs)
    && (forall n: nat :: n < |fs.inodes| ==> NodeOk(fs, n))
    && (forall d: nat :: d < |fs.used| ==> (fs.used[d] <==> Owned(fs, d)))
    && (forall n: nat, k: nat, n': nat, k': nat, d: nat {:trigger OnlyOwner(fs, n, k, n', k', d)} :: OnlyOwner(fs, n, k, n', k', d))
    && FreeCount(fs.used) + TotalBlocks(fs.inodes, fs.bs) == |fs.used|
  }

  lemma {:induction false} TotalUpdate(inodes: seq<Inode>, bs: nat, n: nat, inode: Inode)
    requires bs > 0 && n < |inodes|
    ensures TotalBlocks(inodes[n := inode], bs)
            == TotalBlocks(inodes, bs) - (if inodes[n].Free? then 0 else BlocksFor(inodes[n].size, bs))
               + (if inode.Free? then 0 else BlocksFor(inode.size, bs))
  {
    if n == 0 {
      assert inodes[0 := inode][1..] == inodes[1..];
    } else {
      TotalUpdate(inodes[1..], bs, n - 1, inode);
      assert inodes[n := inode][1..] == inodes[1..][n - 1 := inode];
    }
  }

  // ---------- Installing a changed inode ----------

  /** An inode n was extended to inode', with size' for its size. */
  ghost predicate Installs(fs: Fs, n: nat, fs1: Fs, inode': Inode)
  {
    && Inv(fs) && n < |fs.inodes| && fs.inodes[n].Inode? && inode'.Inode?
    && InodeOk(fs1, inode')
    && Extends(fs, fs.inodes[n], BlocksFor(fs.inodes[n].size, fs.bs), fs1, inode'.(size := fs.inodes[n].size), BlocksFor(inode'.size, fs.bs))
  }

  function Install(fs1: Fs, n: nat, inode': Inode): Fs
    requires n < |fs1.inodes|
  {
    fs1.(inodes := fs1.inodes[n := inode'])
  }

  lemma InstallFacts(fs: Fs, n: nat, fs1: Fs, inode': Inode)
    requires Installs(fs, n, fs1, inode')
    ensures fs1.inodes == fs.inodes && fs1.bs == fs.bs && fs1.start == fs.start && |fs1.used| == |fs.used| == |fs.data| == |fs1.data|
    ensures |inode'.direct| == |fs.inodes[n].direct| == DIRECT_BLOCKS
    ensures forall d: nat :: d < |fs.used| && fs.used[d] ==> fs1.used[d]
    ensures var m := BlocksFor(fs.inodes[n].size, fs.bs);
            && m <= BlocksFor(inode'.size, fs.bs) <= DIRECT_BLOCKS
            && (forall k :: 0 <= k < m ==> inode'.direct[k] == fs.inodes[n].direct[k])
            && (forall d: nat :: d < |fs.used| ==>
                  (fs1.used[d] <==> fs.used[d] || InSlots(fs.start, inode', m, BlocksFor(inode'.size, fs.bs), d)))
            && (forall k :: m <= k < BlocksFor(inode'.size, fs.bs) ==> !SlotUsed(fs, inode'.direct[k]))
    ensures KeepsOthers(fs, fs.inodes[n], BlocksFor(fs.inodes[n].size, fs.bs), fs1)
    ensures FreeCount(fs1.used) + BlocksFor(inode'.size, fs.bs) == FreeCount(fs.used) + BlocksFor(fs.inodes[n].size, fs.bs)
  {
    hide BlocksFor, FreeCount, TotalBlocks, Owned, OnlyOwner, NodeOk;
    var m, m' := BlocksFor(fs.inodes[n].size, fs.bs), BlocksFor(inode'.size, fs.bs);
    var inode1 := inode'.(size := fs.inodes[n].size);
    assert inode1.direct == inode'.direct;
    forall d: nat | d < |fs.used| ensures InSlots(fs.start, inode1, m, m', d) <==> InSlots(fs.start, inode', m, m', d) {
    }
  }

  lemma SlotsStay(fs: Fs, fs1: Fs, inode: Inode)
    requires InodeOk(fs, inode) && Shape(fs1) && fs1.bs == fs.bs && fs1.start == fs.start && |fs1.used| == |fs.used|
    requires forall d: nat :: d < |fs.used| && fs.used[d] ==> fs1.used[d]
    ensures InodeOk(fs1, inode)
  {
    forall k | 0 <= k < BlocksFor(inode.size, fs.bs) ensures SlotUsed(fs1, inode.direct[k]) {
      assert SlotUsed(fs, inode.direct[k]);
    }
  }

  /** Slot owners after an install: as before, plus the new slots. */
  lemma InstallOwner(fs: Fs, n: nat, fs1: Fs, inode': Inode, x: nat, k: nat, d: nat)
    requires Installs(fs, n, fs1, inode') && d < |fs.used|
    ensures n < |fs1.inodes|
    ensures Owns(Install(fs1, n, inode'), x, k, d) <==>
            Owns(fs, x, k, d) ||
            (x == n && BlocksFor(fs.inodes[n].size, fs.bs) <= k < BlocksFor(inode'.size, fs.bs) && inode'.direct[k] == fs.start + d)
  {
    InstallFacts(fs, n, fs1, inode');
    assert NodeOk(fs, n);
    hide BlocksFor, Extends, KeepsOthers, Inv, InSlots;
  }

  lemma InstallOwned(fs: Fs, n: nat, fs1: Fs, inode': Inode, d: nat)
    requires Installs(fs, n, fs1, inode') && d < |fs.used|
    ensures n < |fs1.inodes| && |fs1.used| == |fs.used|
    ensures fs1.used[d] <==> Owned(Install(fs1, n, inode'), d)
  {
    InstallFacts(fs, n, fs1, inode');
    var fs' := Install(fs1, n, inode');
    var m, m' := BlocksFor(fs.inodes[n].size, fs.bs), BlocksFor(inode'.size, fs.bs);
    hide BlocksFor, Extends, KeepsOthers, TotalBlocks, FreeCount, OnlyOwner, NodeOk, Owns;
    if fs1.used[d] {
      if fs.used[d] {
        var x: nat, k: nat :| Owns(fs, x, k, d);
        InstallOwner(fs, n, fs1, inode', x, k, d);
      } else {
        var k :| m <= k < m' && inode'.direct[k] == fs.start + d;
        InstallOwner(fs, n, fs1, inode', n, k, d);
      }
    }
    if Owned(fs', d) {
      var x: nat, k: nat :| Owns(fs', x, k, d);
      InstallOwner(fs, n, fs1, inode', x, k, d);
      if !Owns(fs, x, k, d) {
        assert InSlots(fs.start, inode', m, m', d);
      }
    }
  }

  lemma InstallOnly(fs: Fs, n: nat, fs1: Fs, inode': Inode, x: nat, k: nat, y: nat, j: nat, d: nat)
    requires Installs(fs, n, fs1, inode')
    ensures n < |fs1.inodes|
    ensures OnlyOwner(Install(fs1, n, inode'), x, k, y, j, d)
  {
    InstallFacts(fs, n, fs1, inode');
    var fs' := Install(fs1, n, inode');
    var m, m' := BlocksFor(fs.inodes[n].size, fs.bs), BlocksFor(inode'.size, fs.bs);
    if Owns(fs', x, k, d) && Owns(fs', y, j, d) {
      OwnedInRange(fs, n, fs1, inode', x, k, d);
      InstallOwner(fs, n, fs1, inode', x, k, d);
      InstallOwner(fs, n, fs1, inode', y, j, d);
      assert OnlyOwner(fs, x, k, y, j, d);
      assert Owned(fs, d) <==> fs.used[d];
      hide BlocksFor, Extends, KeepsOthers, TotalBlocks, FreeCount, NodeOk, InSlots, Inv;
      assert Owns(fs, x, k, d) ==> fs.used[d];
      assert Owns(fs, y, j, d) ==> fs.used[d];
      if !Owns(fs, x, k, d) {
        assert !SlotUsed(fs, inode'.direct[k]);
        assert !Owns(fs, y, j, d);
        NewSlotsDiffer(fs1, inode', m', k, j);
      }
    }
  }

  lemma NewSlotsDiffer(fs1: Fs, inode': Inode, m': nat, k: nat, j: nat)
    requires InodeOk(fs1, inode') && m' == BlocksFor(inode'.size, fs1.bs) && k < m' && j < m'
    ensures |inode'.direct| == DIRECT_BLOCKS && m' <= DIRECT_BLOCKS && (inode'.direct[k] == inode'.direct[j] ==> k == j)
  {
  }

  lemma OwnedInRange(fs: Fs, n: nat, fs1: Fs, inode': Inode, x: nat, k: nat, d: nat)
    requires Installs(fs, n, fs1, inode') && n < |fs1.inodes|
    requires Owns(Install(fs1, n, inode'), x, k, d)
    ensures d < |fs.used|
  {
    InstallFacts(fs, n, fs1, inode');
    assert x != n ==> NodeOk(fs, x);
    var inode := if x == n then inode' else fs.inodes[x];
    assert x != n ==> InodeOk(fs, inode);
    hide BlocksFor, Extends, KeepsOthers, TotalBlocks, FreeCount, NodeOk, InSlots, Inv;
    assert inode.direct[k] != EMPTY_BLOCK;
    assert SlotUsed(if x == n then fs1 else fs, inode.direct[k]);
  }

  /** Installing keeps the invariant. */
  lemma InstallKeepsInv(fs: Fs, n: nat, fs1: Fs, inode': Inode)
    requires Installs(fs, n, fs1, inode')
    ensures n < |fs1.inodes| && Inv(Install(fs1, n, inode'))
  {
    InstallFacts(fs, n, fs1, inode');
    var fs' := Install(fs1, n, inode');
    TotalUpdate(fs.inodes, fs.bs, n, inode');
    InstallNodes(fs, n, fs1, inode');
    forall d: nat | d < |fs'.used| ensures fs'.used[d] <==> Owned(fs', d) {
      InstallOwned(fs, n, fs1, inode', d);
    }
    forall x: nat, k: nat, y: nat, j: nat, d: nat {:trigger OnlyOwner(fs', x, k, y, j, d)} ensures OnlyOwner(fs', x, k, y, j, d) {
      InstallOnly(fs, n, fs1, inode', x, k, y, j, d);
    }
    hide BlocksFor, Extends, KeepsOthers, TotalBlocks, FreeCount, NodeOk, Owned, OnlyOwner, SlotsOk;
  }

  lemma InstallNodes(fs: Fs, n: nat, fs1: Fs, inode': Inode)
    requires Installs(fs, n, fs1, inode')
    ensures n < |fs1.inodes| && Shape(Install(fs1, n, inode'))
    ensures forall x: nat :: x < |fs1.inodes| ==> NodeOk(Install(fs1, n, inode'), x)
  {
    InstallFacts(fs, n, fs1, inode');
    var fs' := Install(fs1, n, inode');
    forall x: nat | x < |fs1.inodes| ensures NodeOk(fs', x) {
      if x == n {
        SlotsStay(fs1, fs', inode');
      } else if fs.inodes[x].Inode? {
        assert NodeOk(fs, x);
        SlotsStay(fs, fs', fs.inodes[x]);
      }
    }
    hide BlocksFor, Extends, KeepsOthers, SlotsOk, InSlots;
  }

  lemma ByteElsewhere(fs: Fs, n: nat, fs1: Fs, inode': Inode, x: nat, i: nat)
    requires Installs(fs, n, fs1, inode') && x < |fs.inodes| && x != n && fs.inodes[x].Inode? && i < fs.inodes[x].size
    ensures n < |fs1.inodes| && InodeOk(fs, fs.inodes[x]) && InodeOk(Install(fs1, n, inode'), fs.inodes[x])
    ensures Bytes(Install(fs1, n, inode'), fs.inodes[x])[i] == Bytes(fs, fs.inodes[x])[i]
  {
    InstallFacts(fs, n, fs1, inode');
    InstallNodes(fs, n, fs1, inode');
    var inode := fs.inodes[x];
    var fs' := Install(fs1, n, inode');
    assert NodeOk(fs, x) && NodeOk(fs', x);
    InsideBlocks(i, inode.size, fs.bs);
    var q := Quot(i, fs.bs);
    var a := inode.direct[q];
    assert SlotUsed(fs, a);
    var d := a - fs.start;
    assert Owns(fs, x, q, d);
    var m := BlocksFor(fs.inodes[n].size, fs.bs);
    forall k | 0 <= k < m ensures fs.inodes[n].direct[k] != fs.start + d {
      assert OnlyOwner(fs, x, q, n, k, d);
    }
    hide BlocksFor, Extends, SlotsOk, Inv, Owned, OnlyOwner;
    assert !InSlots(fs.start, fs.inodes[n], 0, m, d);
    assert fs1.data[d] == fs.data[d];
  }

  /** No other inode changes: neither record nor bytes. */
  lemma InstallLeavesOthers(fs: Fs, n: nat, fs1: Fs, inode': Inode, x: nat)
    requires Installs(fs, n, fs1, inode') && x < |fs.inodes| && x != n
    ensures n < |fs1.inodes| && Install(fs1, n, inode').inodes[x] == fs.inodes[x]
    ensures fs.inodes[x].Inode? ==>
              InodeOk(fs, fs.inodes[x]) && InodeOk(Install(fs1, n, inode'), fs.inodes[x])
              && Bytes(Install(fs1, n, inode'), fs.inodes[x]) == Bytes(fs, fs.inodes[x])
  {
    InstallFacts(fs, n, fs1, inode');
    if fs.inodes[x].Inode? {
      InstallNodes(fs, n, fs1, inode');
      var inode := fs.inodes[x];
      var fs' := Install(fs1, n, inode');
      assert NodeOk(fs, x) && NodeOk(fs', x);
      forall i: nat | i < inode.size ensures Bytes(fs', inode)[i] == Bytes(fs, inode)[i] {
        ByteElsewhere(fs, n, fs1, inode', x, i);
      }
      hide Installs, InodeOk, Bytes, Inv;
    }
  }
}
