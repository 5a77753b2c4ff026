/**
 What SimpleFS promises its users, call by call: when each call succeeds, with which error it fails otherwise, and what it
 leaves, in terms of names, sizes and bytes.
 */
module SimpleFsPromises {
  import opened LittleEndian
  import opened Results
  import opened Arithmetic
  import opened BlockDevice
  import opened SimpleFsCodec
  import opened SimpleFs
  import opened SimpleFsFiles
  import opened SimpleFsTree
  import SimpleFsLayout

  /** The least number of blocks that hold so many bytes. */
  lemma BlocksForIsLeast(size: nat, bs: nat, q: nat)
    requires bs > 0
    ensures SimpleFsLayout.LeastCover(size, bs, q) <==> q == BlocksFor(size, bs)
  {
    SimpleFsLayout.LeastCoverIsCeilDiv(size, bs, q);
  }

  /** A name is 1 to 56 bytes without a slash, and neither "." nor "..". */
  ghost predicate IsName(name: seq<Byte>)
  {
    1 <= |name| <= 56 && (forall i :: 0 <= i < |name| ==> name[i] != 0x2F) && name != [0x2E] && name != [0x2E, 0x2E]
  }

  lemma NamesAreValid(name: seq<Byte>)
    ensures ValidName(name) <==> IsName(name)
  {
  }

  /** A node exists under this number. */
  predicate Known(tree: Tree, n: nat)
  {
    1 <= n <= |tree| && !tree[n - 1].Absent?
  }

  predicate IsDirectory(tree: Tree, n: nat)
  {
    Known(tree, n) && tree[n - 1].DirNode?
  }

  predicate IsFile(tree: Tree, n: nat)
  {
    Known(tree, n) && tree[n - 1].FileNode?
  }

  ghost predicate Taken(tree: Tree, n: nat, name: seq<Byte>)
  {
    IsDirectory(tree, n) && exists e :: e in tree[n - 1].entries && e.name == name
  }

  /** Growing from have to want blocks fits into six blocks of a file and into the device. */
  ghost predicate RoomToGrow(tree: Tree, limits: Limits, size: nat, end: nat, have: nat, want: nat)
    requires limits.bs > 0
  {
    && SimpleFsLayout.LeastCover(size, limits.bs, have) && SimpleFsLayout.LeastCover(end, limits.bs, want)
    && end <= 6 * limits.bs && TreeBlocks(tree, limits.bs) - have + want <= limits.blocks
  }

  ghost predicate HasRoom(tree: Tree, limits: Limits, size: nat, end: nat)
    requires limits.bs > 0
  {
    exists have: nat, want: nat :: RoomToGrow(tree, limits, size, end, have, want)
  }

  lemma FitsIsRoom(tree: Tree, limits: Limits, size: nat, end: nat)
    requires limits.bs > 0
    ensures Fits(tree, limits, size, end) <==> HasRoom(tree, limits, size, end)
  {
    var have, want := BlocksFor(size, limits.bs), BlocksFor(end, limits.bs);
    BlocksForIsLeast(size, limits.bs, have);
    BlocksForIsLeast(end, limits.bs, want);
    forall h: nat, w: nat | RoomToGrow(tree, limits, size, end, h, w) ensures h == have && w == want {
      BlocksForIsLeast(size, limits.bs, h);
      BlocksForIsLeast(end, limits.bs, w);
    }
    hide BlocksFor, SimpleFsLayout.LeastCover, TreeBlocks;
    if Fits(tree, limits, size, end) {
      assert RoomToGrow(tree, limits, size, end, have, want);
    }
  }

  /** lookup: the entry of that name, none, or the error of the name or of the directory. */
  lemma LookupFinds(tree: Tree, n: nat, name: seq<Byte>)
    ensures var r := TreeLookup(tree, n, name);
            && (r == Err(InvalidArgument) <==> !IsName(name) || (Known(tree, n) && !IsDirectory(tree, n)))
            && (r == Err(OutOfRange) <==> IsName(name) && !Known(tree, n))
            && (r.Ok? <==> IsName(name) && IsDirectory(tree, n))
            && (r.Ok? && r.value.None? ==> !Taken(tree, n, name))
            && (r.Ok? && r.value.Some? ==> Taken(tree, n, name) && r.value.value in tree[n - 1].entries && r.value.value.name == name)
  {
    NamesAreValid(name);
    hide ValidName, IsName;
  }

  /** read_file: the bytes from the offset on, as many as asked for and as there are. */
  lemma ReadReturns(tree: Tree, n: nat, offset: nat, count: nat, k: nat)
    ensures var r := TreeRead(tree, n, offset, count);
            && (r.Ok? <==> IsFile(tree, n))
            && (r == Err(OutOfRange) <==> !Known(tree, n))
            && (r == Err(InvalidArgument) <==> IsDirectory(tree, n))
            && (r.Ok? ==> (k < |r.value| <==> k < count && offset + k < |tree[n - 1].bytes|))
            && (r.Ok? && k < |r.value| ==> r.value[k] == tree[n - 1].bytes[offset + k])
  {
  }

  lemma OverwriteAt(bytes: seq<Byte>, offset: nat, source: seq<Byte>, k: nat)
    requires offset <= |bytes|
    ensures var after := Overwrite(bytes, offset, source);
            && (k < |after| <==> k < |bytes| || k < offset + |source|)
            && (k < |after| ==> after[k] == if offset <= k < offset + |source| then source[k - offset] else bytes[k])
  {
  }

  /**
   write_file succeeds exactly on a file, without a gap before the offset, if the file then fits its six blocks and the device has the blocks it
   lacks; it then holds the source at the offset and its old bytes elsewhere, and no other node changes.
   */
  lemma WriteSucceedsIff(tree: Tree, limits: Limits, n: nat, offset: nat, source: seq<Byte>, k: nat)
    requires limits.bs > 0 && 6 * limits.bs < 0x1_0000_0000_0000_0000
    ensures var (tree', r) := TreeWrite(tree, limits, n, offset, source);
            var gapless := IsFile(tree, n) && offset <= |tree[n - 1].bytes|;
            var room := gapless && (source == [] || HasRoom(tree, limits, |tree[n - 1].bytes|, offset + |source|));
            && (r.Ok? <==> room) && (r.Ok? ==> r.value == |source|)
            && (r == Err(OutOfRange) <==> !Known(tree, n))
            && (r == Err(InvalidArgument) <==> Known(tree, n) && !gapless)
            && (r == Err(LengthError) <==> gapless && !room)
            && |tree'| == |tree| && (forall m :: 0 <= m < |tree| && m != n - 1 ==> tree'[m] == tree[m])
            && (r.Err? ==> tree' == tree)
            && (r.Ok? ==>
                  && tree'[n - 1].FileNode?
                  && (k < |tree'[n - 1].bytes| <==> k < |tree[n - 1].bytes| || k < offset + |source|)
                  && (k < |tree'[n - 1].bytes| ==>
                        tree'[n - 1].bytes[k] == if offset <= k < offset + |source| then source[k - offset] else tree[n - 1].bytes[k]))
  {
    if IsFile(tree, n) && offset <= |tree[n - 1].bytes| {
      FitsIsRoom(tree, limits, |tree[n - 1].bytes|, offset + |source|);
      OverwriteAt(tree[n - 1].bytes, offset, source, k);
    }
    hide HasRoom, Overwrite;
  }

  /**
   create_file and create_directory succeed exactly for a valid name that is not taken in an existing directory with room for one more
   entry, if an inode is free; the first free one becomes an empty node, its entry comes last, and nothing else changes.
   */
  lemma CreateSucceedsIff(tree: Tree, limits: Limits, n: nat, name: seq<Byte>, kind: Kind)
    requires limits.bs > 0
    ensures var (tree', r) := TreeCreate(tree, limits, n, name, kind);
            var named := IsName(name) && IsDirectory(tree, n) && !Taken(tree, n, name);
            var room := named && HasRoom(tree, limits, 64 * |tree[n - 1].entries|, 64 * |tree[n - 1].entries| + 64)
                        && exists m :: 0 <= m < |tree| && tree[m].Absent?;
            && (r.Ok? <==> room)
            && (r == Err(InvalidArgument) <==> !IsName(name) || (Known(tree, n) && !IsDirectory(tree, n)) || Taken(tree, n, name))
            && (r == Err(OutOfRange) <==> IsName(name) && !Known(tree, n))
            && (r == Err(LengthError) <==> named && !room)
            && (r.Err? ==> tree' == tree)
            && (r.Ok? ==>
                  && 1 <= r.value <= |tree| == |tree'| && tree[r.value - 1].Absent?
                  && (forall m :: 0 <= m < r.value - 1 ==> !tree[m].Absent?)
                  && tree'[r.value - 1] == (if kind.FILE? then FileNode([]) else DirNode([]))
                  && tree'[n - 1] == DirNode(tree[n - 1].entries + [Entry(name, r.value, kind)])
                  && forall m :: 0 <= m < |tree| && m != n - 1 && m != r.value - 1 ==> tree'[m] == tree[m])
  {
    LookupFinds(tree, n, name);
    if IsDirectory(tree, n) {
      FitsIsRoom(tree, limits, 64 * |tree[n - 1].entries|, 64 * |tree[n - 1].entries| + 64);
    }
    hide HasRoom, TreeLookup, IsName, Taken, Fits;
  }
}
