/** SimpleFS refines a tree of named byte strings, results and errors included. */
module SimpleFsRefinement {
  import opened LittleEndian
  import opened Results
  import opened Blocks
  import opened BlockDevice
  import Fields
  import opened SimpleFsCodec
  import opened SimpleFs
  import opened SimpleFsFiles
  import opened SimpleFsState
  import opened SimpleFsTree

  const MAX_U32 := 0xFFFF_FFFF

  // ---------- Directory contents ----------

  ghost predicate EntryWritable(entry: Entry)
  {
    Nameable(entry.name) && entry.inode <= MAX_U32
  }

  ghost predicate AllWritable(entries: seq<Entry>)
  {
    forall i :: 0 <= i < |entries| ==> EntryWritable(entries[i])
  }

  ghost function EncodeAll(entries: seq<Entry>): (bytes: seq<Byte>)
    requires AllWritable(entries)
    ensures |bytes| == RECORD * |entries|
  {
    if entries == [] then []
    else EncodeAll(entries[..|entries| - 1]) + EncodeEntry(entries[|entries| - 1])
  }

  /** The parse loop of read_directory over the first n records: inactive records are skipped, a corrupt one throws. */
  function DecodeFirst(bytes: seq<Byte>, n: nat): Result<seq<Entry>>
    requires RECORD * n <= |bytes|
  {
    if n == 0 then Ok([])
    else
      match DecodeFirst(bytes, n - 1)
      case Err(error) => Err(error)
      case Ok(entries) =>
        match DecodeEntry(bytes[RECORD * (n - 1)..RECORD * n])
        case Err(error) => Err(error)
        case Ok(None) => Ok(entries)
        case Ok(Some(entry)) => Ok(entries + [entry])
  }

  lemma {:induction false} DecodeFirstOf(bytes: seq<Byte>, more: seq<Byte>, n: nat)
    requires RECORD * n <= |bytes|
    ensures DecodeFirst(bytes + more, n) == DecodeFirst(bytes, n)
  {
    if n > 0 {
      DecodeFirstOf(bytes, more, n - 1);
      assert (bytes + more)[RECORD * (n - 1)..RECORD * n] == bytes[RECORD * (n - 1)..RECORD * n];
    }
  }

  lemma WritableEntryReads(entry: Entry)
    requires EntryWritable(entry)
    ensures Nameable(entry.name) && DecodeEntry(EncodeEntry(entry)) == Ok(Some(entry))
  {
    Fields.Widths();
    EntryRoundTrip(entry);
  }

  /** A directory reads back as the entries that were written. */
  lemma {:induction false} DirectoryRoundTrip(entries: seq<Entry>)
    requires AllWritable(entries)
    ensures DecodeFirst(EncodeAll(entries), |entries|) == Ok(entries)
  {
    hide EncodeEntry, DecodeEntry, EntryWritable;
    if entries != [] {
      var n := |entries|;
      var front, last := entries[..n - 1], entries[n - 1];
      DirectoryRoundTrip(front);
      WritableEntryReads(last);
      DecodeFirstOf(EncodeAll(front), EncodeEntry(last), n - 1);
      assert EncodeAll(entries)[RECORD * (n - 1)..RECORD * n] == EncodeEntry(last);
      assert front + [last] == entries;
    }
  }

  // ---------- The representation ----------

  ghost predicate Matches(fs: Fs, inode: Inode, node: Node)
  {
    match node
    case Absent => inode.Free?
    case FileNode(bytes) => inode.Inode? && inode.kind == FILE && InodeOk(fs, inode) && Bytes(fs, inode) == bytes
    case DirNode(entries) =>
      && inode.Inode? && inode.kind == DIRECTORY && InodeOk(fs, inode)
      && AllWritable(entries) && Bytes(fs, inode) == EncodeAll(entries)
  }

  ghost predicate Rep(fs: Fs, tree: Tree)
  {
    && Inv(fs) && fs.bs <= MAX_U32 && |tree| == |fs.inodes| <= MAX_U32
    && forall n: nat :: n < |tree| ==> Matches(fs, fs.inodes[n], tree[n])
  }

  function LimitsOf(fs: Fs): Limits
  {
    Limits(fs.bs, |fs.used|)
  }

  // ---------- Operations on the decoded file system ----------

  function FsDirectory(fs: Fs, n: nat): Result<seq<Entry>>
    requires Inv(fs)
  {
    if n == 0 || n > |fs.inodes| || fs.inodes[n - 1].Free? then Err(OutOfRange)
    else if fs.inodes[n - 1].kind != DIRECTORY then Err(InvalidArgument)
    else if fs.inodes[n - 1].size % RECORD != 0 then Err(RuntimeError)
    else
      assert NodeOk(fs, n - 1);
      ReadAll(fs, fs.inodes[n - 1]);
      var bytes := ReadBytes(fs, fs.inodes[n - 1], 0, fs.inodes[n - 1].size);
      DecodeFirst(bytes, fs.inodes[n - 1].size / RECORD)
  }

  lemma ReadAll(fs: Fs, inode: Inode)
    requires InodeOk(fs, inode)
    ensures ReadBytes(fs, inode, 0, inode.size) == Bytes(fs, inode)
  {
    ReadIsSlice(fs, inode, 0, inode.size);
    hide ReadBytes, InodeOk;
    assert Bytes(fs, inode)[0..inode.size] == Bytes(fs, inode);
  }

  function FsLookup(fs: Fs, n: nat, name: seq<Byte>): Result<Option<Entry>>
    requires Inv(fs)
  {
    if !ValidName(name) then Err(InvalidArgument)
    else
      match FsDirectory(fs, n)
      case Err(error) => Err(error)
      case Ok(entries) =>
        var i := FindName(entries, name);
        Ok(if i < |entries| then Some(entries[i]) else None)
  }

  function CheckFile(fs: Fs, n: nat): Result<Inode>
  {
    if n == 0 || n > |fs.inodes| || fs.inodes[n - 1].Free? then Err(OutOfRange)
    else if fs.inodes[n - 1].kind != FILE then Err(InvalidArgument)
    else Ok(fs.inodes[n - 1])
  }

  function FsRead(fs: Fs, n: nat, offset: nat, count: nat): Result<seq<Byte>>
    requires Inv(fs)
  {
    match CheckFile(fs, n)
    case Err(error) => Err(error)
    case Ok(inode) => assert NodeOk(fs, n - 1); Ok(ReadBytes(fs, inode, offset, count))
  }

  ghost function FsWrite(fs: Fs, n: nat, offset: nat, source: seq<Byte>): (Fs, Result<nat>)
    requires Inv(fs)
  {
    match CheckFile(fs, n)
    case Err(error) => (fs, Err(error))
    case Ok(inode) =>
      assert NodeOk(fs, n - 1);
      WriteKeepsCount(fs, inode, offset, source);
      var (fs1, inode1, r) := WriteBytes(fs, inode, offset, source);
      if r.Err? then (fs1, r) else (Install(fs1, n - 1, inode1), r)
  }

  lemma WriteKeepsCount(fs: Fs, inode: Inode, offset: nat, source: seq<Byte>)
    requires InodeOk(fs, inode)
    ensures WriteBytes(fs, inode, offset, source).0.inodes == fs.inodes
    ensures WriteBytes(fs, inode, offset, source).2.Err? ==> WriteBytes(fs, inode, offset, source).0 == fs
  {
    if WriteRefusal(fs, inode, offset, |source|).None? && source != [] {
      WriteBytesEffect(fs, inode, offset, source);
      hide WriteBytes, InodeOk, BlocksFor, TakesFree, KeepsOthers;
    }
  }

  function FirstFreeInode(inodes: seq<Inode>): (i: nat)
    ensures i <= |inodes| && (i < |inodes| ==> inodes[i].Free?)
    ensures forall j :: 0 <= j < i ==> !inodes[j].Free?
  {
    if inodes == [] || inodes[0].Free? then 0 else 1 + FirstFreeInode(inodes[1..])
  }

  const NO_BLOCKS := [EMPTY_BLOCK, EMPTY_BLOCK, EMPTY_BLOCK, EMPTY_BLOCK, EMPTY_BLOCK, EMPTY_BLOCK]

  function WithNewInode(fs: Fs, i: nat, kind: Kind): Fs
    requires i < |fs.inodes|
  {
    fs.(inodes := fs.inodes[i := Inode(kind, 0, NO_BLOCKS)])
  }

  // ---------- Reading ----------

  lemma DirectoryRefines(fs: Fs, tree: Tree, n: nat)
    requires Rep(fs, tree)
    ensures FsDirectory(fs, n) == Directory(tree, n)
  {
    hide ReadBytes, DecodeFirst, EncodeAll, Inv, InodeOk, Bytes, EntryWritable;
    if 0 < n <= |tree| {
      assert Matches(fs, fs.inodes[n - 1], tree[n - 1]);
      if tree[n - 1].DirNode? {
        var inode, entries := fs.inodes[n - 1], tree[n - 1].entries;
        ReadAll(fs, inode);
        DirectoryRoundTrip(entries);
      }
    }
  }

  lemma LookupRefines(fs: Fs, tree: Tree, n: nat, name: seq<Byte>)
    requires Rep(fs, tree)
    ensures FsLookup(fs, n, name) == TreeLookup(tree, n, name)
  {
    DirectoryRefines(fs, tree, n);
    hide FsDirectory, Directory, Rep;
  }

  lemma ReadRefines(fs: Fs, tree: Tree, n: nat, offset: nat, count: nat)
    requires Rep(fs, tree)
    ensures FsRead(fs, n, offset, count) == TreeRead(tree, n, offset, count)
  {
    if 0 < n <= |tree| {
      assert Matches(fs, fs.inodes[n - 1], tree[n - 1]);
      if tree[n - 1].FileNode? {
        ReadIsSlice(fs, fs.inodes[n - 1], offset, count);
        hide ReadBytes, InodeOk, Bytes;
      }
    }
  }

  // ---------- Space ----------

  lemma {:induction false} BlocksMatch(fs: Fs, inodes: seq<Inode>, tree: Tree)
    requires Shape(fs) && |inodes| == |tree| && forall n: nat :: n < |tree| ==> Matches(fs, inodes[n], tree[n])
    ensures TotalBlocks(inodes, fs.bs) == TreeBlocks(tree, fs.bs)
    decreases |tree|
  {
    if tree != [] {
      BlocksMatch(fs, inodes[1..], tree[1..]);
      assert Matches(fs, inodes[0], tree[0]);
      hide InodeOk;
    }
  }

  lemma SizeMatches(fs: Fs, tree: Tree, n: nat)
    requires Rep(fs, tree) && n < |tree| && !tree[n].Absent?
    ensures fs.inodes[n].Inode? && fs.inodes[n].size == NodeSize(tree[n]) && InodeOk(fs, fs.inodes[n])
  {
    assert Matches(fs, fs.inodes[n], tree[n]);
  }

  /** The up-front check of a write sees exactly the blocks that the tree leaves free. */
  lemma RefusalMatches(fs: Fs, tree: Tree, n: nat, end: nat)
    requires Rep(fs, tree) && n < |tree| && !tree[n].Absent?
    ensures fs.inodes[n].Inode? && fs.bs > 0
    ensures match AdditionalBlocks(fs.bs, fs.inodes[n], end)
            case Err(error) => error == LengthError && !Fits(tree, LimitsOf(fs), NodeSize(tree[n]), end)
            case Ok(blocks) => blocks <= FreeCount(fs.used) <==> Fits(tree, LimitsOf(fs), NodeSize(tree[n]), end)
  {
    SizeMatches(fs, tree, n);
    BlocksMatch(fs, fs.inodes, tree);
    CountPrefix(fs.inodes[n].direct, BlocksFor(fs.inodes[n].size, fs.bs));
    hide InodeOk, Bytes, FreeCount, BlocksFor, TreeBlocks, TotalBlocks, CountSlots, NodeOk, Owned, OnlyOwner, Matches;
  }

  // ---------- Writing ----------

  /** An accepted write of a node gives a representation of the tree with that node rewritten. */
  lemma InstallRefines(fs: Fs, tree: Tree, n: nat, fs1: Fs, inode': Inode, node: Node)
    requires Rep(fs, tree) && n < |tree| && Installs(fs, n, fs1, inode')
    requires Matches(fs1, inode', node)
    ensures n < |fs1.inodes| && Rep(Install(fs1, n, inode'), tree[n := node])
  {
    InstallKeepsInv(fs, n, fs1, inode');
    InstallFacts(fs, n, fs1, inode');
    var fs' := Install(fs1, n, inode');
    forall x: nat | x < |tree| ensures Matches(fs', fs'.inodes[x], tree[n := node][x]) {
      if x == n {
        SameBytes(fs1, fs', inode');
      } else {
        assert Matches(fs, fs.inodes[x], tree[x]);
        InstallLeavesOthers(fs, n, fs1, inode', x);
      }
    }
    hide Installs, InodeOk, Bytes, Inv, Matches;
  }

  lemma SameBytes(fs1: Fs, fs': Fs, inode: Inode)
    requires InodeOk(fs1, inode) && fs' == fs1.(inodes := fs'.inodes)
    ensures InodeOk(fs', inode) && Bytes(fs', inode) == Bytes(fs1, inode)
  {
    forall k | 0 <= k < BlocksFor(inode.size, fs1.bs) ensures SlotUsed(fs', inode.direct[k]) {
      assert SlotUsed(fs1, inode.direct[k]);
    }
    forall i: nat | i < inode.size ensures Bytes(fs', inode)[i] == Bytes(fs1, inode)[i] {
      InsideBlocks(i, inode.size, fs1.bs);
    }
  }

  /** write_file does what the tree does: same result, same error, and no other node touched. */
  lemma WriteRefines(fs: Fs, tree: Tree, n: nat, offset: nat, source: seq<Byte>)
    requires Rep(fs, tree)
    ensures fs.bs > 0
    ensures var (fs', r) := FsWrite(fs, n, offset, source);
            var (tree', r') := TreeWrite(tree, LimitsOf(fs), n, offset, source);
            r == r' && Rep(fs', tree') && LimitsOf(fs') == LimitsOf(fs)
  {
    if 0 < n <= |tree| {
      assert Matches(fs, fs.inodes[n - 1], tree[n - 1]);
      if tree[n - 1].FileNode? {
        WriteFileRefines(fs, tree, n, offset, source);
        hide FsWrite, TreeWrite, Rep;
      }
    }
    hide WriteBytes, Inv, Bytes, InodeOk;
  }

  lemma WriteFileRefines(fs: Fs, tree: Tree, n: nat, offset: nat, source: seq<Byte>)
    requires Rep(fs, tree) && 0 < n <= |tree| && tree[n - 1].FileNode?
    ensures fs.bs > 0
    ensures var (fs', r) := FsWrite(fs, n, offset, source);
            var (tree', r') := TreeWrite(tree, LimitsOf(fs), n, offset, source);
            r == r' && Rep(fs', tree') && LimitsOf(fs') == LimitsOf(fs)
  {
    hide Inv, Bytes, InodeOk, WriteChunks, FreeCount, BlocksFor, AdditionalBlocks, Fits;
    var inode, bytes := fs.inodes[n - 1], tree[n - 1].bytes;
    assert Matches(fs, inode, tree[n - 1]);
    SizeMatches(fs, tree, n - 1);
    RefusalMatches(fs, tree, n - 1, offset + |source|);
    if WriteRefusal(fs, inode, offset, |source|).None? {
      if source == [] {
        assert fs.inodes[n - 1 := inode] == fs.inodes;
      } else {
        WriteBytesEffect(fs, inode, offset, source);
        var (fs1, inode1, r) := WriteBytes(fs, inode, offset, source);
        hide WriteBytes;
        KindStays(fs, inode, fs1, inode1);
        InstallRefines(fs, tree, n - 1, fs1, inode1, FileNode(Overwrite(bytes, offset, source)));
      }
    }
  }

  lemma KindStays(fs: Fs, inode: Inode, fs1: Fs, inode1: Inode)
    requires InodeOk(fs, inode) && inode1.Inode?
    requires Extends(fs, inode, BlocksFor(inode.size, fs.bs), fs1, inode1.(size := inode.size), BlocksFor(inode1.size, fs.bs))
    ensures inode1.kind == inode.kind && |fs1.used| == |fs.used| && fs1.bs == fs.bs && fs1.inodes == fs.inodes
  {
    hide TakesFree, KeepsOthers, SlotsOk, BlocksFor;
  }

  // ---------- Creating ----------

  /** create_file and create_directory: checks, then a new inode, then an entry appended to the parent. */
  ghost function FsCreate(fs: Fs, n: nat, name: seq<Byte>, kind: Kind): (Fs, Result<nat>)
    requires Inv(fs)
  {
    match FsLookup(fs, n, name)
    case Err(error) => (fs, Err(error))
    case Ok(Some(_)) => (fs, Err(InvalidArgument))
    case Ok(None) =>
      var parent := fs.inodes[n - 1];
      match AdditionalBlocks(fs.bs, parent, parent.size + RECORD)
      case Err(error) => (fs, Err(error))
      case Ok(blocks) =>
        var i := FirstFreeInode(fs.inodes);
        if blocks > FreeCount(fs.used) || i == |fs.inodes| then (fs, Err(LengthError))
        else
          var fs1 := WithNewInode(fs, i, kind);
          assert NodeOk(fs, n - 1);
          SameBytes(fs, fs1, parent);
          var entry := EncodeEntry(Entry(name, i + 1, kind));
          WriteKeepsCount(fs1, parent, parent.size, entry);
          var (fs2, parent2, r) := WriteBytes(fs1, parent, parent.size, entry);
          if r.Err? then (fs2, Err(r.error)) else (Install(fs2, n - 1, parent2), Ok(i + 1))
  }

  lemma {:induction false} FirstFreeMatches(fs: Fs, inodes: seq<Inode>, tree: Tree)
    requires |inodes| == |tree| && forall n: nat :: n < |tree| ==> Matches(fs, inodes[n], tree[n])
    ensures FirstFreeInode(inodes) == FirstAbsent(tree)
    decreases |tree|
  {
    if tree != [] {
      assert Matches(fs, inodes[0], tree[0]);
      hide InodeOk;
      FirstFreeMatches(fs, inodes[1..], tree[1..]);
    }
  }

  lemma NewInodeOwns(fs: Fs, i: nat, kind: Kind, n: nat, k: nat, d: nat)
    requires Inv(fs) && i < |fs.inodes| && fs.inodes[i].Free?
    ensures Owns(WithNewInode(fs, i, kind), n, k, d) <==> Owns(fs, n, k, d)
  {
    hide NodeOk, Owned, OnlyOwner, TotalBlocks, FreeCount;
  }

  lemma NewInodeKeepsInv(fs: Fs, i: nat, kind: Kind)
    requires Inv(fs) && i < |fs.inodes| && fs.inodes[i].Free?
    ensures Inv(WithNewInode(fs, i, kind))
  {
    var fs1 := WithNewInode(fs, i, kind);
    TotalUpdate(fs.inodes, fs.bs, i, Inode(kind, 0, NO_BLOCKS));
    hide FreeCount, TotalBlocks, Owns;
    forall n: nat | n < |fs1.inodes| ensures NodeOk(fs1, n) {
      assert NodeOk(fs, n);
      if fs.inodes[n].Inode? { SameBytes(fs, fs1, fs.inodes[n]); }
    }
    forall d: nat | d < |fs1.used| ensures fs1.used[d] <==> Owned(fs1, d) {
      assert fs.used[d] <==> Owned(fs, d);
      if Owned(fs, d) {
        var n: nat, k: nat :| Owns(fs, n, k, d);
        NewInodeOwns(fs, i, kind, n, k, d);
      }
      if Owned(fs1, d) {
        var n: nat, k: nat :| Owns(fs1, n, k, d);
        NewInodeOwns(fs, i, kind, n, k, d);
      }
    }
    forall n: nat, k: nat, n': nat, k': nat, d: nat {:trigger OnlyOwner(fs1, n, k, n', k', d)} ensures OnlyOwner(fs1, n, k, n', k', d) {
      NewInodeOwns(fs, i, kind, n, k, d);
      NewInodeOwns(fs, i, kind, n', k', d);
      assert OnlyOwner(fs, n, k, n', k', d);
    }
  }

  lemma NewInodeRefines(fs: Fs, tree: Tree, i: nat, kind: Kind)
    requires Rep(fs, tree) && i < |tree| && tree[i].Absent?
    ensures fs.inodes[i].Free? && Rep(WithNewInode(fs, i, kind), tree[i := EmptyNode(kind)])
  {
    assert Matches(fs, fs.inodes[i], tree[i]);
    var fs1 := WithNewInode(fs, i, kind);
    NewInodeKeepsInv(fs, i, kind);
    forall n: nat | n < |tree| ensures Matches(fs1, fs1.inodes[n], tree[i := EmptyNode(kind)][n]) {
      if n == i {
        NewInodeMatches(fs1, i, kind);
      } else {
        assert Matches(fs, fs.inodes[n], tree[n]);
        if fs.inodes[n].Inode? { SameBytes(fs, fs1, fs.inodes[n]); }
      }
    }
    hide Inv, InodeOk, Bytes, EncodeAll;
  }

  lemma NewInodeMatches(fs1: Fs, i: nat, kind: Kind)
    requires Inv(fs1) && i < |fs1.inodes| && fs1.inodes[i] == Inode(kind, 0, NO_BLOCKS)
    ensures Matches(fs1, fs1.inodes[i], EmptyNode(kind))
  {
    assert NodeOk(fs1, i);
    assert EncodeAll([]) == [];
  }

  lemma EncodeAppend(entries: seq<Entry>, entry: Entry)
    requires AllWritable(entries) && EntryWritable(entry)
    ensures AllWritable(entries + [entry])
    ensures EncodeAll(entries + [entry]) == EncodeAll(entries) + EncodeEntry(entry)
  {
    hide EncodeEntry;
    var all := entries + [entry];
    assert all[..|all| - 1] == entries && all[|all| - 1] == entry;
  }

  lemma OverwriteAtEnd(bytes: seq<Byte>, source: seq<Byte>)
    ensures Overwrite(bytes, |bytes|, source) == bytes + source
  {
  }

  lemma AppendedEntry(entries: seq<Entry>, entry: Entry)
    requires AllWritable(entries) && EntryWritable(entry)
    ensures AllWritable(entries + [entry])
    ensures Overwrite(EncodeAll(entries), RECORD * |entries|, EncodeEntry(entry)) == EncodeAll(entries + [entry])
  {
    EncodeAppend(entries, entry);
    OverwriteAtEnd(EncodeAll(entries), EncodeEntry(entry));
    hide EncodeAll, EncodeEntry, Overwrite, AllWritable;
  }

  /** The entry always fits once the checks have passed: creation cannot fail half way. */
  lemma AppendSucceeds(fs: Fs, tree: Tree, p: nat, i: nat, name: seq<Byte>, kind: Kind)
    requires Rep(fs, tree) && p < |tree| && tree[p].DirNode? && i < |tree| && tree[i].Absent? && Nameable(name)
    requires Fits(tree, LimitsOf(fs), RECORD * |tree[p].entries|, RECORD * |tree[p].entries| + RECORD)
    ensures fs.inodes[p].Inode? && fs.inodes[i].Free?
    ensures var fs1 := WithNewInode(fs, i, kind);
            fs1.bs > 0 && WriteRefusal(fs1, fs.inodes[p], fs.inodes[p].size, RECORD).None?
  {
    hide Inv, InodeOk, Bytes, FreeCount, BlocksFor, CountSlots, TreeBlocks, EncodeAll;
    assert Matches(fs, fs.inodes[i], tree[i]) && Matches(fs, fs.inodes[p], tree[p]);
    SizeMatches(fs, tree, p);
    RefusalMatches(fs, tree, p, fs.inodes[p].size + RECORD);
  }

  lemma AppendRefines(fs: Fs, tree: Tree, p: nat, i: nat, name: seq<Byte>, kind: Kind)
    requires Rep(fs, tree) && p < |tree| && tree[p].DirNode? && i < |tree| && tree[i].Absent? && Nameable(name)
    requires Fits(tree, LimitsOf(fs), RECORD * |tree[p].entries|, RECORD * |tree[p].entries| + RECORD)
    ensures fs.inodes[p].Inode? && InodeOk(WithNewInode(fs, i, kind), fs.inodes[p])
    ensures var entry := Entry(name, i + 1, kind);
            var (fs2, parent2, r) := WriteBytes(WithNewInode(fs, i, kind), fs.inodes[p], fs.inodes[p].size, EncodeEntry(entry));
            && r.Ok? && p < |fs2.inodes|
            && Rep(Install(fs2, p, parent2), tree[i := EmptyNode(kind)][p := DirNode(tree[p].entries + [entry])])
            && LimitsOf(fs2) == LimitsOf(fs)
  {
    hide Inv, Bytes, InodeOk, WriteBytes, FreeCount, BlocksFor, Fits, EncodeAll, EncodeEntry, WriteRefusal;
    var entry := Entry(name, i + 1, kind);
    var fs1, tree1 := WithNewInode(fs, i, kind), tree[i := EmptyNode(kind)];
    var parent := fs.inodes[p];
    NewInodeRefines(fs, tree, i, kind);
    assert tree1[p] == tree[p] && fs1.inodes[p] == parent;
    assert Matches(fs1, parent, tree1[p]);
    SizeMatches(fs, tree, p);
    AppendSucceeds(fs, tree, p, i, name, kind);
    AppendedEntry(tree[p].entries, entry);
    WriteBytesEffect(fs1, parent, parent.size, EncodeEntry(entry));
    var (fs2, parent2, r) := WriteBytes(fs1, parent, parent.size, EncodeEntry(entry));
    KindStays(fs1, parent, fs2, parent2);
    InstallRefines(fs1, tree1, p, fs2, parent2, DirNode(tree[p].entries + [entry]));
  }

  /** create_file and create_directory do what the tree does: one entry and one node, or nothing at all. */
  lemma CreateRefines(fs: Fs, tree: Tree, n: nat, name: seq<Byte>, kind: Kind)
    requires Rep(fs, tree)
    ensures fs.bs > 0
    ensures var (fs', r) := FsCreate(fs, n, name, kind);
            var (tree', r') := TreeCreate(tree, LimitsOf(fs), n, name, kind);
            r == r' && Rep(fs', tree') && LimitsOf(fs') == LimitsOf(fs)
  {
    hide Inv, Bytes, InodeOk, WriteBytes, FreeCount, BlocksFor, Fits, EncodeEntry, AdditionalBlocks, FsDirectory;
    LookupRefines(fs, tree, n, name);
    FirstFreeMatches(fs, fs.inodes, tree);
    InvShape(fs);
    if TreeLookup(tree, n, name) == Ok(None) {
      SizeMatches(fs, tree, n - 1);
      RefusalMatches(fs, tree, n - 1, fs.inodes[n - 1].size + RECORD);
      var i := FirstAbsent(tree);
      if i < |tree| && Fits(tree, LimitsOf(fs), RECORD * |tree[n - 1].entries|, RECORD * |tree[n - 1].entries| + RECORD) {
        AppendRefines(fs, tree, n - 1, i, name, kind);
      }
    }
    hide FsLookup, TreeLookup, Matches;
  }

  lemma InvShape(fs: Fs)
    requires Inv(fs)
    ensures fs.bs > 0
  {
  }
}
