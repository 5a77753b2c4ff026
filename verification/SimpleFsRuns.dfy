/** Runs of the file system from a fresh format. */
module SimpleFsRuns {
  import opened LittleEndian
  import opened Results
  import opened Blocks
  import opened SimpleFsCodec
  import opened SimpleFs
  import opened SimpleFsFiles
  import opened SimpleFsState
  import opened SimpleFsTree
  import opened SimpleFsRefinement

  datatype Op =
    | CreateOp(parent: nat, name: seq<Byte>, kind: Kind)
    | WriteOp(file: nat, offset: nat, source: seq<Byte>)
    | ReadOp(file: nat, offset: nat, count: nat)
    | LookupOp(dir: nat, name: seq<Byte>)

  datatype Outcome =
    | Number(r: Result<nat>)
    | Content(bytes: Result<seq<Byte>>)
    | Found(entry: Result<Option<Entry>>)

  ghost function Step(fs: Fs, op: Op): (Fs, Outcome)
    requires Inv(fs)
  {
    match op
    case CreateOp(n, name, kind) => var (fs', r) := FsCreate(fs, n, name, kind); (fs', Number(r))
    case WriteOp(n, offset, source) => var (fs', r) := FsWrite(fs, n, offset, source); (fs', Number(r))
    case ReadOp(n, offset, count) => (fs, Content(FsRead(fs, n, offset, count)))
    case LookupOp(n, name) => (fs, Found(FsLookup(fs, n, name)))
  }

  ghost function TreeStep(tree: Tree, limits: Limits, op: Op): (Tree, Outcome)
    requires limits.bs > 0
  {
    match op
    case CreateOp(n, name, kind) => var (tree', r) := TreeCreate(tree, limits, n, name, kind); (tree', Number(r))
    case WriteOp(n, offset, source) => var (tree', r) := TreeWrite(tree, limits, n, offset, source); (tree', Number(r))
    case ReadOp(n, offset, count) => (tree, Content(TreeRead(tree, n, offset, count)))
    case LookupOp(n, name) => (tree, Found(TreeLookup(tree, n, name)))
  }

  ghost function RankStep(tree: Tree, rank: seq<nat>, limits: Limits, op: Op): seq<nat>
    requires limits.bs > 0 && |rank| == |tree|
  {
    if op.CreateOp? && TreeCreate(tree, limits, op.parent, op.name, op.kind).1.Ok? then NewRank(tree, rank) else rank
  }

  lemma StepRefines(fs: Fs, tree: Tree, op: Op)
    requires Rep(fs, tree)
    ensures fs.bs > 0
    ensures var (fs', seen) := Step(fs, op);
            var (tree', seen') := TreeStep(tree, LimitsOf(fs), op);
            Rep(fs', tree') && seen == seen' && LimitsOf(fs') == LimitsOf(fs)
  {
    hide Inv, FsCreate, FsWrite, FsRead, FsLookup, TreeCreate, TreeWrite, TreeRead, TreeLookup;
    InvShape(fs);
    match op
    case CreateOp(n, name, kind) => CreateRefines(fs, tree, n, name, kind);
    case WriteOp(n, offset, source) => WriteRefines(fs, tree, n, offset, source);
    case ReadOp(n, offset, count) => ReadRefines(fs, tree, n, offset, count);
    case LookupOp(n, name) => LookupRefines(fs, tree, n, name);
  }

  /** Every step keeps the namespace a tree. */
  lemma StepKeepsTree(tree: Tree, rank: seq<nat>, limits: Limits, op: Op)
    requires TreeOk(tree, rank) && limits.bs > 0
    ensures TreeOk(TreeStep(tree, limits, op).0, RankStep(tree, rank, limits, op))
  {
    hide TreeOk, Fits, ValidName, FirstAbsent, FindName;
    assert |rank| == |tree| by { TreeSizes(tree, rank); }
    match op
    case CreateOp(n, name, kind) =>
      if TreeCreate(tree, limits, n, name, kind).1.Ok? {
        CreateKeepsTree(tree, rank, n - 1, name, kind);
      }
    case WriteOp(n, offset, source) =>
      if TreeWrite(tree, limits, n, offset, source).1.Ok? && source != [] {
        WriteKeepsTree(tree, rank, n - 1, Overwrite(tree[n - 1].bytes, offset, source));
      }
    case ReadOp(_, _, _) =>
    case LookupOp(_, _) =>
  }

  lemma TreeSizes(tree: Tree, rank: seq<nat>)
    requires TreeOk(tree, rank)
    ensures |rank| == |tree|
  {
  }

  ghost function Run(fs: Fs, tree: Tree, ops: seq<Op>): (Fs, seq<Outcome>)
    requires Rep(fs, tree)
    decreases |ops|
  {
    if ops == [] then (fs, [])
    else
      StepRefines(fs, tree, ops[0]);
      var (fs1, seen) := Step(fs, ops[0]);
      var (fs2, rest) := Run(fs1, TreeStep(tree, LimitsOf(fs), ops[0]).0, ops[1..]);
      (fs2, [seen] + rest)
  }

  ghost function TreeRun(tree: Tree, rank: seq<nat>, limits: Limits, ops: seq<Op>): (Tree, seq<nat>, seq<Outcome>)
    requires TreeOk(tree, rank) && limits.bs > 0
    decreases |ops|
  {
    if ops == [] then (tree, rank, [])
    else
      StepKeepsTree(tree, rank, limits, ops[0]);
      var (tree1, seen) := TreeStep(tree, limits, ops[0]);
      var (tree2, rank2, rest) := TreeRun(tree1, RankStep(tree, rank, limits, ops[0]), limits, ops[1..]);
      (tree2, rank2, [seen] + rest)
  }

  /**
   Over every run of creations, writes, reads and lookups the file system gives the tree's results,
   ends up representing the tree, and the namespace stays a tree.
   */
  lemma {:induction false} RunsRefineTree(fs: Fs, tree: Tree, rank: seq<nat>, ops: seq<Op>)
    requires Rep(fs, tree) && TreeOk(tree, rank)
    ensures fs.bs > 0
    ensures var (fs', seen) := Run(fs, tree, ops);
            var (tree', rank', seen') := TreeRun(tree, rank, LimitsOf(fs), ops);
            Rep(fs', tree') && TreeOk(tree', rank') && seen == seen'
    decreases |ops|
  {
    hide Rep, TreeOk, Step, TreeStep, RankStep;
    RepShape(fs, tree);
    if ops != [] {
      StepRefines(fs, tree, ops[0]);
      TreeSizes(tree, rank);
      StepKeepsTree(tree, rank, LimitsOf(fs), ops[0]);
      RunsRefineTree(Step(fs, ops[0]).0, TreeStep(tree, LimitsOf(fs), ops[0]).0, RankStep(tree, rank, LimitsOf(fs), ops[0]), ops[1..]);
    }
  }

  lemma RepShape(fs: Fs, tree: Tree)
    requires Rep(fs, tree)
    ensures fs.bs > 0 && Inv(fs)
  {
  }

  // ---------- The start ----------

  /** What format leaves: an empty root directory and nothing else. */
  ghost function Formatted(bs: nat, start: nat, inodeCount: nat, dataCount: nat): Fs
    requires inodeCount > 0
  {
    Fs(bs, start, seq(inodeCount, n => if n == 0 then Inode(DIRECTORY, 0, NO_BLOCKS) else Free),
       seq(dataCount, _ => false), seq(dataCount, _ => Zeros(bs)))
  }

  ghost function EmptyTree(inodeCount: nat): Tree
    requires inodeCount > 0
  {
    seq(inodeCount, n => if n == 0 then DirNode([]) else Absent)
  }

  lemma {:induction false} AllFree(used: seq<bool>)
    requires forall d :: 0 <= d < |used| ==> !used[d]
    ensures FreeCount(used) == |used|
  {
    if used != [] { AllFree(used[1..]); }
  }

  lemma {:induction false} NoBlocks(inodes: seq<Inode>, bs: nat)
    requires bs > 0 && forall n :: 0 <= n < |inodes| ==> inodes[n].Free? || inodes[n].size == 0
    ensures TotalBlocks(inodes, bs) == 0
  {
    if inodes != [] { NoBlocks(inodes[1..], bs); }
  }

  /** A fresh format is the tree with only a root directory. */
  lemma FormatRefines(bs: nat, start: nat, inodeCount: nat, dataCount: nat)
    requires 0 < bs <= MAX_U32 && start > 0 && 0 < inodeCount <= MAX_U32
    ensures Rep(Formatted(bs, start, inodeCount, dataCount), EmptyTree(inodeCount))
    ensures TreeOk(EmptyTree(inodeCount), seq(inodeCount, _ => 0))
  {
    var fs, tree := Formatted(bs, start, inodeCount, dataCount), EmptyTree(inodeCount);
    AllFree(fs.used);
    NoBlocks(fs.inodes, bs);
    hide FreeCount, TotalBlocks;
    assert Shape(fs);
    forall n: nat | n < |fs.inodes| ensures NodeOk(fs, n) {
    }
    forall d: nat | d < |fs.used| ensures fs.used[d] <==> Owned(fs, d) {
      forall n: nat, k: nat ensures !Owns(fs, n, k, d) { }
    }
    assert EncodeAll([]) == [];
    assert NodeOk(fs, 0);
    assert Bytes(fs, fs.inodes[0]) == [];
  }
}
