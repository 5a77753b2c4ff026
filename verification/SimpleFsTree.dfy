/** The file system as users see it: a tree of named byte strings. */
module SimpleFsTree {
  import opened LittleEndian
  import opened Results
  import opened BlockDevice
  import opened SimpleFsCodec
  import opened SimpleFs
  import opened SimpleFsFiles

  datatype Node = Absent | FileNode(bytes: seq<Byte>) | DirNode(entries: seq<Entry>)

  /** Inode number n is tree[n - 1]; the root is number 1. */
  type Tree = seq<Node>

  /** The sizes that decide when space runs out. */
  datatype Limits = Limits(bs: nat, blocks: nat)

  const SLASH := 47
  const DOT := 46

  predicate ValidName(name: seq<Byte>)
  {
    Nameable(name) && SLASH !in name && name != [DOT] && name != [DOT, DOT]
  }

  function KindOf(node: Node): Kind
  {
    if node.DirNode? then DIRECTORY else FILE
  }

  function EmptyNode(kind: Kind): Node
  {
    if kind == FILE then FileNode([]) else DirNode([])
  }

  function NodeSize(node: Node): nat
  {
    match node
    case Absent => 0
    case FileNode(bytes) => |bytes|
    case DirNode(entries) => RECORD * |entries|
  }

  function TreeBlocks(tree: Tree, bs: nat): nat
    requires bs > 0
  {
    if tree == [] then 0 else BlocksFor(NodeSize(tree[0]), bs) + TreeBlocks(tree[1..], bs)
  }

  function FindName(entries: seq<Entry>, name: seq<Byte>): (i: nat)
    ensures i <= |entries| && (i < |entries| ==> entries[i].name == name)
    ensures forall j :: 0 <= j < i ==> entries[j].name != name
  {
    if entries == [] || entries[0].name == name then 0 else 1 + FindName(entries[1..], name)
  }

  function FirstAbsent(tree: Tree): (i: nat)
    ensures i <= |tree| && (i < |tree| ==> tree[i].Absent?)
    ensures forall j :: 0 <= j < i ==> !tree[j].Absent?
  {
    if tree == [] || tree[0].Absent? then 0 else 1 + FirstAbsent(tree[1..])
  }

  // ---------- Operations on the tree ----------

  function Directory(tree: Tree, n: nat): Result<seq<Entry>>
  {
    if n == 0 || n > |tree| || tree[n - 1].Absent? then Err(OutOfRange)
    else if !tree[n - 1].DirNode? then Err(InvalidArgument)
    else Ok(tree[n - 1].entries)
  }

  function File(tree: Tree, n: nat): Result<seq<Byte>>
  {
    if n == 0 || n > |tree| || tree[n - 1].Absent? then Err(OutOfRange)
    else if !tree[n - 1].FileNode? then Err(InvalidArgument)
    else Ok(tree[n - 1].bytes)
  }

  function TreeLookup(tree: Tree, n: nat, name: seq<Byte>): Result<Option<Entry>>
  {
    if !ValidName(name) then Err(InvalidArgument)
    else
      match Directory(tree, n)
      case Err(error) => Err(error)
      case Ok(entries) =>
        var i := FindName(entries, name);
        Ok(if i < |entries| then Some(entries[i]) else None)
  }

  function TreeRead(tree: Tree, n: nat, offset: nat, count: nat): Result<seq<Byte>>
  {
    match File(tree, n)
    case Err(error) => Err(error)
    case Ok(bytes) =>
      Ok(if offset >= |bytes| then []
         else bytes[offset..if count < |bytes| - offset then offset + count else |bytes|])
  }

  /** The space checks of a write that ends at end. */
  predicate Fits(tree: Tree, limits: Limits, size: nat, end: nat)
    requires limits.bs > 0
  {
    && end <= DIRECT_BLOCKS * limits.bs
    && BlocksFor(end, limits.bs) + TreeBlocks(tree, limits.bs) <= limits.blocks + BlocksFor(size, limits.bs)
  }

  function TreeWrite(tree: Tree, limits: Limits, n: nat, offset: nat, source: seq<Byte>): (Tree, Result<nat>)
    requires limits.bs > 0
  {
    match File(tree, n)
    case Err(error) => (tree, Err(error))
    case Ok(bytes) =>
      if offset > |bytes| then (tree, Err(InvalidArgument))
      else if source == [] then (tree, Ok(0))
      else if |source| > MAX_U64 - offset then (tree, Err(LengthError))
      else if !Fits(tree, limits, |bytes|, offset + |source|) then (tree, Err(LengthError))
      else (tree[n - 1 := FileNode(Overwrite(bytes, offset, source))], Ok(|source|))
  }

  function TreeCreate(tree: Tree, limits: Limits, n: nat, name: seq<Byte>, kind: Kind): (Tree, Result<nat>)
    requires limits.bs > 0
  {
    match TreeLookup(tree, n, name)
    case Err(error) => (tree, Err(error))
    case Ok(Some(_)) => (tree, Err(InvalidArgument))
    case Ok(None) =>
      var entries := tree[n - 1].entries;
      var i := FirstAbsent(tree);
      if !Fits(tree, limits, RECORD * |entries|, RECORD * |entries| + RECORD) || i == |tree| then (tree, Err(LengthError))
      else (tree[i := EmptyNode(kind)][n - 1 := DirNode(entries + [Entry(name, i + 1, kind)])], Ok(i + 1))
  }

  // ---------- Namespace ----------

  /** Entry i of directory d names inode x + 1. */
  ghost predicate Names(tree: Tree, d: nat, i: nat, x: nat)
  {
    d < |tree| && tree[d].DirNode? && i < |tree[d].entries| && tree[d].entries[i].inode == x + 1
  }

  ghost predicate EntryOk(tree: Tree, rank: seq<nat>, d: nat, i: nat)
    requires d < |tree| == |rank| && tree[d].DirNode? && i < |tree[d].entries|
  {
    var e := tree[d].entries[i];
    && ValidName(e.name) && 1 < e.inode <= |tree| && !tree[e.inode - 1].Absent? && KindOf(tree[e.inode - 1]) == e.kind
    && rank[d] < rank[e.inode - 1]
  }

  ghost predicate DistinctNames(entries: seq<Entry>)
  {
    forall i, j :: 0 <= i < j < |entries| ==> entries[i].name != entries[j].name
  }

  ghost predicate Named(tree: Tree, x: nat)
  {
    exists d: nat, i: nat :: Names(tree, d, i, x)
  }

  ghost predicate NamedOnce(tree: Tree, d: nat, i: nat, d': nat, i': nat, x: nat)
  {
    Names(tree, d, i, x) && Names(tree, d', i', x) ==> d == d' && i == i'
  }

  /**
   The directories form a tree: names are distinct, every present node but the root is named by
   exactly one entry of its kind, and ranks grow from parent to child.
   */
  ghost predicate TreeOk(tree: Tree, rank: seq<nat>)
  {
    && |rank| == |tree| > 0 && tree[0].DirNode?
    && (forall d: nat :: d < |tree| && tree[d].DirNode? ==> DistinctNames(tree[d].entries))
    && (forall d: nat, i: nat {:trigger EntryOk(tree, rank, d, i)} ::
          d < |tree| && tree[d].DirNode? && i < |tree[d].entries| ==> EntryOk(tree, rank, d, i))
    && (forall x: nat :: 0 < x < |tree| && !tree[x].Absent? ==> Named(tree, x))
    && (forall d: nat, i: nat, d': nat, i': nat, x: nat {:trigger NamedOnce(tree, d, i, d', i', x)} :: NamedOnce(tree, d, i, d', i', x))
  }

  function MaxOf(rank: seq<nat>): (m: nat)
    ensures forall i :: 0 <= i < |rank| ==> rank[i] <= m
  {
    if rank == [] then 0 else var m := MaxOf(rank[1..]); if rank[0] > m then rank[0] else m
  }

  ghost function NewRank(tree: Tree, rank: seq<nat>): seq<nat>
    requires |rank| == |tree|
  {
    var i := FirstAbsent(tree);
    if i < |tree| then rank[i := MaxOf(rank) + 1] else rank
  }

  lemma WriteKeepsTree(tree: Tree, rank: seq<nat>, n: nat, bytes: seq<Byte>)
    requires TreeOk(tree, rank) && n < |tree| && tree[n].FileNode?
    ensures TreeOk(tree[n := FileNode(bytes)], rank)
  {
    var tree' := tree[n := FileNode(bytes)];
    forall d: nat, i: nat {:trigger EntryOk(tree', rank, d, i)} | d < |tree'| && tree'[d].DirNode? && i < |tree'[d].entries| ensures EntryOk(tree', rank, d, i) {
      assert EntryOk(tree, rank, d, i);
    }
    forall x: nat | 0 < x < |tree'| && !tree'[x].Absent? ensures Named(tree', x) {
      assert Named(tree, x);
      var d: nat, i: nat :| Names(tree, d, i, x);
      assert Names(tree', d, i, x);
    }
    forall d: nat, i: nat, d': nat, i': nat, x: nat {:trigger NamedOnce(tree', d, i, d', i', x)} ensures NamedOnce(tree', d, i, d', i', x) {
      assert NamedOnce(tree, d, i, d', i', x);
    }
  }

  // ---------- Creating a node keeps the tree ----------

  ghost predicate Creates(tree: Tree, rank: seq<nat>, p: nat, name: seq<Byte>, kind: Kind)
  {
    && TreeOk(tree, rank) && p < |tree| && tree[p].DirNode? && ValidName(name)
    && FirstAbsent(tree) < |tree| && forall i :: 0 <= i < |tree[p].entries| ==> tree[p].entries[i].name != name
  }

  ghost function Created(tree: Tree, p: nat, name: seq<Byte>, kind: Kind): Tree
    requires p < |tree| && tree[p].DirNode? && FirstAbsent(tree) < |tree|
  {
    var i := FirstAbsent(tree);
    tree[i := EmptyNode(kind)][p := DirNode(tree[p].entries + [Entry(name, i + 1, kind)])]
  }

  lemma CreatedNames(tree: Tree, rank: seq<nat>, p: nat, name: seq<Byte>, kind: Kind, d: nat, i: nat, x: nat)
    requires Creates(tree, rank, p, name, kind)
    ensures Names(Created(tree, p, name, kind), d, i, x) <==>
            Names(tree, d, i, x) || (d == p && i == |tree[p].entries| && x == FirstAbsent(tree))
  {
  }

  lemma AbsentIsUnnamed(tree: Tree, rank: seq<nat>, d: nat, i: nat, x: nat)
    requires TreeOk(tree, rank) && Names(tree, d, i, x)
    ensures x < |tree| && !tree[x].Absent?
  {
    assert EntryOk(tree, rank, d, i);
  }

  lemma CreatedEntryOk(tree: Tree, rank: seq<nat>, p: nat, name: seq<Byte>, kind: Kind, d: nat, i: nat)
    requires Creates(tree, rank, p, name, kind)
    requires var tree' := Created(tree, p, name, kind); d < |tree'| && tree'[d].DirNode? && i < |tree'[d].entries|
    ensures EntryOk(Created(tree, p, name, kind), NewRank(tree, rank), d, i)
  {
    hide FirstAbsent, MaxOf, Named, NamedOnce, DistinctNames, ValidName;
    var a := FirstAbsent(tree);
    RootIsPresent(tree);
    if d == p && i == |tree[p].entries| {
      assert rank[p] <= MaxOf(rank);
    } else {
      assert EntryOk(tree, rank, d, i);
      assert tree[d].entries[i].inode - 1 != a;
    }
  }

  /** Creating adds exactly one entry and one node and keeps the namespace a tree. */
  lemma CreateKeepsTree(tree: Tree, rank: seq<nat>, p: nat, name: seq<Byte>, kind: Kind)
    requires Creates(tree, rank, p, name, kind)
    ensures TreeOk(Created(tree, p, name, kind), NewRank(tree, rank))
  {
    var tree', rank' := Created(tree, p, name, kind), NewRank(tree, rank);
    var a := FirstAbsent(tree);
    hide FirstAbsent, EntryOk, ValidName;
    forall d: nat, i: nat {:trigger EntryOk(tree', rank', d, i)} | d < |tree'| && tree'[d].DirNode? && i < |tree'[d].entries| ensures EntryOk(tree', rank', d, i) {
      CreatedEntryOk(tree, rank, p, name, kind, d, i);
    }
    forall x: nat | 0 < x < |tree'| && !tree'[x].Absent? ensures Named(tree', x) {
      if x == a {
        CreatedNames(tree, rank, p, name, kind, p, |tree[p].entries|, a);
      } else {
        assert Named(tree, x);
        var d: nat, i: nat :| Names(tree, d, i, x);
        CreatedNames(tree, rank, p, name, kind, d, i, x);
      }
    }
    CreatedOnce(tree, rank, p, name, kind);
    CreatedDistinct(tree, rank, p, name, kind);
    hide Creates, Created, NamedOnce, Named, DistinctNames;
  }

  lemma CreatedDistinct(tree: Tree, rank: seq<nat>, p: nat, name: seq<Byte>, kind: Kind)
    requires Creates(tree, rank, p, name, kind)
    ensures var tree' := Created(tree, p, name, kind);
            && |tree'| == |tree| == |NewRank(tree, rank)| && tree'[0].DirNode?
            && forall d: nat :: d < |tree'| && tree'[d].DirNode? ==> DistinctNames(tree'[d].entries)
  {
    hide EntryOk, Named, NamedOnce, ValidName, FirstAbsent;
    assert FirstAbsent(tree) != 0 by { RootIsPresent(tree); }
  }

  lemma RootIsPresent(tree: Tree)
    requires tree != [] && tree[0].DirNode?
    ensures FirstAbsent(tree) != 0
  {
  }

  lemma CreatedOnce(tree: Tree, rank: seq<nat>, p: nat, name: seq<Byte>, kind: Kind)
    requires Creates(tree, rank, p, name, kind)
    ensures var tree' := Created(tree, p, name, kind);
            forall d: nat, i: nat, d': nat, i': nat, x: nat {:trigger NamedOnce(tree', d, i, d', i', x)} :: NamedOnce(tree', d, i, d', i', x)
  {
    var tree' := Created(tree, p, name, kind);
    var a := FirstAbsent(tree);
    hide FirstAbsent, EntryOk, ValidName, Created;
    forall d: nat, i: nat, d': nat, i': nat, x: nat {:trigger NamedOnce(tree', d, i, d', i', x)} ensures NamedOnce(tree', d, i, d', i', x) {
      if Names(tree', d, i, x) && Names(tree', d', i', x) {
        CreatedNames(tree, rank, p, name, kind, d, i, x);
        CreatedNames(tree, rank, p, name, kind, d', i', x);
        assert NamedOnce(tree, d, i, d', i', x);
        if Names(tree, d, i, x) { AbsentIsUnnamed(tree, rank, d, i, x); }
        if Names(tree, d', i', x) { AbsentIsUnnamed(tree, rank, d', i', x); }
      }
    }
  }
}
