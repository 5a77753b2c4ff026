/** What the store buffers promise: forwarding, drain order, one total store order, and one-core consistency. */
module TsoTheorems {
  import opened LittleEndian
  import opened MemoryBus
  import opened Results
  import opened Tso

  // ---------- Forwarding ----------

  lemma {:induction false} ReplayAppend(mem: Memory, a: StoreQueue, b: StoreQueue)
    requires AllInRange(mem, a) && AllInRange(mem, b)
    ensures AllInRange(mem, a + b)
    ensures Replay(mem, a + b) == Replay(Replay(mem, a), b)
    decreases |a|
  {
    if a == [] {
      assert a + b == b;
    } else {
      ReplayAppend(Commit(mem, a[0]), a[1..], b);
      assert (a + b)[1..] == a[1..] + b;
    }
  }

  /** Byte-granular forwarding over any overlap of sizes sees what committing the buffer would write. */
  lemma {:induction false} ReplayIsView(mem: Memory, queue: StoreQueue)
    requires AllInRange(mem, queue)
    ensures Replay(mem, queue) == View(mem, queue)
    decreases |queue|
  {
    if queue == [] {
      assert Replay(mem, queue) == View(mem, queue);
    } else {
      var init, e := queue[..|queue| - 1], queue[|queue| - 1];
      assert queue == init + [e];
      ReplayAppend(mem, init, [e]);
      ReplayIsView(mem, init);
      var before := Replay(mem, init);
      assert Replay(before, [e]) == Commit(before, e) by {
        assert [e][1..] == [];
      }
      StoreBytes(before, e.address, e.size.Bytes(), e.value);
    }
  }

  lemma LoadSeesReplayedBuffer(m: Machine, core: nat, address: nat, size: DataSize)
    requires core < |m.buffers| && AllInRange(m.mem, m.buffers[core])
    requires ContainsRange(m.mem, address, size.Bytes())
    ensures LoadStep(m, core, address, size) == Ok(Load(Replay(m.mem, m.buffers[core]), address, size.Bytes()))
  {
    ReplayIsView(m.mem, m.buffers[core]);
  }

  lemma {:induction false} ForwardedAfterFront(e: StoreBufferEntry, rest: StoreQueue, a: nat)
    ensures Forwarded([e] + rest, a) ==
            if Forwarded(rest, a).Some? then Forwarded(rest, a)
            else if e.ContainsByte(a) then Some(e.ByteFor(a)) else None
    decreases |rest|
  {
    var queue := [e] + rest;
    if rest == [] {
      assert queue[..|queue| - 1] == [];
    } else {
      assert queue[..|queue| - 1] == [e] + rest[..|rest| - 1];
      ForwardedAfterFront(e, rest[..|rest| - 1], a);
    }
  }

  /** Committing a core's own oldest store is invisible to that core, even with out-of-range stores behind it. */
  lemma OwnDrainIsInvisible(m: Machine, core: nat, address: nat, size: DataSize)
    requires core < |m.buffers|
    ensures View(DrainCoreStep(m, core).0.mem, DrainCoreStep(m, core).0.buffers[core]) == View(m.mem, m.buffers[core])
    ensures LoadStep(DrainCoreStep(m, core).0, core, address, size) == LoadStep(m, core, address, size)
  {
    var queue := m.buffers[core];
    var m' := DrainCoreStep(m, core).0;
    if DrainCoreStep(m, core).1 == Ok(true) {
      var e := queue[0];
      StoreBytes(m.mem, e.address, e.size.Bytes(), e.value);
      forall a | 0 <= a < |m.mem|
        ensures View(m'.mem, m'.buffers[core])[a] == View(m.mem, queue)[a]
      {
        assert queue == [e] + queue[1..];
        ForwardedAfterFront(e, queue[1..], a);
      }
      assert View(m'.mem, m'.buffers[core]) == View(m.mem, queue);
    }
  }

  // ---------- Sequence numbers ----------

  /** Buffers hold their own core's stores, oldest first, with sequences that no two pending stores share. */
  ghost predicate Ordered(m: Machine)
  {
    && (forall c, i :: 0 <= c < |m.buffers| && 0 <= i < |m.buffers[c]| ==>
          m.buffers[c][i].core == c && m.buffers[c][i].sequence < m.nextSequence)
    && (forall c, i, j :: 0 <= c < |m.buffers| && 0 <= i < j < |m.buffers[c]| ==>
          m.buffers[c][i].sequence < m.buffers[c][j].sequence)
    && (forall c, d, i, j :: 0 <= c < d < |m.buffers| && 0 <= i < |m.buffers[c]| && 0 <= j < |m.buffers[d]| ==>
          m.buffers[c][i].sequence != m.buffers[d][j].sequence)
  }

  lemma StoreKeepsOrder(m: Machine, core: nat, address: nat, size: DataSize, value: Qword)
    requires Ordered(m) && core < |m.buffers|
    ensures Ordered(StoreStep(m, core, address, size, value))
  {
  }

  lemma DrainCoreKeepsOrder(m: Machine, core: nat)
    requires Ordered(m) && core < |m.buffers|
    ensures Ordered(DrainCoreStep(m, core).0)
  {
  }

  lemma {:induction false} FenceKeepsOrder(m: Machine, core: nat)
    requires Ordered(m) && core < |m.buffers|
    ensures Ordered(FenceStep(m, core).0)
    decreases |m.buffers[core]|
  {
    DrainCoreKeepsOrder(m, core);
    if DrainCoreStep(m, core).1 == Ok(true) {
      FenceKeepsOrder(DrainCoreStep(m, core).0, core);
    }
  }

  lemma {:induction false} DrainAllKeepsOrder(m: Machine)
    requires Ordered(m)
    ensures Ordered(DrainAllStep(m).0)
    decreases Pending(m.buffers)
  {
    var oldest := OldestCore(m.buffers, |m.buffers|);
    if oldest.Some? {
      DrainCoreKeepsOrder(m, oldest.value);
      if DrainCoreStep(m, oldest.value).1 == Ok(true) {
        PendingUpdate(m.buffers, oldest.value, m.buffers[oldest.value][1..]);
        DrainAllKeepsOrder(DrainCoreStep(m, oldest.value).0);
      }
    }
  }

  lemma {:induction false} OldestAmong(buffers: seq<StoreQueue>, n: nat)
    requires n <= |buffers|
    ensures OldestCore(buffers, n).None? ==> forall c :: 0 <= c < n ==> buffers[c] == []
    ensures OldestCore(buffers, n).Some? ==> forall c :: 0 <= c < n && buffers[c] != [] ==>
              buffers[OldestCore(buffers, n).value][0].sequence <= buffers[c][0].sequence
  {
    if n > 0 {
      OldestAmong(buffers, n - 1);
    }
  }

  /** drain_one takes the store that was issued before every other pending store of every core. */
  lemma DrainOneTakesGloballyOldest(m: Machine)
    requires Ordered(m)
    ensures OldestCore(m.buffers, |m.buffers|).None? <==> forall c :: 0 <= c < |m.buffers| ==> m.buffers[c] == []
    ensures OldestCore(m.buffers, |m.buffers|).Some? ==>
              var c := OldestCore(m.buffers, |m.buffers|).value;
              && DrainOneStep(m) == DrainCoreStep(m, c)
              && forall d, i :: 0 <= d < |m.buffers| && 0 <= i < |m.buffers[d]| && (d, i) != (c, 0) ==>
                   m.buffers[c][0].sequence < m.buffers[d][i].sequence
  {
    OldestAmong(m.buffers, |m.buffers|);
    var oldest := OldestCore(m.buffers, |m.buffers|);
    if oldest.Some? {
      var c := oldest.value;
      forall d, i | 0 <= d < |m.buffers| && 0 <= i < |m.buffers[d]| && (d, i) != (c, 0)
        ensures m.buffers[c][0].sequence < m.buffers[d][i].sequence
      {
        assert m.buffers[c][0].sequence <= m.buffers[d][0].sequence;
      }
    }
  }

  // ---------- Draining everything ----------

  /** The stores of one core in a list. */
  function OfCore(queue: StoreQueue, core: nat): StoreQueue
    decreases |queue|
  {
    if queue == [] then []
    else (if queue[0].core == core then [queue[0]] else []) + OfCore(queue[1..], core)
  }

  lemma {:induction false} OfCoreAppend(a: StoreQueue, b: StoreQueue, core: nat)
    ensures OfCore(a + b, core) == OfCore(a, core) + OfCore(b, core)
    decreases |a|
  {
    if a == [] {
      assert a + b == b;
    } else {
      OfCoreAppend(a[1..], b, core);
      assert (a + b)[1..] == a[1..] + b && (a + b)[0] == a[0];
      var first := if a[0].core == core then [a[0]] else [];
      assert OfCore(a, core) == first + OfCore(a[1..], core);
      assert OfCore(a + b, core) == first + OfCore((a + b)[1..], core);
    }
  }

  ghost predicate IssueOrder(order: StoreQueue, buffers: seq<StoreQueue>)
  {
    && (forall i, j :: 0 <= i < j < |order| ==> order[i].sequence < order[j].sequence)
    && (forall i :: 0 <= i < |order| ==> order[i].core < |buffers|)
    && (forall c :: 0 <= c < |buffers| ==> OfCore(order, c) == buffers[c])
  }

  lemma {:induction false} OfCoreContains(order: StoreQueue, i: nat)
    requires i < |order|
    ensures order[i] in OfCore(order, order[i].core)
    decreases |order|
  {
    if i > 0 {
      OfCoreContains(order[1..], i - 1);
    }
  }

  lemma {:induction false} OfCoreEmpty(order: StoreQueue, core: nat)
    ensures OfCore(order, core) == [] <==> forall i :: 0 <= i < |order| ==> order[i].core != core
    ensures forall e :: e in OfCore(order, core) ==> e in order && e.core == core
    decreases |order|
  {
    if order != [] {
      OfCoreEmpty(order[1..], core);
      assert forall i :: 0 < i < |order| ==> order[i] == order[1..][i - 1];
    }
  }

  lemma RestOfIssueOrder(buffers: seq<StoreQueue>, order: StoreQueue)
    requires IssueOrder(order, buffers) && order != []
    ensures var c := order[0].core;
            && buffers[c] != [] && buffers[c][0] == order[0]
            && IssueOrder(order[1..], buffers[c := buffers[c][1..]])
  {
    var c := order[0].core;
    assert buffers[c] == OfCore(order, c) == [order[0]] + OfCore(order[1..], c);
    var rest := buffers[c := buffers[c][1..]];
    forall e | 0 <= e < |rest| ensures OfCore(order[1..], e) == rest[e] {
      assert OfCore(order, e) == buffers[e];
    }
  }

  lemma FrontOfIssueOrder(m: Machine, order: StoreQueue)
    requires IssueOrder(order, m.buffers) && order != []
    ensures OldestCore(m.buffers, |m.buffers|) == Some(order[0].core)
  {
    OldestAmong(m.buffers, |m.buffers|);
    RestOfIssueOrder(m.buffers, order);
    var c := order[0].core;
    var d := OldestCore(m.buffers, |m.buffers|).value;
    assert OfCore(order, d) == m.buffers[d];
    OfCoreEmpty(order, d);
    var i :| 0 <= i < |order| && order[i] == m.buffers[d][0];
    assert m.buffers[d][0].sequence <= m.buffers[c][0].sequence;
    assert i == 0;
  }

  /** Putting the oldest store of all in front of an issue order of the rest gives an issue order. */
  lemma OldestThenRest(m: Machine, core: nat, order: StoreQueue)
    requires Ordered(m) && OldestCore(m.buffers, |m.buffers|) == Some(core)
    requires IssueOrder(order, m.buffers[core := m.buffers[core][1..]])
    ensures IssueOrder([m.buffers[core][0]] + order, m.buffers)
  {
    hide Ordered, OldestCore, OfCore;
    var rest := m.buffers[core := m.buffers[core][1..]];
    var e := m.buffers[core][0];
    var whole := [e] + order;
    OwnFront(m, core);
    forall i: nat | i < |order| ensures e.sequence < order[i].sequence {
      OldestIsBefore(m, core, order, i);
    }
    forall c | 0 <= c < |m.buffers| ensures OfCore(whole, c) == m.buffers[c] {
      OfCoreCons(e, order, c);
      assert OfCore(order, c) == rest[c];
      assert c == core ==> m.buffers[c] == [e] + rest[c];
    }
  }

  lemma OwnFront(m: Machine, core: nat)
    requires Ordered(m) && core < |m.buffers| && m.buffers[core] != []
    ensures m.buffers[core][0].core == core
  {
  }

  lemma OfCoreCons(e: StoreBufferEntry, queue: StoreQueue, core: nat)
    ensures OfCore([e] + queue, core) == if e.core == core then [e] + OfCore(queue, core) else OfCore(queue, core)
  {
    assert ([e] + queue)[1..] == queue;
  }

  lemma OldestIsBefore(m: Machine, core: nat, order: StoreQueue, i: nat)
    requires Ordered(m) && OldestCore(m.buffers, |m.buffers|) == Some(core)
    requires IssueOrder(order, m.buffers[core := m.buffers[core][1..]]) && i < |order|
    ensures m.buffers[core][0].sequence < order[i].sequence
  {
    DrainOneTakesGloballyOldest(m);
    var rest := m.buffers[core := m.buffers[core][1..]];
    var c := order[i].core;
    OfCoreContains(order, i);
    assert OfCore(order, c) == rest[c];
    hide Ordered, OldestCore, OfCore, IssueOrder;
    var k :| 0 <= k < |rest[c]| && rest[c][k] == order[i];
    assert m.buffers[c][if c == core then k + 1 else k] == order[i];
  }

  /** The pending stores of every machine have an issue order. */
  lemma {:induction false} IssueOrderExists(m: Machine) returns (order: StoreQueue)
    requires Ordered(m)
    ensures IssueOrder(order, m.buffers)
    decreases Pending(m.buffers)
  {
    var oldest := OldestCore(m.buffers, |m.buffers|);
    if oldest.None? {
      order := [];
      OldestAmong(m.buffers, |m.buffers|);
    } else {
      var core := oldest.value;
      var rest := m.(buffers := m.buffers[core := m.buffers[core][1..]]);
      PendingUpdate(m.buffers, core, m.buffers[core][1..]);
      RestIsOrdered(m, core);
      order := IssueOrderExists(rest);
      OldestThenRest(m, core, order);
      order := [m.buffers[core][0]] + order;
    }
  }

  lemma RestIsOrdered(m: Machine, core: nat)
    requires Ordered(m) && core < |m.buffers| && m.buffers[core] != []
    ensures Ordered(m.(buffers := m.buffers[core := m.buffers[core][1..]]))
  {
    var rest := m.buffers[core := m.buffers[core][1..]];
    assert forall c, i :: 0 <= c < |rest| && 0 <= i < |rest[c]| ==> rest[c][i] == m.buffers[c][if c == core then i + 1 else i];
  }

  /** How many stores at the front of a list are in range. */
  function InRangePrefix(mem: Memory, queue: StoreQueue): (n: nat)
    ensures n <= |queue| && (forall i :: 0 <= i < n ==> queue[i].InRange(mem)) && (n < |queue| ==> !queue[n].InRange(mem))
  {
    if queue == [] || !queue[0].InRange(mem) then 0 else 1 + InRangePrefix(mem, queue[1..])
  }

  /**
   What drain_all does with pending stores of a given issue order: it commits the stores in front
   of the first one out of range, and leaves the others pending.
   */
  lemma {:induction false} DrainAllFollows(m: Machine, order: StoreQueue)
    requires Ordered(m) && IssueOrder(order, m.buffers)
    ensures var (m', r) := DrainAllStep(m);
            var n := InRangePrefix(m.mem, order);
            && (r == if n == |order| then Ok(()) else Err(OutOfRange))
            && AllInRange(m.mem, order[..n]) && m'.mem == Replay(m.mem, order[..n])
            && |m'.buffers| == |m.buffers| && IssueOrder(order[n..], m'.buffers)
    decreases |order|
  {
    hide Ordered, IssueOrder, OfCore, OldestCore, Commit;
    var n := InRangePrefix(m.mem, order);
    if order == [] {
      NothingPending(m);
    } else {
      FrontOfIssueOrder(m, order);
      RestOfIssueOrder(m.buffers, order);
      var c := order[0].core;
      var (m', r) := DrainCoreStep(m, c);
      assert DrainOneStep(m) == (m', r);
      if order[0].InRange(m.mem) {
        PendingUpdate(m.buffers, c, m.buffers[c][1..]);
        DrainCoreKeepsOrder(m, c);
        DrainAllFollows(m', order[1..]);
        assert DrainAllStep(m) == DrainAllStep(m');
        SamePrefix(m.mem, m'.mem, order[1..]);
        assert order[..n][1..] == order[1..][..n - 1] && order[n..] == order[1..][n - 1..];
      } else {
        assert order[..0] == [] && order[0..] == order;
      }
    }
  }

  lemma {:induction false} SamePrefix(mem: Memory, mem': Memory, queue: StoreQueue)
    requires |mem'| == |mem|
    ensures InRangePrefix(mem', queue) == InRangePrefix(mem, queue)
  {
    if queue != [] { SamePrefix(mem, mem', queue[1..]); }
  }

  /**
   drain_all takes all pending stores of all cores in the order they were issued, whatever their
   distribution over cores. It succeeds exactly when every one is in range, and then memory is
   their replay and nothing is pending; otherwise memory is the replay of those before the first
   one out of range, and that one and all later ones stay pending.
   */
  lemma DrainAllReplaysIssueOrder(m: Machine) returns (order: StoreQueue)
    requires Ordered(m)
    ensures IssueOrder(order, m.buffers)
    ensures var (m', r) := DrainAllStep(m);
            var n := InRangePrefix(m.mem, order);
            && (r.Ok? <==> AllInRange(m.mem, order)) && (r.Ok? <==> n == |order|)
            && AllInRange(m.mem, order[..n]) && m'.mem == Replay(m.mem, order[..n])
            && |m'.buffers| == |m.buffers| && IssueOrder(order[n..], m'.buffers)
            && (r.Ok? ==> m'.buffers == seq(|m.buffers|, _ => []))
  {
    order := IssueOrderExists(m);
    DrainAllFollows(m, order);
    var (m', r) := DrainAllStep(m);
    if r.Ok? {
      assert order[|order|..] == [];
      NothingPending(m');
    }
  }

  lemma NothingPending(m: Machine)
    requires IssueOrder([], m.buffers)
    ensures DrainAllStep(m) == (m, Ok(())) && m.buffers == seq(|m.buffers|, _ => [])
  {
    forall c | 0 <= c < |m.buffers| ensures m.buffers[c] == [] {
      assert OfCore([], c) == m.buffers[c];
    }
  }

  // ---------- Runs ----------

  datatype Op =
    | OpStore(core: nat, address: nat, size: DataSize, value: Qword)
    | OpLoad(core: nat, address: nat, size: DataSize)
    | OpDrainOne
    | OpDrainCore(core: nat)
    | OpDrainAll
    | OpFence(core: nat)
    | OpAtomic(core: nat, address: nat, size: DataSize, update: AtomicUpdate)

  predicate KnownCore(op: Op, count: nat)
  {
    !op.OpDrainOne? && !op.OpDrainAll? ==> op.core < count
  }

  /** One call, and the value it reads if it reads one; a call for an unknown core throws and changes nothing. */
  function Step(m: Machine, op: Op): (r: (Machine, Option<Result<nat>>))
  {
    if !KnownCore(op, |m.buffers|) then (m, Some(Err(OutOfRange)))
    else match op
      case OpStore(core, address, size, value) => (StoreStep(m, core, address, size, value), None)
      case OpLoad(core, address, size) => (m, Some(LoadStep(m, core, address, size)))
      case OpDrainOne => (DrainOneStep(m).0, None)
      case OpDrainCore(core) => (DrainCoreStep(m, core).0, None)
      case OpDrainAll => (DrainAllStep(m).0, None)
      case OpFence(core) => (FenceStep(m, core).0, None)
      case OpAtomic(core, address, size, update) =>
        var (m', seen) := AtomicStep(m, core, address, size, update); (m', Some(seen))
  }

  function Run(m: Machine, ops: seq<Op>): (Machine, seq<Option<Result<nat>>>)
    decreases |ops|
  {
    if ops == [] then (m, [])
    else
      var (m', seen) := Step(m, ops[0]);
      var (m'', rest) := Run(m', ops[1..]);
      (m'', [seen] + rest)
  }

  lemma StepKeepsOrder(m: Machine, op: Op)
    requires Ordered(m)
    ensures Ordered(Step(m, op).0)
  {
      if KnownCore(op, |m.buffers|) {
        match op
        case OpStore(core, address, size, value) => StoreKeepsOrder(m, core, address, size, value);
        case OpLoad(_, _, _) =>
        case OpDrainOne =>
          var oldest := OldestCore(m.buffers, |m.buffers|);
          if oldest.Some? { DrainCoreKeepsOrder(m, oldest.value); }
        case OpDrainCore(core) => DrainCoreKeepsOrder(m, core);
        case OpDrainAll => DrainAllKeepsOrder(m);
        case OpFence(core) => FenceKeepsOrder(m, core);
        case OpAtomic(core, _, _, _) => FenceKeepsOrder(m, core);
      }
  }

  lemma {:induction false} RunKeepsOrder(m: Machine, ops: seq<Op>)
    requires Ordered(m)
    ensures Ordered(Run(m, ops).0)
    decreases |ops|
  {
    hide Ordered;
    if ops != [] {
      StepKeepsOrder(m, ops[0]);
      RunKeepsOrder(Step(m, ops[0]).0, ops[1..]);
    }
  }

  // ---------- One total store order ----------

  datatype Write = Write(address: nat, size: DataSize, value: Qword)

  function Writes(queue: StoreQueue): (w: seq<Write>)
    ensures |w| == |queue|
  {
    seq(|queue|, i requires 0 <= i < |queue| => Write(queue[i].address, queue[i].size, queue[i].value))
  }

  /** The writes a call of this core issues. */
  function Issues(m: Machine, op: Op, core: nat): seq<Write>
  {
    if !KnownCore(op, |m.buffers|) then []
    else match op
      case OpStore(c, address, size, value) => if c == core then [Write(address, size, value)] else []
      case OpAtomic(c, address, size, update) =>
        var (m', fenced) := FenceStep(m, c);
        if c != core || fenced.Err? || !ContainsRange(m'.mem, address, size.Bytes()) then []
        else
          var observed := Load(m'.mem, address, size.Bytes());
          (match update
           case ExchangeIf(expected, desired) => if observed == expected then [Write(address, size, desired)] else []
           case AddTo(addend) => [Write(address, size, (observed + addend) % 0x1_0000_0000_0000_0000)])
      case _ => []
  }

  /** All writes a core issues over a run, in program order. */
  function IssuedBy(m: Machine, ops: seq<Op>, core: nat): seq<Write>
    decreases |ops|
  {
    if ops == [] then [] else Issues(m, ops[0], core) + IssuedBy(Step(m, ops[0]).0, ops[1..], core)
  }

  ghost predicate OwnStores(m: Machine)
  {
    forall c, i :: 0 <= c < |m.buffers| && 0 <= i < |m.buffers[c]| ==> m.buffers[c][i].core == c
  }

  /** What every core issues in a call, and over a run. */
  function AllIssues(m: Machine, op: Op): seq<seq<Write>>
  {
    seq(|m.buffers|, c requires 0 <= c < |m.buffers| => Issues(m, op, c))
  }

  function AllIssuedBy(m: Machine, ops: seq<Op>): seq<seq<Write>>
  {
    seq(|m.buffers|, c requires 0 <= c < |m.buffers| => IssuedBy(m, ops, c))
  }

  function NoWrites(m: Machine): seq<seq<Write>>
  {
    seq(|m.buffers|, _ => [])
  }

  function Zip(a: seq<seq<Write>>, b: seq<seq<Write>>): seq<seq<Write>>
    requires |a| == |b|
  {
    seq(|a|, c requires 0 <= c < |a| => a[c] + b[c])
  }

  /** Every store in the list is of one of the machine's cores. */
  ghost predicate FromCores(queue: StoreQueue, coreCount: nat)
  {
    forall i :: 0 <= i < |queue| ==> queue[i].core < coreCount
  }

  /** From m to m', memory advances by exactly these commits; each core's commits and buffer continue its writes. */
  ghost predicate Advances(m: Machine, m': Machine, commits: StoreQueue, issued: seq<seq<Write>>)
  {
    && |m'.mem| == |m.mem| && |issued| == |m'.buffers| == |m.buffers|
    && AllInRange(m.mem, commits)
    && m'.mem == Replay(m.mem, commits)
    && OwnStores(m') && FromCores(commits, |m.buffers|)
    && forall c :: 0 <= c < |m.buffers| ==>
         Writes(OfCore(commits, c) + m'.buffers[c]) == Writes(m.buffers[c]) + issued[c]
  }

  lemma AdvancesNot(m: Machine)
    requires OwnStores(m)
    ensures Advances(m, m, [], NoWrites(m))
  {
    forall c | 0 <= c < |m.buffers|
      ensures Writes(OfCore([], c) + m.buffers[c]) == Writes(m.buffers[c]) + NoWrites(m)[c]
    {
      assert OfCore([], c) + m.buffers[c] == m.buffers[c];
    }
  }

  lemma AdvancesTwice(m: Machine, m1: Machine, m2: Machine, a: StoreQueue, b: StoreQueue,
                      first: seq<seq<Write>>, second: seq<seq<Write>>)
    requires Advances(m, m1, a, first) && Advances(m1, m2, b, second)
    ensures Advances(m, m2, a + b, Zip(first, second))
  {
    ReplayAppend(m.mem, a, b);
    forall c | 0 <= c < |m.buffers|
      ensures Writes(OfCore(a + b, c) + m2.buffers[c]) == Writes(m.buffers[c]) + Zip(first, second)[c]
    {
      OfCoreAppend(a, b, c);
      WritesTwice(OfCore(a, c), OfCore(b, c), m1.buffers[c], m2.buffers[c], second[c]);
    }
  }

  lemma WritesTwice(a: StoreQueue, b: StoreQueue, middle: StoreQueue, end: StoreQueue, second: seq<Write>)
    requires Writes(b + end) == Writes(middle) + second
    ensures Writes((a + b) + end) == Writes(a + middle) + second
  {
    assert (a + b) + end == a + (b + end);
    assert Writes(a + (b + end)) == Writes(a) + Writes(b + end);
    assert Writes(a + middle) == Writes(a) + Writes(middle);
  }

  lemma DrainCoreAdvances(m: Machine, core: nat) returns (commits: StoreQueue)
    requires OwnStores(m) && core < |m.buffers|
    ensures Advances(m, DrainCoreStep(m, core).0, commits, NoWrites(m))
  {
    AdvancesNot(m);
    var (m', r) := DrainCoreStep(m, core);
    commits := if r == Ok(true) then [m.buffers[core][0]] else [];
    if r == Ok(true) {
      assert commits[1..] == [];
      forall c | 0 <= c < |m.buffers|
        ensures OfCore(commits, c) + m'.buffers[c] == m.buffers[c]
      {
        assert OfCore(commits, c) == if c == core then commits else [];
      }
    }
  }

  lemma {:induction false} FenceAdvances(m: Machine, core: nat) returns (commits: StoreQueue)
    requires OwnStores(m) && core < |m.buffers|
    ensures Advances(m, FenceStep(m, core).0, commits, NoWrites(m))
    decreases |m.buffers[core]|
  {
    commits := DrainCoreAdvances(m, core);
    if DrainCoreStep(m, core).1 == Ok(true) {
      var m' := DrainCoreStep(m, core).0;
      var more := FenceAdvances(m', core);
      AdvancesTwice(m, m', FenceStep(m, core).0, commits, more, NoWrites(m), NoWrites(m'));
      assert Zip(NoWrites(m), NoWrites(m')) == NoWrites(m);
      commits := commits + more;
    }
  }

  lemma {:induction false} DrainAllAdvances(m: Machine) returns (commits: StoreQueue)
    requires OwnStores(m)
    ensures Advances(m, DrainAllStep(m).0, commits, NoWrites(m))
    decreases Pending(m.buffers)
  {
    AdvancesNot(m);
    commits := [];
    var oldest := OldestCore(m.buffers, |m.buffers|);
    if oldest.Some? {
      var core := oldest.value;
      commits := DrainCoreAdvances(m, core);
      if DrainCoreStep(m, core).1 == Ok(true) {
        PendingUpdate(m.buffers, core, m.buffers[core][1..]);
        var m' := DrainCoreStep(m, core).0;
        var more := DrainAllAdvances(m');
        AdvancesTwice(m, m', DrainAllStep(m).0, commits, more, NoWrites(m), NoWrites(m'));
        assert Zip(NoWrites(m), NoWrites(m')) == NoWrites(m);
        commits := commits + more;
      }
    }
  }

  lemma {:induction false} FencedQueueIsEmpty(m: Machine, core: nat)
    requires core < |m.buffers|
    ensures FenceStep(m, core).1.Ok? ==> FenceStep(m, core).0.buffers == m.buffers[core := []]
    decreases |m.buffers[core]|
  {
    if DrainCoreStep(m, core).1 == Ok(true) {
      FencedQueueIsEmpty(DrainCoreStep(m, core).0, core);
    } else {
      assert m.buffers[core] == [] ==> m.buffers[core := []] == m.buffers;
    }
  }

  lemma DirectCommitAdvances(m: Machine, e: StoreBufferEntry)
    requires OwnStores(m) && e.InRange(m.mem) && e.core < |m.buffers| && m.buffers[e.core] == []
    ensures Advances(m, m.(mem := Commit(m.mem, e)), [e],
                     NoWrites(m)[e.core := [Write(e.address, e.size, e.value)]])
  {
    assert [e][1..] == [];
    assert Replay(m.mem, [e]) == Commit(m.mem, e);
    var issued := NoWrites(m)[e.core := [Write(e.address, e.size, e.value)]];
    forall c | 0 <= c < |m.buffers|
      ensures Writes(OfCore([e], c) + m.buffers[c]) == Writes(m.buffers[c]) + issued[c]
    {
      assert OfCore([e], c) == if c == e.core then [e] else [];
      assert OfCore([e], c) + m.buffers[c] == if c == e.core then [e] else m.buffers[c];
    }
  }

  lemma AtomicAdvances(m: Machine, op: Op) returns (commits: StoreQueue)
    requires OwnStores(m) && op.OpAtomic? && op.core < |m.buffers|
    ensures Advances(m, Step(m, op).0, commits, AllIssues(m, op))
  {
    var core := op.core;
    commits := FenceAdvances(m, core);
    var m1 := FenceStep(m, core).0;
    var issued := Issues(m, op, core);
    if issued == [] {
      assert AllIssues(m, op) == NoWrites(m);
    } else {
      var e := StoreBufferEntry(core, op.address, op.size, issued[0].value, 0);
      FencedQueueIsEmpty(m, core);
      DirectCommitAdvances(m1, e);
      AdvancesTwice(m, m1, Step(m, op).0, commits, [e], NoWrites(m), NoWrites(m1)[core := issued]);
      forall c | 0 <= c < |m.buffers|
        ensures Zip(NoWrites(m), NoWrites(m1)[core := issued])[c] == AllIssues(m, op)[c]
      {
        assert AllIssues(m, op)[c] == Issues(m, op, c);
      }
      assert Zip(NoWrites(m), NoWrites(m1)[core := issued]) == AllIssues(m, op);
      commits := commits + [e];
    }
  }

  lemma StepAdvances(m: Machine, op: Op) returns (commits: StoreQueue)
    requires OwnStores(m)
    ensures Advances(m, Step(m, op).0, commits, AllIssues(m, op))
  {
    commits := [];
    AdvancesNot(m);
    if KnownCore(op, |m.buffers|) && op.OpAtomic? {
      commits := AtomicAdvances(m, op);
    } else if KnownCore(op, |m.buffers|) && op.OpStore? {
      var m' := Step(m, op).0;
      forall c | 0 <= c < |m.buffers|
        ensures Writes(OfCore(commits, c) + m'.buffers[c]) == Writes(m.buffers[c]) + AllIssues(m, op)[c]
      {
        assert OfCore(commits, c) + m'.buffers[c] == m'.buffers[c];
      }
    } else {
      assert AllIssues(m, op) == NoWrites(m);
      if KnownCore(op, |m.buffers|) {
        match op
        case OpLoad(_, _, _) =>
        case OpDrainOne =>
          var oldest := OldestCore(m.buffers, |m.buffers|);
          if oldest.Some? { commits := DrainCoreAdvances(m, oldest.value); }
        case OpDrainCore(core) => commits := DrainCoreAdvances(m, core);
        case OpDrainAll => commits := DrainAllAdvances(m);
        case OpFence(core) => commits := FenceAdvances(m, core);
      }
    }
  }

  lemma {:induction false} RunAdvances(m: Machine, ops: seq<Op>) returns (commits: StoreQueue)
    requires OwnStores(m)
    ensures Advances(m, Run(m, ops).0, commits, AllIssuedBy(m, ops))
    decreases |ops|
  {
    if ops == [] {
      commits := [];
      AdvancesNot(m);
      assert AllIssuedBy(m, ops) == NoWrites(m);
    } else {
      commits := StepAdvances(m, ops[0]);
      var m' := Step(m, ops[0]).0;
      var more := RunAdvances(m', ops[1..]);
      AdvancesTwice(m, m', Run(m, ops).0, commits, more, AllIssues(m, ops[0]), AllIssuedBy(m', ops[1..]));
      assert Zip(AllIssues(m, ops[0]), AllIssuedBy(m', ops[1..])) == AllIssuedBy(m, ops);
      commits := commits + more;
    }
  }

  /**
   Total store order: after any run from empty buffers, memory is the replay of one list of
   commits, all of them of the machine's cores, and for each core its commits followed by its
   buffer are exactly the writes it issued, in program order. Fences, drains, locked operations and failing calls included.
   */
  lemma TotalStoreOrder(mem: Memory, coreCount: nat, ops: seq<Op>) returns (commits: StoreQueue)
    ensures var start := Machine(mem, seq(coreCount, _ => []), 0);
            var end := Run(start, ops).0;
            && Ordered(end) && |end.buffers| == coreCount
            && AllInRange(mem, commits) && end.mem == Replay(mem, commits) && FromCores(commits, coreCount)
            && forall c :: 0 <= c < coreCount ==>
                 Writes(OfCore(commits, c)) + Writes(end.buffers[c]) == IssuedBy(start, ops, c)
  {
    var start := Machine(mem, seq(coreCount, _ => []), 0);
    RunKeepsOrder(start, ops);
    commits := RunAdvances(start, ops);
    var end := Run(start, ops).0;
    forall c | 0 <= c < coreCount
      ensures Writes(OfCore(commits, c)) + Writes(end.buffers[c]) == IssuedBy(start, ops, c)
    {
      assert Writes(OfCore(commits, c)) + Writes(end.buffers[c]) == Writes(OfCore(commits, c) + end.buffers[c]);
      assert Writes(start.buffers[c]) == [];
    }
  }

  // ---------- Fences and locked operations ----------

  /** A fence succeeds exactly when the core's stores are all in range; memory is then their replay and the buffer is empty, and no other buffer changes. */
  lemma {:induction false} FenceReplays(m: Machine, core: nat)
    requires core < |m.buffers|
    ensures var (m', r) := FenceStep(m, core);
            && (r.Ok? <==> AllInRange(m.mem, m.buffers[core]))
            && (r.Err? ==> r == Err(OutOfRange))
            && (r.Ok? ==> m' == Machine(Replay(m.mem, m.buffers[core]), m.buffers[core := []], m.nextSequence))
    decreases |m.buffers[core]|
  {
    var queue := m.buffers[core];
    if queue == [] {
      assert m.buffers[core := []] == m.buffers;
    } else if queue[0].InRange(m.mem) {
      var m1 := DrainCoreStep(m, core).0;
      FenceReplays(m1, core);
      assert m1.buffers[core := []] == m.buffers[core := []];
      assert AllInRange(m.mem, queue) <==> AllInRange(m1.mem, queue[1..]) by {
        InRangeRest(m.mem, m1.mem, queue);
      }
    }
  }

  lemma InRangeRest(mem: Memory, mem1: Memory, queue: StoreQueue)
    requires queue != [] && queue[0].InRange(mem) && |mem1| == |mem|
    ensures AllInRange(mem, queue) <==> AllInRange(mem1, queue[1..])
  {
    if AllInRange(mem1, queue[1..]) {
      forall i | 0 <= i < |queue| ensures queue[i].InRange(mem) {
        if i > 0 { assert queue[1..][i - 1].InRange(mem1); }
      }
    }
  }

  /** Bytes of an operand. */
  function Width(size: DataSize): nat
  {
    match size
    case BYTE => 1
    case WORD => 2
    case DWORD => 4
    case QWORD => 8
  }

  /**
   compare_exchange, in terms of memory alone: all earlier stores of the core reach memory first; then memory changes exactly if it
   holds the expected value, and to the desired one; the value observed is reported either way.
   */
  lemma CompareExchangeMeans(m: Machine, core: nat, address: nat, size: DataSize, expected: Qword, desired: Qword)
    requires core < |m.buffers|
    ensures var (m', r) := AtomicStep(m, core, address, size, ExchangeIf(expected, desired));
            var n := Width(size);
            && (!AllInRange(m.mem, m.buffers[core]) ==> r == Err(OutOfRange) && m' == FenceStep(m, core).0)
            && (AllInRange(m.mem, m.buffers[core]) ==>
                  var mem1 := Replay(m.mem, m.buffers[core]);
                  && m'.buffers == m.buffers[core := []] && m'.nextSequence == m.nextSequence
                  && (!ContainsRange(mem1, address, n) ==> r == Err(OutOfRange) && m'.mem == mem1)
                  && (ContainsRange(mem1, address, n) ==>
                        && r == Ok(Load(mem1, address, n))
                        && m'.mem == if Load(mem1, address, n) == expected then Store(mem1, address, n, desired) else mem1))
  {
    FenceReplays(m, core);
    assert size.Bytes() == Width(size);
    hide FenceStep, Load, Store, Replay;
  }

  /** fetch_add in terms of memory alone: the sum wraps at 64 bits and is stored in the operand's width, and the old value is reported. */
  lemma FetchAddMeans(m: Machine, core: nat, address: nat, size: DataSize, addend: Qword)
    requires core < |m.buffers|
    ensures var (m', r) := AtomicStep(m, core, address, size, AddTo(addend));
            var n := Width(size);
            && (!AllInRange(m.mem, m.buffers[core]) ==> r == Err(OutOfRange) && m' == FenceStep(m, core).0)
            && (AllInRange(m.mem, m.buffers[core]) ==>
                  var mem1 := Replay(m.mem, m.buffers[core]);
                  && m'.buffers == m.buffers[core := []] && m'.nextSequence == m.nextSequence
                  && (!ContainsRange(mem1, address, n) ==> r == Err(OutOfRange) && m'.mem == mem1)
                  && (ContainsRange(mem1, address, n) ==>
                        && r == Ok(Load(mem1, address, n))
                        && m'.mem == Store(mem1, address, n, (Load(mem1, address, n) + addend) % 0x1_0000_0000_0000_0000)))
  {
    FenceReplays(m, core);
    assert size.Bytes() == Width(size);
    hide FenceStep, Load, Store, Replay;
  }

  // ---------- One core ----------

  /** Memory without any store buffer. */
  function DirectStep(mem: Memory, op: Op): (r: (Memory, Option<Result<nat>>))
    requires op.OpStore? ==> ContainsRange(mem, op.address, op.size.Bytes())
    ensures |r.0| == |mem|
  {
    match op
    case OpStore(_, address, size, value) => (Store(mem, address, size.Bytes(), value), None)
    case OpLoad(_, address, size) =>
      (mem, Some(if ContainsRange(mem, address, size.Bytes()) then Ok(Load(mem, address, size.Bytes())) else Err(OutOfRange)))
    case OpAtomic(_, address, size, update) =>
      if !ContainsRange(mem, address, size.Bytes()) then (mem, Some(Err(OutOfRange)))
      else
        var observed := Load(mem, address, size.Bytes());
        (match update
         case ExchangeIf(expected, desired) => if observed == expected then Store(mem, address, size.Bytes(), desired) else mem
         case AddTo(addend) => Store(mem, address, size.Bytes(), (observed + addend) % 0x1_0000_0000_0000_0000),
         Some(Ok(observed)))
    case _ => (mem, None)
  }

  ghost predicate DirectlyRunnable(size: nat, ops: seq<Op>)
  {
    forall i :: 0 <= i < |ops| && ops[i].OpStore? ==>
      ops[i].address <= size && ops[i].size.Bytes() <= size - ops[i].address
  }

  function DirectRun(mem: Memory, ops: seq<Op>): (Memory, seq<Option<Result<nat>>>)
    requires DirectlyRunnable(|mem|, ops)
    decreases |ops|
  {
    if ops == [] then (mem, [])
    else
      var (mem', seen) := DirectStep(mem, ops[0]);
      var (mem'', rest) := DirectRun(mem', ops[1..]);
      (mem'', [seen] + rest)
  }

  /** Only this core has stores, and they are all in range. */
  ghost predicate Alone(m: Machine, core: nat)
  {
    && core < |m.buffers| && AllInRange(m.mem, m.buffers[core])
    && forall c :: 0 <= c < |m.buffers| && c != core ==> m.buffers[c] == []
  }

  function Logical(m: Machine, core: nat): Memory
    requires core < |m.buffers| && AllInRange(m.mem, m.buffers[core])
  {
    Replay(m.mem, m.buffers[core])
  }

  lemma {:induction false} FenceAlone(m: Machine, core: nat)
    requires Alone(m, core)
    ensures FenceStep(m, core) == (m.(mem := Logical(m, core), buffers := m.buffers[core := []]), Ok(()))
    decreases |m.buffers[core]|
  {
    if m.buffers[core] != [] {
      var m' := DrainCoreStep(m, core).0;
      FenceAlone(m', core);
      assert m'.buffers[core := []] == m.buffers[core := []];
    } else {
      assert m.buffers[core := []] == m.buffers;
    }
  }

  lemma {:induction false} DrainAllAlone(m: Machine, core: nat)
    requires Alone(m, core)
    ensures DrainAllStep(m).0 == m.(mem := Logical(m, core), buffers := m.buffers[core := []])
    decreases |m.buffers[core]|
  {
    OldestAmong(m.buffers, |m.buffers|);
    if m.buffers[core] != [] {
      assert OldestCore(m.buffers, |m.buffers|) == Some(core);
      PendingUpdate(m.buffers, core, m.buffers[core][1..]);
      DrainAllAlone(DrainCoreStep(m, core).0, core);
    } else {
      assert OldestCore(m.buffers, |m.buffers|).None?;
      assert m.buffers[core := []] == m.buffers;
    }
  }

  lemma StepAlone(m: Machine, core: nat, op: Op)
    requires Alone(m, core)
    requires KnownCore(op, |m.buffers|) && (!op.OpDrainOne? && !op.OpDrainAll? ==> op.core == core)
    requires op.OpStore? ==> ContainsRange(m.mem, op.address, op.size.Bytes())
    ensures var m' := Step(m, op).0;
            && Alone(m', core) && |m'.mem| == |m.mem|
            && (Logical(m', core), Step(m, op).1) == DirectStep(Logical(m, core), op)
  {
    match op
    case OpStore(_, address, size, value) =>
      var e := StoreBufferEntry(core, address, size, value, m.nextSequence);
      ReplayAppend(m.mem, m.buffers[core], [e]);
      assert [e][1..] == [];
    case OpLoad(_, address, size) =>
      ReplayIsView(m.mem, m.buffers[core]);
    case OpDrainOne =>
      OldestAmong(m.buffers, |m.buffers|);
    case OpDrainCore(_) =>
    case OpDrainAll =>
      DrainAllAlone(m, core);
    case OpFence(_) =>
      FenceAlone(m, core);
    case OpAtomic(_, address, size, update) =>
      FenceAlone(m, core);
  }

  /**
   A run that only one core takes part in is sequentially consistent: under any interleaving
   of drains, fences and locked operations it reads the same values, and its logical memory
   ends the same, as without store buffers.
   */
  lemma {:induction false} OneCoreIsSequentiallyConsistent(m: Machine, core: nat, ops: seq<Op>)
    requires Alone(m, core) && DirectlyRunnable(|m.mem|, ops)
    requires forall i :: 0 <= i < |ops| ==> !ops[i].OpDrainOne? && !ops[i].OpDrainAll? ==> ops[i].core == core
    ensures Alone(Run(m, ops).0, core)
    ensures (Logical(Run(m, ops).0, core), Run(m, ops).1) == DirectRun(Logical(m, core), ops)
    decreases |ops|
  {
    if ops != [] {
      assert ops[0].OpStore? ==> ContainsRange(m.mem, ops[0].address, ops[0].size.Bytes());
      StepAlone(m, core, ops[0]);
      OneCoreIsSequentiallyConsistent(Step(m, ops[0]).0, core, ops[1..]);
    }
  }
}
