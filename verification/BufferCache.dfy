/** The write-back block cache as a transition system over its entries, block storage, index and device. */
module BufferCacheSpec {
  import opened Results
  import opened Blocks
  import opened Lru

  datatype Entry = Entry(address: nat, tick: nat, valid: bool, dirty: bool)

  datatype State = State(entries: seq<Entry>, data: seq<Block>, index: map<nat, nat>, tick: nat, validCount: nat, device: seq<Block>)

  /** The index is a bijection between the cached addresses and the valid entries. */
  ghost predicate Indexed(s: State)
  {
    && |s.data| == |s.entries| > 0
    && (forall a :: a in s.index ==>
          s.index[a] < |s.entries| && s.entries[s.index[a]].valid && s.entries[s.index[a]].address == a && a < |s.device|)
    && (forall i :: 0 <= i < |s.entries| && s.entries[i].valid ==>
          s.entries[i].address in s.index && s.index[s.entries[i].address] == i)
  }

  /** The blocks as a reader sees them: cached where cached, else the device's. */
  ghost function Logical(s: State): (blocks: seq<Block>)
    requires Indexed(s)
    ensures |blocks| == |s.device|
    ensures forall a :: 0 <= a < |s.device| ==> blocks[a] == if a in s.index then s.data[s.index[a]] else s.device[a]
  {
    seq(|s.device|, a requires 0 <= a < |s.device| => if a in s.index then s.data[s.index[a]] else s.device[a])
  }

  // ---------- Operations ----------

  function Touch(s: State, i: nat): State
    requires i < |s.entries|
  {
    s.(tick := s.tick + 1, entries := s.entries[i := s.entries[i].(tick := s.tick + 1)])
  }

  function FlushEntry(s: State, i: nat): (s': State)
    requires |s.data| == |s.entries| && i < |s.entries| && (s.entries[i].valid ==> s.entries[i].address < |s.device|)
  {
    var e := s.entries[i];
    if !e.valid || !e.dirty then s
    else s.(device := s.device[e.address := s.data[i]], entries := s.entries[i := e.(dirty := false)])
  }

  function FirstFree(entries: seq<Entry>): (i: nat)
    ensures i <= |entries| && (i < |entries| ==> !entries[i].valid)
    ensures forall j :: 0 <= j < i ==> entries[j].valid
  {
    if entries == [] || !entries[0].valid then 0 else 1 + FirstFree(entries[1..])
  }

  function LeastTick(entries: seq<Entry>, n: nat): (i: nat)
    requires 0 < n <= |entries|
    ensures i < n && forall j :: 0 <= j < n ==> entries[i].tick <= entries[j].tick
    ensures forall j :: 0 <= j < i ==> entries[i].tick < entries[j].tick
  {
    if n == 1 then 0
    else var i := LeastTick(entries, n - 1); if entries[n - 1].tick < entries[i].tick then n - 1 else i
  }

  function VictimOf(entries: seq<Entry>): (v: nat)
    requires entries != []
    ensures v < |entries|
  {
    var i := FirstFree(entries);
    if i < |entries| then i else LeastTick(entries, |entries|)
  }

  function Evict(s: State, i: nat): State
    requires |s.data| == |s.entries| && i < |s.entries| && (s.entries[i].valid ==> s.entries[i].address < |s.device|)
  {
    var e := s.entries[i];
    if !e.valid then s
    else var s1 := if e.dirty then FlushEntry(s, i) else s; s1.(index := s1.index - {e.address})
  }

  function Allocate(s: State, a: nat): State
    requires Indexed(s)
  {
    var v := VictimOf(s.entries);
    var s1 := Evict(s, v);
    s1.(validCount := s1.validCount + (if s1.entries[v].valid then 0 else 1),
        entries := s1.entries[v := s1.entries[v].(address := a, valid := true, dirty := false)],
        index := s1.index[a := v])
  }

  /** The entry that an access to a block ends up in. */
  function EntryFor(s: State, a: nat): nat
    requires Indexed(s)
  {
    if a in s.index then s.index[a] else VictimOf(s.entries)
  }

  function ForRead(s: State, a: nat): State
    requires Indexed(s) && a < |s.device|
  {
    var i := EntryFor(s, a);
    if a in s.index then Touch(s, i)
    else var s1 := Allocate(s, a); Touch(s1.(data := s1.data[i := s1.device[a]]), i)
  }

  function ForWrite(s: State, a: nat): State
    requires Indexed(s) && a < |s.device|
  {
    var i := EntryFor(s, a);
    Touch(if a in s.index then s else Allocate(s, a), i)
  }

  function Write(s: State, a: nat, b: Block): State
    requires Indexed(s) && a < |s.device|
  {
    var i := EntryFor(s, a);
    var s1 := ForWrite(s, a);
    s1.(data := s1.data[i := b], entries := s1.entries[i := s1.entries[i].(dirty := true)])
  }

  function FlushBlock(s: State, a: nat): State
    requires Indexed(s)
  {
    if a in s.index then FlushEntry(s, s.index[a]) else s
  }

  /** Flushes the first n entries. */
  ghost function FlushFirst(s: State, n: nat): (s': State)
    requires Indexed(s) && n <= |s.entries|
    ensures Indexed(s') && |s'.entries| == |s.entries|
  {
    if n == 0 then s
    else FlushKeepsIndex(FlushFirst(s, n - 1), n - 1); FlushEntry(FlushFirst(s, n - 1), n - 1)
  }

  ghost function FlushAll(s: State): (s': State)
    requires Indexed(s)
    ensures Indexed(s') && |s'.entries| == |s.entries|
  {
    FlushFirst(s, |s.entries|)
  }

  ghost function Clear(s: State): State
    requires Indexed(s)
  {
    FlushAll(s).(entries := seq(|s.entries|, _ => Entry(0, 0, false, false)), index := map[], tick := 0, validCount := 0)
  }

  // ---------- The invariant ----------

  function SlotOf(e: Entry): Slot
  {
    Slot(e.valid, e.address, e.tick)
  }

  ghost function Slots(entries: seq<Entry>): (slots: seq<Slot>)
    ensures |slots| == |entries| && forall i :: 0 <= i < |entries| ==> slots[i] == SlotOf(entries[i])
  {
    seq(|entries|, i requires 0 <= i < |entries| => SlotOf(entries[i]))
  }

  ghost predicate CleanMatches(s: State)
    requires Indexed(s)
  {
    forall i :: 0 <= i < |s.entries| && s.entries[i].valid && !s.entries[i].dirty ==> s.data[i] == s.device[s.entries[i].address]
  }

  /** What every operation keeps; trace is the blocks accessed since the last clear. */
  ghost predicate Inv(s: State, trace: seq<nat>, order: seq<nat>)
  {
    && Indexed(s) && CleanMatches(s)
    && Ranked(Slots(s.entries), s.tick, Recency(trace), order)
    && s.validCount == |order|
  }

  // ---------- Flushing ----------

  lemma FlushKeepsIndex(s: State, i: nat)
    requires Indexed(s) && i < |s.entries|
    ensures Indexed(FlushEntry(s, i))
  {
  }

  /** Flushing an entry changes nothing that a reader sees, and leaves the entry clean and equal to the device. */
  lemma FlushKeeps(s: State, trace: seq<nat>, order: seq<nat>, i: nat)
    requires Inv(s, trace, order) && i < |s.entries|
    ensures Inv(FlushEntry(s, i), trace, order)
    ensures Logical(FlushEntry(s, i)) == Logical(s)
    ensures var s' := FlushEntry(s, i);
            && s'.entries[i] == s.entries[i].(dirty := s.entries[i].dirty && !s.entries[i].valid)
            && forall j :: 0 <= j < |s.entries| && j != i ==> s'.entries[j] == s.entries[j]
  {
    var s' := FlushEntry(s, i);
    FlushKeepsIndex(s, i);
    assert Slots(s'.entries) == Slots(s.entries);
    hide Ranked;
    forall a | 0 <= a < |s.device| ensures Logical(s')[a] == Logical(s)[a] {
    }
  }

  lemma {:induction false} FlushFirstKeeps(s: State, trace: seq<nat>, order: seq<nat>, n: nat)
    requires Inv(s, trace, order) && n <= |s.entries|
    ensures Inv(FlushFirst(s, n), trace, order) && Logical(FlushFirst(s, n)) == Logical(s)
    ensures FlushFirst(s, n).index == s.index
    ensures forall i :: 0 <= i < n ==> FlushFirst(s, n).entries[i].valid ==> !FlushFirst(s, n).entries[i].dirty
  {
    hide Indexed, CleanMatches, Ranked;
    if n > 0 {
      FlushFirstKeeps(s, trace, order, n - 1);
      FlushKeeps(FlushFirst(s, n - 1), trace, order, n - 1);
    }
  }

  /** After flush_all the device holds the logical contents. */
  lemma FlushAllReachesDevice(s: State, trace: seq<nat>, order: seq<nat>)
    requires Inv(s, trace, order)
    ensures Inv(FlushAll(s), trace, order)
    ensures Logical(FlushAll(s)) == Logical(s) == FlushAll(s).device
  {
    FlushFirstKeeps(s, trace, order, |s.entries|);
    var s' := FlushAll(s);
    hide Ranked, FlushFirst;
    forall a | 0 <= a < |s'.device| ensures Logical(s')[a] == s'.device[a] {
      if a in s'.index {
        assert s'.entries[s'.index[a]].valid;
      }
    }
  }

  lemma ClearKeeps(s: State, trace: seq<nat>, order: seq<nat>)
    requires Inv(s, trace, order)
    ensures Inv(Clear(s), [], [])
    ensures Logical(Clear(s)) == Logical(s) == Clear(s).device
  {
    FlushAllReachesDevice(s, trace, order);
    var s' := Clear(s);
    hide FlushAll;
    assert Logical(s') == s'.device;
  }

  // ---------- Accesses ----------

  lemma VictimIsVictim(entries: seq<Entry>)
    requires entries != []
    ensures IsVictim(Slots(entries), VictimOf(entries))
  {
    var slots, v := Slots(entries), VictimOf(entries);
    if slots[v].valid {
      forall i | 0 <= i < |slots| ensures slots[i].valid && slots[v].tick <= slots[i].tick {
        assert slots[i] == SlotOf(entries[i]);
      }
    }
  }

  lemma IndexIsFindSlot(s: State, a: nat)
    requires Indexed(s)
    ensures a in s.index <==> FindSlot(Slots(s.entries), a) < |s.entries|
  {
    var slots := Slots(s.entries);
    var i := FindSlot(slots, a);
    if i < |slots| {
      assert slots[i] == SlotOf(s.entries[i]);
    }
    if a in s.index {
      assert slots[s.index[a]] == SlotOf(s.entries[s.index[a]]);
    }
  }

  /** LRU exactness: the cache holds exactly its capacity's worth of most recently used blocks. */
  lemma CachedIffRecent(s: State, trace: seq<nat>, order: seq<nat>, a: nat)
    requires Inv(s, trace, order)
    ensures a in s.index <==> Holds(|s.entries|, trace, a)
    ensures a in s.index <==> a in trace && |UsedSince(trace, a)| < |s.entries|
  {
    IndexIsFindSlot(s, a);
    RankedHits(Slots(s.entries), s.tick, Recency(trace), order, a);
    HoldsIffFewUsedSince(|s.entries|, trace, a);
    hide Ranked, Indexed;
  }

  lemma AccessRanked(s: State, trace: seq<nat>, order: seq<nat>, a: nat, entries': seq<Entry>)
    requires Inv(s, trace, order) && a < |s.device|
    requires |entries'| == |s.entries| && forall j :: 0 <= j < |s.entries| && j != EntryFor(s, a) ==> entries'[j] == s.entries[j]
    requires SlotOf(entries'[EntryFor(s, a)]) == Slot(true, a, s.tick + 1)
    ensures Ranked(Slots(entries'), s.tick + 1, Recency(trace + [a]), Promote(order, EntryFor(s, a)))
  {
    var i := EntryFor(s, a);
    var slots := Slots(s.entries);
    RecencyStep(trace, a);
    IndexIsFindSlot(s, a);
    VictimIsVictim(s.entries);
    assert slots[i] == SlotOf(s.entries[i]);
    if a in s.index {
      HitKeepsRanked(slots, s.tick, Recency(trace), order, i);
    } else {
      MissKeepsRanked(slots, s.tick, Recency(trace), order, i, a);
    }
    assert Slots(entries') == slots[i := Slot(true, a, s.tick + 1)];
  }

  lemma PromoteCount(s: State, trace: seq<nat>, order: seq<nat>, i: nat)
    requires Inv(s, trace, order) && i < |s.entries|
    ensures |Promote(order, i)| == |order| + (if s.entries[i].valid then 0 else 1)
  {
    var slots := Slots(s.entries);
    assert slots[i] == SlotOf(s.entries[i]);
    if slots[i].valid {
      var p := Rank(slots, s.tick, Recency(trace), order, i);
      WithoutAt(order, p);
    } else {
      forall p | 0 <= p < |order| ensures order[p] != i {
        assert SlotAt(slots, s.tick, Recency(trace), order, p);
      }
      WithoutAbsent(order, i);
    }
  }

  /** The state after an access in closed form, with the victim written back. */
  lemma AccessEffect(s: State, a: nat)
    requires Indexed(s) && a < |s.device|
    ensures var i := EntryFor(s, a);
            var e := s.entries[i];
            var s1 := ForRead(s, a);
            var device := if a !in s.index && e.valid && e.dirty then s.device[e.address := s.data[i]] else s.device;
            var index := if a in s.index then s.index else (if e.valid then s.index - {e.address} else s.index)[a := i];
            var entry := Entry(a, s.tick + 1, true, a in s.index && e.dirty);
            var validCount := s.validCount + (if e.valid then 0 else 1);
            && s1 == State(s.entries[i := entry], if a in s.index then s.data else s.data[i := s.device[a]], index, s.tick + 1, validCount, device)
            && ForWrite(s, a) == s1.(data := s.data)
            && i < |s.entries|
  {
    var i := EntryFor(s, a);
    assert a !in s.index && s.entries[i].valid ==> s.entries[i].address != a;
  }

  /** A read access, then perhaps new contents: everything is kept, and the logical contents change at most at a. */
  lemma AccessKeeps(s: State, trace: seq<nat>, order: seq<nat>, a: nat, b: Block, dirty: bool)
    requires Inv(s, trace, order) && a < |s.device|
    requires !dirty ==> b == Logical(s)[a]
    ensures var i := EntryFor(s, a);
            var s1 := ForRead(s, a);
            i < |s1.entries| == |s1.data|
    ensures var i := EntryFor(s, a);
            var s1 := ForRead(s, a);
            var s' := s1.(data := s1.data[i := b], entries := s1.entries[i := s1.entries[i].(dirty := dirty || s1.entries[i].dirty)]);
            && Inv(s', trace + [a], Promote(order, i))
            && Logical(s') == Logical(s)[a := b]
  {
    var i := EntryFor(s, a);
    AccessEffect(s, a);
    var s1 := ForRead(s, a);
    var s' := s1.(data := s1.data[i := b], entries := s1.entries[i := s1.entries[i].(dirty := dirty || s1.entries[i].dirty)]);
    AccessRanked(s, trace, order, a, s'.entries);
    PromoteCount(s, trace, order, i);
    AccessIndexed(s, a, b, dirty);
    AccessClean(s, a, b, dirty);
    AccessLogical(s, a, b, dirty);
    hide Indexed, CleanMatches, Ranked, ForRead, EntryFor, Promote;
  }

  ghost function Accessed(s: State, a: nat, b: Block, dirty: bool): State
    requires Indexed(s) && a < |s.device|
  {
    AccessEffect(s, a);
    var i := EntryFor(s, a);
    var s1 := ForRead(s, a);
    s1.(data := s1.data[i := b], entries := s1.entries[i := s1.entries[i].(dirty := dirty || s1.entries[i].dirty)])
  }

  lemma AccessedParts(s: State, a: nat, b: Block, dirty: bool)
    requires Indexed(s) && a < |s.device|
    ensures var s' := Accessed(s, a, b, dirty);
            var i := EntryFor(s, a);
            i < |s.entries| &&
            var e := s.entries[i];
            && (a in s.index ==> i == s.index[a] && s'.index == s.index)
            && (a !in s.index ==> s'.index == (if e.valid then s.index - {e.address} else s.index)[a := i])
            && s'.data == s.data[i := b] && |s'.device| == |s.device|
            && |s'.entries| == |s.entries| && s'.entries[i].valid && s'.entries[i].address == a
            && (forall j :: 0 <= j < |s.entries| && j != i ==> s'.entries[j] == s.entries[j])
            && s'.device == if a !in s.index && e.valid && e.dirty then s.device[e.address := s.data[i]] else s.device
  {
    hide ForRead, ForWrite;
    AccessEffect(s, a);
  }

  lemma AccessIndexed(s: State, a: nat, b: Block, dirty: bool)
    requires Indexed(s) && a < |s.device|
    ensures Indexed(Accessed(s, a, b, dirty))
  {
    hide ForRead, ForWrite, Accessed, EntryFor;
    AccessedParts(s, a, b, dirty);
    var i := EntryFor(s, a);
    var s' := Accessed(s, a, b, dirty);
    forall x | x in s'.index
      ensures s'.index[x] < |s'.entries| && s'.entries[s'.index[x]].valid && s'.entries[s'.index[x]].address == x && x < |s'.device|
    {
      assert x != a ==> x in s.index && s'.index[x] == s.index[x] != i;
    }
    forall j | 0 <= j < |s'.entries| && s'.entries[j].valid
      ensures s'.entries[j].address in s'.index && s'.index[s'.entries[j].address] == j
    {
      assert j != i ==> s.entries[j].address != a && (s.entries[i].valid ==> s.entries[j].address != s.entries[i].address);
    }
  }

  lemma AccessClean(s: State, a: nat, b: Block, dirty: bool)
    requires Indexed(s) && CleanMatches(s) && a < |s.device| && Indexed(Accessed(s, a, b, dirty))
    requires !dirty ==> b == Logical(s)[a]
    ensures CleanMatches(Accessed(s, a, b, dirty))
  {
    AccessEffect(s, a);
    hide ForRead, ForWrite;
  }

  lemma AccessLogical(s: State, a: nat, b: Block, dirty: bool)
    requires Indexed(s) && CleanMatches(s) && a < |s.device| && Indexed(Accessed(s, a, b, dirty))
    ensures Logical(Accessed(s, a, b, dirty)) == Logical(s)[a := b]
  {
    var s' := Accessed(s, a, b, dirty);
    AccessEffect(s, a);
    forall x | 0 <= x < |s.device| ensures Logical(s')[x] == Logical(s)[a := b][x] {
      AccessLogicalAt(s, a, b, dirty, x);
    }
    hide Indexed, CleanMatches, Accessed;
  }

  lemma AccessLogicalAt(s: State, a: nat, b: Block, dirty: bool, x: nat)
    requires Indexed(s) && CleanMatches(s) && a < |s.device| && Indexed(Accessed(s, a, b, dirty)) && x < |s.device|
    ensures var s' := Accessed(s, a, b, dirty);
            |s'.device| == |s.device| && Logical(s')[x] == if x == a then b else Logical(s)[x]
  {
    hide ForRead, ForWrite, Accessed, EntryFor;
    AccessedParts(s, a, b, dirty);
    var i := EntryFor(s, a);
    var e := s.entries[i];
    var s' := Accessed(s, a, b, dirty);
    if x != a {
      if a !in s.index && e.valid && x == e.address {
        assert Logical(s')[x] == s'.device[x] == s.data[i];
        assert Logical(s)[x] == s.data[i];
      } else {
        assert s'.device[x] == s.device[x];
        assert x in s'.index <==> x in s.index;
        assert x in s.index ==> s.index[x] != i;
      }
    }
  }

  /** A read returns the logical block. */
  lemma ReadIsLogical(s: State, a: nat)
    requires Indexed(s) && a < |s.device|
    ensures var i := EntryFor(s, a);
            var s1 := ForRead(s, a);
            i < |s1.data| && s1.data[i] == Logical(s)[a] && Accessed(s, a, Logical(s)[a], false) == s1
  {
    AccessEffect(s, a);
    hide ForRead, ForWrite;
    var i := EntryFor(s, a);
    var s1 := ForRead(s, a);
    assert s1.data[i := s1.data[i]] == s1.data && s1.entries[i := s1.entries[i]] == s1.entries;
  }

  lemma ReadKeeps(s: State, trace: seq<nat>, order: seq<nat>, a: nat)
    requires Inv(s, trace, order) && a < |s.device|
    ensures Inv(ForRead(s, a), trace + [a], Promote(order, EntryFor(s, a)))
    ensures Logical(ForRead(s, a)) == Logical(s)
    ensures var i := EntryFor(s, a); i < |ForRead(s, a).data| && ForRead(s, a).data[i] == Logical(s)[a]
  {
    ReadIsLogical(s, a);
    AccessKeeps(s, trace, order, a, Logical(s)[a], false);
    hide Indexed, CleanMatches, Ranked, ForRead, EntryFor, Promote;
    assert Logical(s)[a := Logical(s)[a]] == Logical(s);
  }

  lemma WriteIsAccessed(s: State, a: nat, b: Block)
    requires Indexed(s) && a < |s.device|
    ensures Write(s, a, b) == Accessed(s, a, b, true)
  {
    hide ForRead, ForWrite;
    AccessEffect(s, a);
  }

  lemma WriteKeeps(s: State, trace: seq<nat>, order: seq<nat>, a: nat, b: Block)
    requires Inv(s, trace, order) && a < |s.device|
    ensures Inv(Write(s, a, b), trace + [a], Promote(order, EntryFor(s, a)))
    ensures Logical(Write(s, a, b)) == Logical(s)[a := b]
  {
    WriteIsAccessed(s, a, b);
    AccessKeeps(s, trace, order, a, b, true);
    hide Indexed, CleanMatches, Ranked, ForRead, EntryFor, Promote, Write;
  }

  // ---------- Write-back ----------

  /**
   The device changes in one way only: a block that had to leave the cache is on it as readers saw it. Every other block of the device is as before,
   the block just written included.
   */
  ghost predicate OnlyEvicted(s: State, s': State)
    requires Indexed(s)
  {
    && |s'.device| == |s.device|
    && forall x :: 0 <= x < |s.device| ==>
         s'.device[x] == if x in s.index && x !in s'.index then Logical(s)[x] else s.device[x]
  }

  lemma AccessedWritesBack(s: State, a: nat, b: Block, dirty: bool)
    requires Indexed(s) && CleanMatches(s) && a < |s.device|
    ensures OnlyEvicted(s, Accessed(s, a, b, dirty))
  {
    hide Accessed, EntryFor;
    AccessedParts(s, a, b, dirty);
    var s' := Accessed(s, a, b, dirty);
    var e := s.entries[EntryFor(s, a)];
    forall x | 0 <= x < |s.device|
      ensures s'.device[x] == if x in s.index && x !in s'.index then Logical(s)[x] else s.device[x]
    {
      if a !in s.index && e.valid && x == e.address {
        assert s.index[x] == EntryFor(s, a);
      }
    }
  }

  /** Reads and writes write nothing back but the block they evict. */
  lemma AccessWritesBackOnlyEvicted(s: State, a: nat, b: Block)
    requires Indexed(s) && CleanMatches(s) && a < |s.device|
    ensures OnlyEvicted(s, ForRead(s, a)) && OnlyEvicted(s, Write(s, a, b))
  {
    hide Indexed, CleanMatches, ForRead, Write, Accessed, OnlyEvicted;
    AccessedWritesBack(s, a, b, true);
    AccessedWritesBack(s, a, Logical(s)[a], false);
    WriteIsAccessed(s, a, b);
    ReadIsLogical(s, a);
  }

  /** A block leaves exactly when another takes its place in a full cache, and then it is the least recently used of those cached. */
  lemma EvictedIsLeastRecent(s: State, trace: seq<nat>, order: seq<nat>, a: nat, b: Block, x: nat)
    requires Inv(s, trace, order) && a < |s.device|
    ensures var n, recent := |s.entries|, Recency(trace);
            && ForRead(s, a).index == Write(s, a, b).index
            && (x in s.index && x !in ForRead(s, a).index <==>
                a !in s.index && n > 0 && |recent| >= n && x == recent[n - 1])
  {
    var i := EntryFor(s, a);
    var slots := Slots(s.entries);
    VictimIsVictim(s.entries);
    assert slots[i] == SlotOf(s.entries[i]);
    AccessEffect(s, a);
    if a !in s.index {
      VictimIsLeastRecent(slots, s.tick, Recency(trace), order, i);
    }
    hide Ranked, CleanMatches, IsVictim, ForRead, ForWrite, Recency;
  }

  /** Flushing a block changes that block of the device alone, and leaves it as readers see it. */
  lemma FlushBlockWrites(s: State, a: nat)
    requires Indexed(s) && CleanMatches(s) && a < |s.device|
    ensures FlushBlock(s, a).device == s.device[a := Logical(s)[a]]
  {
  }

  // ---------- Runs ----------

  datatype Op = ReadOp(a: nat, count: nat) | WriteOp(a: nat, b: Block) | FlushOp(a: nat) | FlushAllOp | ClearOp

  /** The errors of an operation, none of which changes anything. */
  function Refusal(blocks: nat, size: nat, op: Op): Option<Error>
  {
    match op
    case ReadOp(a, count) => if count != size then Some(InvalidArgument) else if a >= blocks then Some(OutOfRange) else None
    case WriteOp(a, b) => if |b| != size then Some(InvalidArgument) else if a >= blocks then Some(OutOfRange) else None
    case FlushOp(a) => if a >= blocks then Some(OutOfRange) else None
    case FlushAllOp => None
    case ClearOp => None
  }

  datatype Tracked = Tracked(s: State, trace: seq<nat>, order: seq<nat>)

  ghost predicate Good(t: Tracked)
  {
    Inv(t.s, t.trace, t.order)
  }

  ghost function Step(t: Tracked, size: nat, op: Op): (Tracked, Result<Block>)
    requires Good(t)
  {
    var s := t.s;
    match Refusal(|s.device|, size, op)
    case Some(error) => (t, Err(error))
    case None =>
      match op
      case ReadOp(a, _) =>
        AccessEffect(s, a);
        var i := EntryFor(s, a);
        (Tracked(ForRead(s, a), t.trace + [a], Promote(t.order, i)), Ok(ForRead(s, a).data[i]))
      case WriteOp(a, b) => (Tracked(Write(s, a, b), t.trace + [a], Promote(t.order, EntryFor(s, a))), Ok([]))
      case FlushOp(a) => (t.(s := FlushBlock(s, a)), Ok([]))
      case FlushAllOp => (t.(s := FlushAll(s)), Ok([]))
      case ClearOp => (Tracked(Clear(s), [], []), Ok([]))
  }

  /** The bare device: reads and writes act on the array, flushing and clearing do nothing. */
  ghost function BareStep(blocks: seq<Block>, size: nat, op: Op): (seq<Block>, Result<Block>)
  {
    match Refusal(|blocks|, size, op)
    case Some(error) => (blocks, Err(error))
    case None =>
      match op
      case ReadOp(a, _) => (blocks, Ok(blocks[a]))
      case WriteOp(a, b) => (blocks[a := b], Ok([]))
      case _ => (blocks, Ok([]))
  }

  lemma StepIsBare(t: Tracked, size: nat, op: Op)
    requires Good(t)
    ensures var (t', seen) := Step(t, size, op);
            Good(t') && (Logical(t'.s), seen) == BareStep(Logical(t.s), size, op)
    ensures |Step(t, size, op).0.s.entries| == |t.s.entries|
  {
    hide Ranked, CleanMatches;
    var s := t.s;
    if Refusal(|s.device|, size, op).None? {
      match op
      case ReadOp(a, _) => ReadKeeps(s, t.trace, t.order, a); AccessEffect(s, a);
      case WriteOp(a, b) => WriteKeeps(s, t.trace, t.order, a, b); AccessEffect(s, a);
      case FlushOp(a) => if a in s.index { FlushKeeps(s, t.trace, t.order, s.index[a]); }
      case FlushAllOp => FlushAllReachesDevice(s, t.trace, t.order);
      case ClearOp => ClearKeeps(s, t.trace, t.order);
    }
  }

  ghost function Run(t: Tracked, size: nat, ops: seq<Op>): (Tracked, seq<Result<Block>>)
    requires Good(t)
    decreases |ops|
  {
    if ops == [] then (t, [])
    else
      StepIsBare(t, size, ops[0]);
      var (t1, seen) := Step(t, size, ops[0]);
      var (t2, rest) := Run(t1, size, ops[1..]);
      (t2, [seen] + rest)
  }

  ghost function BareRun(blocks: seq<Block>, size: nat, ops: seq<Op>): (seq<Block>, seq<Result<Block>>)
    decreases |ops|
  {
    if ops == [] then (blocks, [])
    else
      var (blocks1, seen) := BareStep(blocks, size, ops[0]);
      var (blocks2, rest) := BareRun(blocks1, size, ops[1..]);
      (blocks2, [seen] + rest)
  }

  /**
   Over every run the cache answers as the bare device would, errors included; a final flush leaves
   the bare device's contents on the device; and the cached blocks are the most recently used ones.
   */
  lemma {:induction false} CacheRefinesDevice(t: Tracked, size: nat, ops: seq<Op>)
    requires Good(t)
    ensures var (t', seen) := Run(t, size, ops);
            && Good(t') && |t'.s.entries| == |t.s.entries|
            && (Logical(t'.s), seen) == BareRun(Logical(t.s), size, ops)
            && FlushAll(t'.s).device == BareRun(Logical(t.s), size, ops).0
            && forall a: nat :: a in t'.s.index <==> Holds(|t.s.entries|, t'.trace, a)
    decreases |ops|
  {
    hide Inv, Step, BareStep, FlushAll, Holds;
    assert Good(t) ==> Indexed(t.s) by { GoodIndexed(t); }
    if ops == [] {
      FlushAllReachesDevice(t.s, t.trace, t.order);
      forall a: nat ensures a in t.s.index <==> Holds(|t.s.entries|, t.trace, a) {
        CachedIffRecent(t.s, t.trace, t.order, a);
      }
    } else {
      StepIsBare(t, size, ops[0]);
      CacheRefinesDevice(Step(t, size, ops[0]).0, size, ops[1..]);
    }
  }

  lemma GoodIndexed(t: Tracked)
    requires Good(t)
    ensures Indexed(t.s)
  {
  }

  /** An empty cache over any device is a good start. */
  lemma EmptyIsGood(capacity: nat, data: seq<Block>, device: seq<Block>)
    requires |data| == capacity > 0
    ensures var s := State(seq(capacity, _ => Entry(0, 0, false, false)), data, map[], 0, 0, device);
            Good(Tracked(s, [], [])) && Logical(s) == device
  {
    var s := State(seq(capacity, _ => Entry(0, 0, false, false)), data, map[], 0, 0, device);
    assert Logical(s) == device;
  }
}
