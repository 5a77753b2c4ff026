/** The buffer cache itself: entry array, flat block storage, index and ticks changed in place. */
module BufferCaches {
  import opened LittleEndian
  import opened Arithmetic
  import opened Results
  import opened Blocks
  import opened BlockDevice
  import opened Lru
  import opened BufferCacheSpec

  /** The guard on the capacity, before a cache is built. */
  function CheckCapacity(capacity: nat, blockSize: nat): Result<nat>
  {
    if capacity == 0 then Err(InvalidArgument)
    else if blockSize != 0 && capacity > MAX_U64 / blockSize then Err(OverflowError)
    else Ok(capacity * blockSize)
  }

  class BufferCache {
    const device: MemoryBlockDevice
    var entries: seq<Entry>
    var storage: seq<Byte>
    var index: map<nat, nat>
    var tick: nat
    var validCount: nat
    ghost var trace: seq<nat>
    ghost var order: seq<nat>

    constructor (device: MemoryBlockDevice, capacity: nat)
      requires device.Valid() && CheckCapacity(capacity, device.blockSize).Ok?
      ensures this.device == device && Valid() && |entries| == capacity && trace == []
      ensures Disk() == device.Contents()
    {
      this.device := device;
      entries := seq(capacity, _ => Entry(0, 0, false, false));
      storage := seq(capacity * device.blockSize, _ => 0);
      index, tick, validCount := map[], 0, 0;
      trace, order := [], [];
      new;
      EmptyIsGood(capacity, Split(storage, device.blockSize, |entries|), device.Contents());
    }

    ghost predicate Shaped()
      reads this, device
    {
      device.Valid() && |storage| == |entries| * device.blockSize
    }

    ghost function View(): (s: State)
      requires Shaped()
      reads this, device
      ensures |s.data| == |entries|
    {
      State(entries, Split(storage, device.blockSize, |entries|), index, tick, validCount, device.Contents())
    }

    ghost predicate Valid()
      reads this, device
    {
      Shaped() && Inv(View(), trace, order)
    }

    /** The blocks as readers see them. */
    ghost function Disk(): (blocks: seq<Block>)
      requires Valid()
      reads this, device
      ensures |blocks| == device.blockCount
    {
      Logical(View())
    }

    method TouchEntry(i: nat)
      requires Shaped() && i < |entries|
      modifies this`tick, this`entries
      ensures Shaped() && View() == Touch(old(View()), i)
    {
      tick := tick + 1;
      entries := entries[i := entries[i].(tick := tick)];
    }

    method SetBlock(i: nat, b: Block)
      requires Shaped() && i < |entries| && |b| == device.blockSize
      modifies this`storage
      ensures Shaped() && View() == old(View()).(data := old(View()).data[i := b])
    {
      SplitPut(storage, device.blockSize, |entries|, i, b);
      storage := PutSlice(storage, device.blockSize, |entries|, i, b);
    }

    method FlushEntryAt(i: nat)
      requires Shaped() && i < |entries| && (entries[i].valid ==> entries[i].address < device.blockCount)
      modifies this`entries, device
      ensures Shaped() && View() == FlushEntry(old(View()), i)
    {
      var e := entries[i];
      if !e.valid || !e.dirty {
        return;
      }
      var _ := device.WriteBlock(e.address, Slice(storage, device.blockSize, |entries|, i));
      entries := entries[i := e.(dirty := false)];
    }

    method VictimIndex() returns (v: nat)
      requires entries != []
      ensures v == VictimOf(entries)
    {
      for i := 0 to |entries|
        invariant forall j :: 0 <= j < i ==> entries[j].valid
      {
        if !entries[i].valid {
          return i;
        }
      }
      v := 0;
      for i := 1 to |entries|
        invariant v == LeastTick(entries, i)
      {
        if entries[i].tick < entries[v].tick {
          v := i;
        }
      }
    }

    method EvictIfNeeded(i: nat)
      requires Shaped() && i < |entries| && (entries[i].valid ==> entries[i].address < device.blockCount)
      modifies this`entries, this`index, device
      ensures Shaped() && View() == Evict(old(View()), i)
    {
      if !entries[i].valid {
        return;
      }
      if entries[i].dirty {
        FlushEntryAt(i);
      }
      index := index - {entries[i].address};
    }

    method AllocateEntry(a: nat) returns (v: nat)
      requires Shaped() && Indexed(View())
      modifies this`entries, this`index, this`validCount, device
      ensures Shaped() && View() == Allocate(old(View()), a) && v == VictimOf(old(entries))
    {
      v := VictimIndex();
      EvictIfNeeded(v);
      if !entries[v].valid {
        validCount := validCount + 1;
      }
      entries := entries[v := entries[v].(address := a, valid := true, dirty := false)];
      index := index[a := v];
    }

    method FindOrAllocateForRead(a: nat) returns (i: nat)
      requires Shaped() && Indexed(View()) && a < device.blockCount
      modifies this`entries, this`storage, this`index, this`tick, this`validCount, device
      ensures Shaped() && View() == ForRead(old(View()), a) && i == EntryFor(old(View()), a)
    {
      hide Allocate, Touch, Indexed, EntryFor, VictimOf;
      EntryInRange(View(), a);
      if a in index {
        i := index[a];
        TouchEntry(i);
        return;
      }
      i := AllocateEntry(a);
      var block := device.ReadBlock(a, device.blockSize);
      SetBlock(i, block.value);
      TouchEntry(i);
    }

    method FindOrAllocateForWrite(a: nat) returns (i: nat)
      requires Shaped() && Indexed(View()) && a < device.blockCount
      modifies this`entries, this`index, this`tick, this`validCount, device
      ensures Shaped() && View() == ForWrite(old(View()), a) && i == EntryFor(old(View()), a)
    {
      hide Allocate, Touch, Indexed, EntryFor, VictimOf;
      EntryInRange(View(), a);
      if a in index {
        i := index[a];
        TouchEntry(i);
        return;
      }
      i := AllocateEntry(a);
      TouchEntry(i);
    }

    method ReadBlock(a: nat, count: nat) returns (r: Result<Block>)
      requires Valid()
      modifies this, device
      ensures Valid() && |entries| == |old(entries)|
      ensures Disk() == old(Disk())
      ensures r == if count != device.blockSize then Err(InvalidArgument)
                   else if a >= device.blockCount then Err(OutOfRange)
                   else Ok(Disk()[a])
      ensures trace == if r.Ok? then old(trace) + [a] else old(trace)
      ensures OnlyEvicted(old(View()), View())
    {
      hide Inv, ForRead, EntryFor, Indexed, CleanMatches, OnlyEvicted;
      InvIndexed(View(), trace, order);
      NothingEvicted(View());
      if count != device.blockSize {
        return Err(InvalidArgument);
      }
      if a >= device.blockCount {
        return Err(OutOfRange);
      }
      ReadKeeps(View(), trace, order, a);
      AccessWritesBackOnlyEvicted(View(), a, []);
      AccessSizes(View(), a);
      var i := FindOrAllocateForRead(a);
      trace, order := trace + [a], Promote(order, i);
      return Ok(Slice(storage, device.blockSize, |entries|, i));
    }

    method WriteBlock(a: nat, source: Block) returns (r: Result<()>)
      requires Valid()
      modifies this, device
      ensures Valid() && |entries| == |old(entries)|
      ensures |source| != device.blockSize ==> r == Err(InvalidArgument)
      ensures |source| == device.blockSize && a >= device.blockCount ==> r == Err(OutOfRange)
      ensures |source| == device.blockSize && a < device.blockCount ==> r == Ok(())
      ensures r.Ok? ==> Disk() == old(Disk())[a := source] && trace == old(trace) + [a]
      ensures r.Err? ==> Disk() == old(Disk()) && trace == old(trace)
      ensures OnlyEvicted(old(View()), View())
    {
      hide Inv, ForWrite, EntryFor, Indexed, CleanMatches, OnlyEvicted;
      InvIndexed(View(), trace, order);
      NothingEvicted(View());
      if |source| != device.blockSize {
        return Err(InvalidArgument);
      }
      if a >= device.blockCount {
        return Err(OutOfRange);
      }
      WriteKeeps(View(), trace, order, a, source);
      AccessWritesBackOnlyEvicted(View(), a, source);
      AccessSizes(View(), a);
      var i := FindOrAllocateForWrite(a);
      SetBlock(i, source);
      entries := entries[i := entries[i].(dirty := true)];
      trace, order := trace + [a], Promote(order, i);
      return Ok(());
    }

    method FlushBlock(a: nat) returns (r: Result<()>)
      requires Valid()
      modifies this, device
      ensures Valid() && |entries| == |old(entries)|
      ensures r == if a >= device.blockCount then Err(OutOfRange) else Ok(())
      ensures Disk() == old(Disk()) && trace == old(trace) && index == old(index)
      ensures device.Contents() == if r.Ok? then old(device.Contents())[a := old(Disk())[a]] else old(device.Contents())
    {
      hide Ranked, CleanMatches;
      if a >= device.blockCount {
        return Err(OutOfRange);
      }
      FlushBlockWrites(View(), a);
      if a in index {
        FlushKeeps(View(), trace, order, index[a]);
        FlushEntryAt(index[a]);
      }
      return Ok(());
    }

    method FlushAllEntries()
      requires Valid()
      modifies this`entries, device
      ensures Valid() && |entries| == |old(entries)|
      ensures View() == FlushAll(old(View()))
      ensures Disk() == old(Disk()) == device.Contents()
    {
      hide Ranked, CleanMatches;
      ghost var s := View();
      for i := 0 to |entries|
        invariant Shaped() && |entries| == |s.entries| && View() == FlushFirst(s, i)
      {
        FlushEntryAt(i);
      }
      FlushAllReachesDevice(s, trace, order);
    }

    method Clear()
      requires Valid()
      modifies this, device
      ensures Valid() && |entries| == |old(entries)|
      ensures Disk() == old(Disk()) == device.Contents() && index == map[] && trace == []
    {
      hide Ranked, CleanMatches, Indexed;
      ClearKeeps(View(), trace, order);
      FlushAllEntries();
      for i := 0 to |entries|
        invariant Shaped() && |entries| == |old(entries)|
        invariant View() == FlushAll(old(View())).(entries := entries)
        invariant forall j :: 0 <= j < i ==> entries[j] == Entry(0, 0, false, false)
      {
        entries := entries[i := Entry(0, 0, false, false)];
      }
      assert entries == seq(|entries|, _ => Entry(0, 0, false, false));
      index, tick, validCount := map[], 0, 0;
      trace, order := [], [];
    }
  }

  lemma InvIndexed(s: State, trace: seq<nat>, order: seq<nat>)
    requires Inv(s, trace, order)
    ensures Indexed(s) && CleanMatches(s)
  {
  }

  lemma NothingEvicted(s: State)
    requires Indexed(s)
    ensures OnlyEvicted(s, s)
  {
  }

  lemma EntryInRange(s: State, a: nat)
    requires Indexed(s) && a < |s.device|
    ensures EntryFor(s, a) < |s.entries| && EntryFor(s, a) == if a in s.index then s.index[a] else VictimOf(s.entries)
    ensures var s1 := Allocate(s, a); |s1.entries| == |s.entries| && |s1.data| == |s.data| && |s1.device| == |s.device|
  {
  }

  lemma AccessSizes(s: State, a: nat)
    requires Indexed(s) && a < |s.device|
    ensures EntryFor(s, a) < |s.entries| && |ForRead(s, a).entries| == |ForWrite(s, a).entries| == |s.entries|
  {
    AccessEffect(s, a);
    hide ForRead, ForWrite, EntryFor;
  }

  /** The guard accepts a capacity exactly when the storage of all entries has a size in 64 bits. */
  lemma CapacityAccepted(capacity: nat, blockSize: nat)
    ensures CheckCapacity(capacity, blockSize).Ok? <==> capacity > 0 && capacity * blockSize <= 0xFFFF_FFFF_FFFF_FFFF
  {
    if blockSize > 0 {
      var q, r := MAX_U64 / blockSize, MAX_U64 % blockSize;
      assert MAX_U64 == blockSize * q + r;
      assert capacity * blockSize == blockSize * capacity;
      if capacity > q {
        MulOrder(blockSize, q + 1, capacity);
        assert blockSize * (q + 1) == blockSize * q + blockSize;
      } else {
        MulOrder(blockSize, capacity, q);
      }
    }
  }
}
