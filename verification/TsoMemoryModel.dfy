/**
 The x86-TSO memory model: one FIFO store buffer per core in front of a shared memory.
 The operations are pure steps on a machine state (Tso), proved against simpler readings of
 memory (TsoTheorems), and implemented by the class X86TsoMemoryModel.
 */
module Tso {
  import opened LittleEndian
  import opened MemoryBus
  import opened Results

  const QWORD_LIMIT := 0x1_0000_0000_0000_0000

  type Qword = v: int | 0 <= v < QWORD_LIMIT

  /** Unsigned 64-bit arithmetic wraps around. */
  function Wrap(v: nat): Qword
  {
    v % QWORD_LIMIT
  }

  datatype DataSize = BYTE | WORD | DWORD | QWORD {
    function Bytes(): nat
    {
      match this
      case BYTE => 1
      case WORD => 2
      case DWORD => 4
      case QWORD => 8
    }
  }

  datatype StoreBufferEntry = StoreBufferEntry(core: nat, address: nat, size: DataSize, value: Qword, sequence: nat) {
    predicate ContainsByte(a: nat)
    {
      a >= address && a - address < size.Bytes()
    }

    function ByteFor(a: nat): Byte
      requires ContainsByte(a)
    {
      ByteAt(value, a - address)
    }

    predicate InRange(mem: Memory)
    {
      ContainsRange(mem, address, size.Bytes())
    }
  }

  type StoreQueue = seq<StoreBufferEntry>

  datatype Machine = Machine(mem: Memory, buffers: seq<StoreQueue>, nextSequence: nat)

  predicate AllInRange(mem: Memory, queue: StoreQueue)
  {
    forall i :: 0 <= i < |queue| ==> queue[i].InRange(mem)
  }

  function Commit(mem: Memory, e: StoreBufferEntry): (mem': Memory)
    requires e.InRange(mem)
    ensures |mem'| == |mem|
  {
    Store(mem, e.address, e.size.Bytes(), e.value)
  }

  /** Memory after committing a queue of stores in order: the reference meaning of pending stores. */
  function Replay(mem: Memory, queue: StoreQueue): (mem': Memory)
    requires AllInRange(mem, queue)
    ensures |mem'| == |mem|
    decreases |queue|
  {
    if queue == [] then mem else Replay(Commit(mem, queue[0]), queue[1..])
  }

  /** The byte a core's own buffer forwards for an address: the newest store that covers it. */
  function Forwarded(queue: StoreQueue, a: nat): Option<Byte>
  {
    if queue == [] then None
    else if queue[|queue| - 1].ContainsByte(a) then Some(queue[|queue| - 1].ByteFor(a))
    else Forwarded(queue[..|queue| - 1], a)
  }

  /** Memory as a core with this buffer sees it, byte by byte. */
  function View(mem: Memory, queue: StoreQueue): (view: Memory)
    ensures |view| == |mem|
  {
    seq(|mem|, a requires 0 <= a < |mem| => match Forwarded(queue, a) case Some(b) => b case None => mem[a])
  }

  function StoreStep(m: Machine, core: nat, address: nat, size: DataSize, value: Qword): Machine
    requires core < |m.buffers|
  {
    var e := StoreBufferEntry(core, address, size, value, m.nextSequence);
    m.(buffers := m.buffers[core := m.buffers[core] + [e]], nextSequence := m.nextSequence + 1)
  }

  function LoadStep(m: Machine, core: nat, address: nat, size: DataSize): Result<nat>
    requires core < |m.buffers|
  {
    if ContainsRange(m.mem, address, size.Bytes())
    then Ok(Load(View(m.mem, m.buffers[core]), address, size.Bytes()))
    else Err(OutOfRange)
  }

  function DrainCoreStep(m: Machine, core: nat): (r: (Machine, Result<bool>))
    requires core < |m.buffers|
  {
    var queue := m.buffers[core];
    if queue == [] then (m, Ok(false))
    else if !queue[0].InRange(m.mem) then (m, Err(OutOfRange))
    else (m.(mem := Commit(m.mem, queue[0]), buffers := m.buffers[core := queue[1..]]), Ok(true))
  }

  /** Among the first n cores, the one whose oldest pending store was issued first. */
  function OldestCore(buffers: seq<StoreQueue>, n: nat): (core: Option<nat>)
    requires n <= |buffers|
    ensures core.Some? ==> core.value < n && buffers[core.value] != []
  {
    if n == 0 then None
    else
      var best := OldestCore(buffers, n - 1);
      if buffers[n - 1] != [] && (best.None? || buffers[n - 1][0].sequence < buffers[best.value][0].sequence)
      then Some(n - 1) else best
  }

  function DrainOneStep(m: Machine): (Machine, Result<bool>)
  {
    match OldestCore(m.buffers, |m.buffers|)
    case None => (m, Ok(false))
    case Some(core) => DrainCoreStep(m, core)
  }

  function Pending(buffers: seq<StoreQueue>): nat
  {
    if buffers == [] then 0 else |buffers[0]| + Pending(buffers[1..])
  }

  lemma {:induction false} PendingUpdate(buffers: seq<StoreQueue>, core: nat, queue: StoreQueue)
    requires core < |buffers|
    ensures Pending(buffers[core := queue]) == Pending(buffers) - |buffers[core]| + |queue|
  {
    if core == 0 {
      assert buffers[core := queue][1..] == buffers[1..];
    } else {
      PendingUpdate(buffers[1..], core - 1, queue);
      assert buffers[core := queue][1..] == buffers[1..][core - 1 := queue];
    }
  }

  /** A fence commits the core's stores one by one until the buffer is empty or a store fails. */
  function FenceStep(m: Machine, core: nat): (r: (Machine, Result<()>))
    requires core < |m.buffers|
    ensures |r.0.buffers| == |m.buffers| && |r.0.mem| == |m.mem| && r.0.nextSequence == m.nextSequence
    decreases |m.buffers[core]|
  {
    var (m', r) := DrainCoreStep(m, core);
    match r
    case Err(e) => (m', Err(e))
    case Ok(false) => (m', Ok(()))
    case Ok(true) => FenceStep(m', core)
  }

  function DrainAllStep(m: Machine): (Machine, Result<()>)
    decreases Pending(m.buffers)
  {
    var (m', r) := DrainOneStep(m);
    match r
    case Err(e) => (m', Err(e))
    case Ok(false) => (m', Ok(()))
    case Ok(true) =>
      var core := OldestCore(m.buffers, |m.buffers|).value;
      PendingUpdate(m.buffers, core, m.buffers[core][1..]);
      DrainAllStep(m')
  }

  datatype CompareExchange = CompareExchange(observed: nat, exchanged: bool)
  datatype FetchAdd = FetchAdd(oldValue: nat, newValue: nat)

  /** The write half of a locked operation: exchange when equal, or add. */
  datatype AtomicUpdate = ExchangeIf(expected: Qword, desired: Qword) | AddTo(addend: Qword) {
    function NewValue(observed: nat): Option<Qword>
    {
      match this
      case ExchangeIf(expected, desired) => if observed == expected then Some(desired) else None
      case AddTo(addend) => Some(Wrap(observed + addend))
    }
  }

  /** The read-modify-write on memory alone. */
  function Atomic(mem: Memory, address: nat, size: DataSize, update: AtomicUpdate): (r: (Memory, Result<nat>))
    ensures |r.0| == |mem|
  {
    if !ContainsRange(mem, address, size.Bytes()) then (mem, Err(OutOfRange))
    else
      var observed := Load(mem, address, size.Bytes());
      match update.NewValue(observed)
      case None => (mem, Ok(observed))
      case Some(v) => (Store(mem, address, size.Bytes(), v), Ok(observed))
  }

  function AtomicStep(m: Machine, core: nat, address: nat, size: DataSize, update: AtomicUpdate)
    : (r: (Machine, Result<nat>))
    requires core < |m.buffers|
  {
    var (m', fenced) := FenceStep(m, core);
    if fenced.Err? then (m', Err(fenced.error))
    else
      var (mem', observed) := Atomic(m'.mem, address, size, update);
      (m'.(mem := mem'), observed)
  }

  class X86TsoMemoryModel {
    var buffers: seq<StoreQueue>
    var nextSequence: nat

    ghost function State(memory: PhysicalMemory): Machine
      reads this, memory
    {
      Machine(memory.bytes, buffers, nextSequence)
    }

    constructor (coreCount: nat)
      requires coreCount > 0
      ensures buffers == seq(coreCount, _ => []) && nextSequence == 0
    {
      buffers := seq(coreCount, _ => []);
      nextSequence := 0;
    }

    method Store(core: nat, address: nat, size: DataSize, value: Qword) returns (r: Result<()>)
      modifies this
      ensures core >= |old(buffers)| ==> r == Err(OutOfRange) && buffers == old(buffers) && nextSequence == old(nextSequence)
      ensures core < |old(buffers)| ==> r == Ok(()) && forall mem ::
        Machine(mem, buffers, nextSequence)
        == StoreStep(Machine(mem, old(buffers), old(nextSequence)), core, address, size, value)
    {
      if core >= |buffers| {
        return Err(OutOfRange);
      }
      var e := StoreBufferEntry(core, address, size, value, nextSequence);
      buffers := buffers[core := buffers[core] + [e]];
      nextSequence := nextSequence + 1;
      return Ok(());
    }

    method ForwardedByte(core: nat, address: nat) returns (b: Option<Byte>)
      requires core < |buffers|
      ensures b == Forwarded(buffers[core], address)
    {
      var queue := buffers[core];
      var i := |queue|;
      assert queue[..i] == queue;
      while i > 0
        invariant 0 <= i <= |queue|
        invariant Forwarded(queue, address) == Forwarded(queue[..i], address)
      {
        assert queue[..i][..i - 1] == queue[..i - 1];
        if queue[i - 1].ContainsByte(address) {
          return Some(queue[i - 1].ByteFor(address));
        }
        i := i - 1;
      }
      return None;
    }

    /** Reads memory, then patches each byte that the core's own buffer forwards. */
    method Load(core: nat, memory: PhysicalMemory, address: nat, size: DataSize) returns (r: Result<nat>)
      ensures core >= |buffers| ==> r == Err(OutOfRange)
      ensures core < |buffers| ==> r == LoadStep(State(memory), core, address, size)
    {
      if core >= |buffers| {
        return Err(OutOfRange);
      }
      var n := size.Bytes();
      var read := memory.Read(address, n);
      if read.Err? {
        return read;
      }
      var value: nat := read.value;
      ghost var view := View(memory.bytes, buffers[core])[address..address + n];
      ghost var bytes: seq<Byte> := memory.bytes[address..address + n];
      for k := 0 to n
        invariant |bytes| == n && value == FromBytes(bytes)
        invariant forall j :: 0 <= j < n ==> bytes[j] == if j < k then view[j] else memory.bytes[address + j]
      {
        var forwarded := ForwardedByte(core, address + k);
        assert view[k] == View(memory.bytes, buffers[core])[address + k];
        if forwarded.Some? {
          SetByteAtFromBytes(bytes, k, forwarded.value);
          value := SetByteAt(value, k, forwarded.value);
          bytes := bytes[k := forwarded.value];
        }
      }
      assert bytes == view;
      return Ok(value);
    }

    method DrainCore(memory: PhysicalMemory, core: nat) returns (r: Result<bool>)
      modifies this, memory
      ensures core >= |old(buffers)| ==> r == Err(OutOfRange) && State(memory) == old(State(memory))
      ensures core < |old(buffers)| ==> (State(memory), r) == DrainCoreStep(old(State(memory)), core)
    {
      if core >= |buffers| {
        return Err(OutOfRange);
      }
      var queue := buffers[core];
      if queue == [] {
        return Ok(false);
      }
      var written := memory.Write(queue[0].address, queue[0].size.Bytes(), queue[0].value);
      if written.Err? {
        return Err(written.error);
      }
      buffers := buffers[core := queue[1..]];
      return Ok(true);
    }

    method DrainOne(memory: PhysicalMemory) returns (r: Result<bool>)
      modifies this, memory
      ensures (State(memory), r) == DrainOneStep(old(State(memory)))
    {
      var selected: Option<nat> := None;
      for i := 0 to |buffers|
        invariant selected == OldestCore(buffers, i)
      {
        var queue := buffers[i];
        if queue != [] && (selected.None? || queue[0].sequence < buffers[selected.value][0].sequence) {
          selected := Some(i);
        }
      }
      if selected.None? {
        return Ok(false);
      }
      r := DrainCore(memory, selected.value);
    }

    method DrainAll(memory: PhysicalMemory) returns (r: Result<()>)
      modifies this, memory
      ensures (State(memory), r) == DrainAllStep(old(State(memory)))
    {
      while true
        invariant DrainAllStep(State(memory)) == DrainAllStep(old(State(memory)))
        decreases Pending(buffers)
      {
        ghost var was := State(memory);
        var drained := DrainOne(memory);
        if drained.Err? {
          return Err(drained.error);
        }
        if !drained.value {
          return Ok(());
        }
        ghost var core := OldestCore(was.buffers, |was.buffers|).value;
        PendingUpdate(was.buffers, core, was.buffers[core][1..]);
      }
    }

    method Fence(memory: PhysicalMemory, core: nat) returns (r: Result<()>)
      modifies this, memory
      ensures core >= |old(buffers)| ==> r == Err(OutOfRange) && State(memory) == old(State(memory))
      ensures core < |old(buffers)| ==> (State(memory), r) == FenceStep(old(State(memory)), core)
    {
      if core >= |buffers| {
        return Err(OutOfRange);
      }
      while true
        invariant core < |buffers|
        invariant FenceStep(State(memory), core) == FenceStep(old(State(memory)), core)
        decreases |buffers[core]|
      {
        var drained := DrainCore(memory, core);
        if drained.Err? {
          return Err(drained.error);
        }
        if !drained.value {
          return Ok(());
        }
      }
    }

    method CompareExchangeAt(memory: PhysicalMemory, core: nat, address: nat, size: DataSize,
                             expected: Qword, desired: Qword) returns (r: Result<CompareExchange>)
      modifies this, memory
      ensures core >= |old(buffers)| ==> r == Err(OutOfRange) && State(memory) == old(State(memory))
      ensures core < |old(buffers)| ==>
                var (m, seen) := AtomicStep(old(State(memory)), core, address, size, ExchangeIf(expected, desired));
                && State(memory) == m
                && r == match seen case Err(e) => Err(e) case Ok(v) => Ok(CompareExchange(v, v == expected))
    {
      var fenced := Fence(memory, core);
      if fenced.Err? {
        return Err(fenced.error);
      }
      var observed := memory.Read(address, size.Bytes());
      if observed.Err? {
        return Err(observed.error);
      }
      if observed.value == expected {
        var _ := memory.Write(address, size.Bytes(), desired);
      }
      return Ok(CompareExchange(observed.value, observed.value == expected));
    }

    method FetchAddAt(memory: PhysicalMemory, core: nat, address: nat, size: DataSize, addend: Qword)
      returns (r: Result<FetchAdd>)
      modifies this, memory
      ensures core >= |old(buffers)| ==> r == Err(OutOfRange) && State(memory) == old(State(memory))
      ensures core < |old(buffers)| ==>
                var (m, seen) := AtomicStep(old(State(memory)), core, address, size, AddTo(addend));
                && State(memory) == m
                && r == match seen case Err(e) => Err(e) case Ok(v) => Ok(FetchAdd(v, (v + addend) % 0x1_0000_0000_0000_0000))
    {
      hide FenceStep, MemoryBus.Load, MemoryBus.Store;
      var fenced := Fence(memory, core);
      if fenced.Err? {
        return Err(fenced.error);
      }
      var observed := memory.Read(address, size.Bytes());
      if observed.Err? {
        return Err(observed.error);
      }
      var newValue := Wrap(observed.value + addend);
      var _ := memory.Write(address, size.Bytes(), newValue);
      return Ok(FetchAdd(observed.value, newValue));
    }
  }
}
