/** Flat physical memory with range-checked little-endian accesses, and the bus in front of it. */
module MemoryBus {
  import opened LittleEndian
  import opened Results

  type Memory = seq<Byte>

  predicate ContainsRange(mem: Memory, address: nat, count: nat)
  {
    address <= |mem| && count <= |mem| - address
  }

  function Load(mem: Memory, address: nat, count: nat): nat
    requires ContainsRange(mem, address, count)
  {
    FromBytes(mem[address..address + count])
  }

  function Store(mem: Memory, address: nat, count: nat, value: nat): (mem': Memory)
    requires ContainsRange(mem, address, count)
    ensures |mem'| == |mem|
  {
    mem[..address] + ToBytes(value, count) + mem[address + count..]
  }

  /** A range is in memory exactly when its end is; loads and stores are little-endian, the lowest byte at the lowest address. */
  lemma AccessIsLittleEndian(mem: Memory, address: nat, count: nat, value: nat)
    ensures ContainsRange(mem, address, count) <==> address + count <= |mem|
    ensures ContainsRange(mem, address, count) && count == 0 ==> Load(mem, address, 0) == 0 && Store(mem, address, 0, value) == mem
    ensures ContainsRange(mem, address, count) && count > 0 ==>
              && Load(mem, address, count) == mem[address] + 256 * Load(mem, address + 1, count - 1)
              && Store(mem, address, count, value) == Store(mem[address := value % 256], address + 1, count - 1, value / 256)
  {
    if address + count <= |mem| && count > 0 {
      assert mem[address..address + count][1..] == mem[address + 1..address + count];
      assert ToBytes(value, count) == [value % 256] + ToBytes(value / 256, count - 1);
      assert mem[address := value % 256][..address + 1] == mem[..address] + [value % 256];
    }
  }

  /** What a store does to every byte of memory. */
  lemma StoreBytes(mem: Memory, address: nat, count: nat, value: nat)
    requires ContainsRange(mem, address, count)
    ensures var mem' := Store(mem, address, count, value);
            forall a :: 0 <= a < |mem| ==>
              mem'[a] == if address <= a < address + count then ByteAt(value, a - address) else mem[a]
  {
    var mem' := Store(mem, address, count, value);
    forall a | 0 <= a < |mem|
      ensures mem'[a] == if address <= a < address + count then ByteAt(value, a - address) else mem[a]
    {
      if address <= a < address + count {
        ToBytesAt(value, count, a - address);
      }
    }
  }

  lemma LoadAfterStore(mem: Memory, address: nat, count: nat, value: nat)
    requires ContainsRange(mem, address, count)
    requires value < Pow256(count)
    ensures Load(Store(mem, address, count, value), address, count) == value
  {
    assert Store(mem, address, count, value)[address..address + count] == ToBytes(value, count);
    DecodeEncode(value, count);
  }

  lemma LoadElsewhere(mem: Memory, address: nat, count: nat, value: nat, other: nat, otherCount: nat)
    requires ContainsRange(mem, address, count) && ContainsRange(mem, other, otherCount)
    requires other + otherCount <= address || address + count <= other
    ensures Load(Store(mem, address, count, value), other, otherCount) == Load(mem, other, otherCount)
  {
    assert Store(mem, address, count, value)[other..other + otherCount] == mem[other..other + otherCount];
  }

  class PhysicalMemory {
    var bytes: Memory

    constructor (size: nat)
      ensures bytes == seq(size, _ => 0)
    {
      bytes := seq(size, _ => 0);
    }

    method Read(address: nat, count: nat) returns (r: Result<nat>)
      ensures ContainsRange(bytes, address, count) ==> r == Ok(Load(bytes, address, count))
      ensures !ContainsRange(bytes, address, count) ==> r == Err(OutOfRange)
    {
      if !ContainsRange(bytes, address, count) {
        return Err(OutOfRange);
      }
      var value: nat, weight: nat := 0, 1;
      for i := 0 to count
        invariant value == FromBytes(bytes[address..address + i]) && weight == Pow256(i)
      {
        FromBytesAppend(bytes[address..address + i], bytes[address + i]);
        assert bytes[address..address + i] + [bytes[address + i]] == bytes[address..address + i + 1];
        value := value + weight * bytes[address + i];
        weight := 256 * weight;
      }
      return Ok(value);
    }

    method Write(address: nat, count: nat, value: nat) returns (r: Result<()>)
      modifies this
      ensures ContainsRange(old(bytes), address, count) ==>
                r == Ok(()) && bytes == Store(old(bytes), address, count, value)
      ensures !ContainsRange(old(bytes), address, count) ==> r == Err(OutOfRange) && bytes == old(bytes)
    {
      if !ContainsRange(bytes, address, count) {
        return Err(OutOfRange);
      }
      var rest := value;
      ghost var was := bytes;
      StoreBytes(bytes, address, count, value);
      for i := 0 to count
        invariant |bytes| == |was|
        invariant forall k: nat :: ByteAt(rest, k) == ByteAt(value, i + k)
        invariant forall a :: 0 <= a < |was| ==>
          bytes[a] == if address <= a < address + i then ByteAt(value, a - address) else was[a]
      {
        assert ByteAt(rest, 0) == ByteAt(value, i + 0);
        bytes := bytes[address + i := rest % 256];
        forall k: nat ensures ByteAt(rest / 256, k) == ByteAt(value, i + 1 + k) {
          assert ByteAt(rest, k + 1) == ByteAt(value, i + (k + 1));
        }
        rest := rest / 256;
      }
      return Ok(());
    }
  }
}
