/** The loader's writes to a new process's stack, byte by byte and downwards. */
module UserStackWriters {
  import opened LittleEndian
  import opened MemoryBus
  import opened Results
  import opened UserStack

  class UserStackWriter {
    const bottom: nat
    var mem: Memory

    constructor (bottom: nat, mem: Memory)
      ensures this.bottom == bottom && this.mem == mem
    {
      this.bottom, this.mem := bottom, mem;
    }

    ghost function State(): Stack
      reads this
    {
      Stack(bottom, mem)
    }

    predicate Inside(address: nat, count: nat)
      reads this
    {
      bottom <= address && address + count <= bottom + |mem|
    }

    method WriteByte(address: nat, b: Byte)
      requires Inside(address, 1)
      modifies this
      ensures mem == old(mem)[address - bottom := b]
    {
      mem := mem[address - bottom := b];
    }

    method WriteQword(address: nat, value: nat)
      requires Inside(address, QWORD)
      modifies this
      ensures mem == Store(old(mem), address - bottom, QWORD, value)
    {
      hide Store;
      ghost var was, at := mem, address - bottom;
      StoreBytes(was, at, QWORD, value);
      var rest := value;
      for i := 0 to QWORD
        invariant |mem| == |was| && forall k: nat :: ByteAt(rest, k) == ByteAt(value, i + k)
        invariant forall a :: 0 <= a < |was| ==> mem[a] == if at <= a < at + i then ByteAt(value, a - at) else was[a]
      {
        assert ByteAt(rest, 0) == ByteAt(value, i + 0);
        WriteByte(address + i, rest % 256);
        forall k: nat ensures ByteAt(rest / 256, k) == ByteAt(value, i + 1 + k) {
          assert ByteAt(rest, k + 1) == ByteAt(value, i + (k + 1));
        }
        rest := rest / 256;
      }
    }

    method WriteCString(address: nat, text: Text)
      requires Inside(address, |text| + 1)
      modifies this
      ensures mem == PutString(old(mem), address - bottom, text)
    {
      ghost var was, at := mem, address - bottom;
      for i := 0 to |text|
        invariant mem == was[..at] + text[..i] + was[at + i..]
      {
        WriteByte(address + i, text[i]);
        assert text[..i + 1] == text[..i] + [text[i]];
      }
      WriteByte(address + |text|, 0);
    }

    /** Strings go down from the cursor, the last one first. */
    method WriteStringsDown(entries: seq<Text>, from: nat) returns (pointers: Option<seq<nat>>, cursor: nat)
      requires bottom <= from <= bottom + |mem|
      modifies this
      ensures var r := WriteStrings(old(State()), entries, from);
              if r.None? then pointers.None?
              else pointers == Some(r.value.pointers) && cursor == r.value.cursor && mem == r.value.mem
      ensures mem == StringsMemory(old(State()), entries, from)
    {
      hide PutString, WriteStrings, Followed, StringsMemory;
      cursor := from;
      var found: seq<nat> := [];
      var n := |entries|;
      ghost var whole := WriteStrings(State(), entries, from);
      ghost var left := StringsMemory(State(), entries, from);
      FollowedByNone(whole);
      assert entries[..n] == entries;
      while n > 0
        invariant 0 <= n <= |entries| && bottom <= cursor <= bottom + |mem|
        invariant whole == Followed(WriteStrings(State(), entries[..n], cursor), found)
        invariant left == StringsMemory(State(), entries[..n], cursor)
      {
        n := n - 1;
        WriteStringsUnfold(State(), entries[..n + 1], cursor);
        StringsMemoryUnfold(State(), entries[..n + 1], cursor);
        assert entries[..n + 1][..n] == entries[..n] && entries[..n + 1][n] == entries[n];
        var place := Subtract(bottom, cursor, |entries[n]| + 1);
        FollowedByMore(None, 0, found);
        if place.None? {
          return None, cursor;
        }
        WriteCString(place.value, entries[n]);
        FollowedByMore(WriteStrings(State(), entries[..n], place.value), place.value, found);
        found := [place.value] + found;
        cursor := place.value;
      }
      WriteStringsUnfold(State(), entries[..0], cursor);
      StringsMemoryUnfold(State(), entries[..0], cursor);
      FollowedIs(mem, found, cursor);
      pointers := Some(found);
    }

    method WriteTable(address: nat, qwords: seq<nat>)
      requires Inside(address, QWORD * |qwords|)
      modifies this
      ensures mem == WriteQwords(old(mem), address - bottom, qwords)
    {
      hide WriteQwords, Store;
      ghost var whole := WriteQwords(mem, address - bottom, qwords);
      assert qwords[0..] == qwords;
      for i := 0 to |qwords|
        invariant |mem| == |old(mem)| && WriteQwords(mem, address - bottom + QWORD * i, qwords[i..]) == whole
      {
        assert qwords[i..][1..] == qwords[i + 1..] && qwords[i..][0] == qwords[i];
        WriteQwordsUnfold(mem, address - bottom + QWORD * i, qwords[i..]);
        WriteQword(address + QWORD * i, qwords[i]);
      }
      WriteQwordsUnfold(mem, address - bottom + QWORD * |qwords|, qwords[|qwords|..]);
    }

    /** write_initial_user_stack. */
    method WriteInitial(args: seq<Text>, env: seq<Text>) returns (r: Result<nat>)
      requires Shaped(State())
      modifies this
      ensures match WriteInitialStack(old(State()), args, env)
              case Err(error) => r == Err(error)
              case Ok(w) => r == Ok(w.pointer)
      ensures mem == StackMemory(old(State()), args, env)
    {
      hide WriteStrings, FrameStart, WriteQwords, Table, StringsMemory;
      StringsMemoryIs(State(), env, STACK_TOP);
      var envp, cursor := WriteStringsDown(env, STACK_TOP);
      if envp.None? {
        return Err(LengthError);
      }
      var argv, low := WriteStringsDown(args, cursor);
      if argv.None? {
        return Err(LengthError);
      }
      var slots := |args| + |env| + 3;
      FrameInside(bottom, low, slots);
      var frame := FrameStart(bottom, low, slots);
      if frame.None? {
        return Err(LengthError);
      }
      TableEntries(argv.value, envp.value);
      WriteTable(frame.value, Table(argv.value, envp.value));
      return Ok(frame.value);
    }
  }

  /** The strings of a shorter list with pointers that follow. */
  ghost function Followed(r: Option<Strings>, found: seq<nat>): Option<Strings>
  {
    if r.None? then None else Some(Strings(r.value.mem, r.value.pointers + found, r.value.cursor))
  }

  lemma StringsMemoryUnfold(s: Stack, entries: seq<Text>, cursor: nat)
    requires s.bottom <= cursor <= s.bottom + |s.mem|
    ensures StringsMemory(s, entries, cursor) ==
            if entries == [] then s.mem
            else
              var last := entries[|entries| - 1];
              if |last| + 1 > cursor - s.bottom then s.mem
              else
                var at := cursor - (|last| + 1);
                StringsMemory(s.(mem := PutString(s.mem, at - s.bottom, last)), entries[..|entries| - 1], at)
  {
  }

  lemma FollowedByNone(r: Option<Strings>)
    ensures Followed(r, []) == r
  {
    assert r.Some? ==> r.value.pointers + [] == r.value.pointers;
  }

  lemma FollowedByMore(rest: Option<Strings>, at: nat, found: seq<nat>)
    ensures rest.None? ==> Followed(rest, found) == None
    ensures Followed(rest, [at] + found) ==
            Followed(if rest.None? then None else Some(Strings(rest.value.mem, rest.value.pointers + [at], rest.value.cursor)), found)
  {
    assert rest.Some? ==> (rest.value.pointers + [at]) + found == rest.value.pointers + ([at] + found);
  }

  lemma FollowedIs(mem: Memory, found: seq<nat>, cursor: nat)
    ensures Followed(Some(Strings(mem, [], cursor)), found) == Some(Strings(mem, found, cursor))
  {
    assert [] + found == found;
  }

  lemma WriteQwordsUnfold(mem: Memory, at: nat, qwords: seq<nat>)
    requires at + QWORD * |qwords| <= |mem|
    ensures WriteQwords(mem, at, qwords) ==
            if qwords == [] then mem else WriteQwords(Store(mem, at, QWORD, qwords[0]), at + QWORD, qwords[1..])
  {
  }
}
