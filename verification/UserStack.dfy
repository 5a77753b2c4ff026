/** The initial user stack: strings at the top, below them argc, argv, NULL, envp, NULL. */
module UserStack {
  import opened LittleEndian
  import opened MemoryBus
  import opened Results

  const STACK_TOP := 0x0000_7000_0000_0000
  const QWORD := 8
  const ALIGNMENT := 16

  type Text = seq<Byte>

  /** The stack's virtual bytes; the byte at address bottom + i is mem[i]. */
  datatype Stack = Stack(bottom: nat, mem: Memory)

  ghost predicate Shaped(s: Stack)
  {
    s.bottom + |s.mem| == STACK_TOP
  }

  // ---------- Writing ----------

  function PutString(mem: Memory, at: nat, text: Text): (mem': Memory)
    requires at + |text| + 1 <= |mem|
    ensures |mem'| == |mem|
  {
    mem[..at] + text + [0] + mem[at + |text| + 1..]
  }

  datatype Strings = Strings(mem: Memory, pointers: seq<nat>, cursor: nat)

  function Subtract(bottom: nat, cursor: nat, count: nat): Option<nat>
  {
    if cursor < bottom || count > cursor - bottom then None else Some(cursor - count)
  }

  /** Strings go down from the cursor, the last entry first; None when one does not fit. */
  function WriteStrings(s: Stack, entries: seq<Text>, cursor: nat): (r: Option<Strings>)
    requires s.bottom <= cursor <= s.bottom + |s.mem|
    ensures r.Some? ==> |r.value.mem| == |s.mem| && s.bottom <= r.value.cursor <= cursor && |r.value.pointers| == |entries|
    decreases |entries|
  {
    if entries == [] then Some(Strings(s.mem, [], cursor))
    else
      var last := entries[|entries| - 1];
      match Subtract(s.bottom, cursor, |last| + 1)
      case None => None
      case Some(at) =>
        var mem1 := PutString(s.mem, at - s.bottom, last);
        match WriteStrings(s.(mem := mem1), entries[..|entries| - 1], at)
        case None => None
        case Some(rest) => Some(Strings(rest.mem, rest.pointers + [at], rest.cursor))
  }

  /** The memory that the string loop leaves, also when it stops at a string that does not fit. */
  function StringsMemory(s: Stack, entries: seq<Text>, cursor: nat): (mem: Memory)
    requires s.bottom <= cursor <= s.bottom + |s.mem|
    ensures |mem| == |s.mem|
    decreases |entries|
  {
    if entries == [] then s.mem
    else
      var last := entries[|entries| - 1];
      match Subtract(s.bottom, cursor, |last| + 1)
      case None => s.mem
      case Some(at) => StringsMemory(s.(mem := PutString(s.mem, at - s.bottom, last)), entries[..|entries| - 1], at)
  }

  /** When every string fits, that is the memory with all of them written. */
  lemma {:induction false} StringsMemoryIs(s: Stack, entries: seq<Text>, cursor: nat)
    requires s.bottom <= cursor <= s.bottom + |s.mem|
    ensures WriteStrings(s, entries, cursor).Some? ==> WriteStrings(s, entries, cursor).value.mem == StringsMemory(s, entries, cursor)
    decreases |entries|
  {
    hide PutString;
    if entries != [] {
      var last := entries[|entries| - 1];
      var place := Subtract(s.bottom, cursor, |last| + 1);
      if place.Some? {
        StringsMemoryIs(s.(mem := PutString(s.mem, place.value - s.bottom, last)), entries[..|entries| - 1], place.value);
      }
    }
  }

  function WriteQwords(mem: Memory, at: nat, qwords: seq<nat>): (mem': Memory)
    requires at + QWORD * |qwords| <= |mem|
    ensures |mem'| == |mem|
    decreases |qwords|
  {
    if qwords == [] then mem
    else WriteQwords(Store(mem, at, QWORD, qwords[0]), at + QWORD, qwords[1..])
  }

  function Table(args: seq<nat>, env: seq<nat>): seq<nat>
  {
    [|args|] + args + [0] + env + [0]
  }

  function AlignDown(value: nat): nat
  {
    value - value % ALIGNMENT
  }

  /** Where the table starts: below the strings, aligned down, and still inside the stack. */
  function FrameStart(bottom: nat, cursor: nat, slots: nat): Option<nat>
  {
    match Subtract(bottom, cursor, QWORD * slots)
    case None => None
    case Some(raw) => if AlignDown(raw) < bottom then None else Some(AlignDown(raw))
  }

  /** Environment strings first, then the argument strings below them. */
  function PlaceAll(s: Stack, args: seq<Text>, env: seq<Text>): (r: Option<(Strings, Strings)>)
    requires Shaped(s)
    ensures r.Some? ==>
              var (e, a) := r.value; |a.mem| == |s.mem| && |e.pointers| == |env| && |a.pointers| == |args| && a.cursor <= STACK_TOP
  {
    match WriteStrings(s, env, STACK_TOP)
    case None => None
    case Some(e) =>
      match WriteStrings(s.(mem := e.mem), args, e.cursor)
      case None => None
      case Some(a) => Some((e, a))
  }

  /** The finished stack bytes and the stack pointer. */
  datatype Written = Written(mem: Memory, pointer: nat)

  /** write_initial_user_stack: the stack, or LengthError when the arguments do not fit. */
  function WriteInitialStack(s: Stack, args: seq<Text>, env: seq<Text>): Result<Written>
    requires Shaped(s)
  {
    match PlaceAll(s, args, env)
    case None => Err(LengthError)
    case Some((e, a)) =>
      match FrameStart(s.bottom, a.cursor, |args| + |env| + 3)
      case None => Err(LengthError)
      case Some(frame) =>
        FrameInside(s.bottom, a.cursor, |args| + |env| + 3);
        Ok(Written(WriteQwords(a.mem, frame - s.bottom, Table(a.pointers, e.pointers)), frame))
  }

  /** The memory that write_initial_user_stack leaves, also when it throws: then the strings that fitted, and no table. */
  function StackMemory(s: Stack, args: seq<Text>, env: seq<Text>): Memory
    requires Shaped(s)
  {
    match WriteInitialStack(s, args, env)
    case Ok(w) => w.mem
    case Err(_) =>
      var first := StringsMemory(s, env, STACK_TOP);
      match WriteStrings(s, env, STACK_TOP)
      case None => first
      case Some(e) => StringsMemory(s.(mem := first), args, e.cursor)
  }

  lemma FrameInside(bottom: nat, cursor: nat, slots: nat)
    ensures FrameStart(bottom, cursor, slots).Some? <==>
            bottom <= cursor && QWORD * slots <= cursor - bottom && AlignDown(cursor - QWORD * slots) >= bottom
    ensures FrameStart(bottom, cursor, slots).Some? ==>
              var frame := FrameStart(bottom, cursor, slots).value;
              && frame == AlignDown(cursor - QWORD * slots) && frame % ALIGNMENT == 0
              && bottom <= frame && frame + QWORD * slots <= cursor
  {
  }

  // ---------- Reading, as a program's start-up code does ----------

  /** The bytes from a position up to the first zero. */
  function ReadString(mem: Memory, at: nat): Text
    decreases |mem| - at
  {
    if at >= |mem| || mem[at] == 0 then [] else [mem[at]] + ReadString(mem, at + 1)
  }

  function ReadQword(mem: Memory, at: nat): nat
  {
    if at + 8 <= |mem| then Load(mem, at, 8) else 0
  }

  /** The strings behind n pointers from a position on. */
  function ReadPointers(s: Stack, at: nat, n: nat): seq<Text>
    decreases n
  {
    if n == 0 then []
    else
      var p := ReadQword(s.mem, at);
      [if p >= s.bottom then ReadString(s.mem, p - s.bottom) else []] + ReadPointers(s, at + 8, n - 1)
  }

  /** The number of pointers before the first NULL. */
  function CountPointers(mem: Memory, at: nat): nat
    decreases |mem| - at
  {
    if at >= |mem| || ReadQword(mem, at) == 0 then 0 else 1 + CountPointers(mem, at + 8)
  }

  datatype Start = Start(argc: nat, args: seq<Text>, env: seq<Text>)

  /** What a program finds from its stack pointer on: argc, then argv up to its NULL, then envp up to its NULL. */
  function Decode(s: Stack, pointer: nat): Start
    requires pointer >= s.bottom
  {
    var at := pointer - s.bottom;
    var argvAt := at + 8;
    var n := CountPointers(s.mem, argvAt);
    var envAt := argvAt + 8 * (n + 1);
    Start(ReadQword(s.mem, at), ReadPointers(s, argvAt, n), ReadPointers(s, envAt, CountPointers(s.mem, envAt)))
  }

  // ---------- Strings ----------

  function TotalSize(entries: seq<Text>): nat
  {
    if entries == [] then 0 else TotalSize(entries[..|entries| - 1]) + |entries[|entries| - 1]| + 1
  }

  ghost predicate StringAt(mem: Memory, at: nat, text: Text)
  {
    at + |text| < |mem| && mem[at..at + |text|] == text && mem[at + |text|] == 0
  }

  /** Two memories agree outside a range. */
  ghost predicate SameOutside(mem: Memory, mem': Memory, lo: nat, hi: nat)
  {
    |mem'| == |mem| && forall x :: 0 <= x < |mem| && (x < lo || hi <= x) ==> mem'[x] == mem[x]
  }

  lemma PutStringEffect(mem: Memory, at: nat, text: Text)
    requires at + |text| + 1 <= |mem|
    ensures StringAt(PutString(mem, at, text), at, text)
    ensures SameOutside(mem, PutString(mem, at, text), at, at + |text| + 1)
  {
  }

  lemma StringStays(mem: Memory, mem': Memory, lo: nat, hi: nat, at: nat, text: Text)
    requires StringAt(mem, at, text) && SameOutside(mem, mem', lo, hi) && (at + |text| < lo || hi <= at)
    ensures StringAt(mem', at, text)
  {
    assert forall x :: at <= x < at + |text| ==> mem'[x] == mem[x];
    assert mem'[at..at + |text|] == mem[at..at + |text|];
  }

  /** Each string lies where its pointer says, in order, between the new cursor and the old. */
  ghost predicate Placed(bottom: nat, mem: Memory, entries: seq<Text>, pointers: seq<nat>, lo: nat, hi: nat)
  {
    && |pointers| == |entries|
    && (forall i :: 0 <= i < |entries| ==>
          bottom <= lo <= pointers[i] && pointers[i] + |entries[i]| + 1 <= hi && StringAt(mem, pointers[i] - bottom, entries[i]))
    && (forall i, j :: 0 <= i < j < |entries| ==> pointers[i] + |entries[i]| + 1 <= pointers[j])
  }

  lemma PlacedStays(bottom: nat, mem: Memory, mem': Memory, entries: seq<Text>, pointers: seq<nat>, lo: nat, hi: nat, from: nat, to: nat)
    requires Placed(bottom, mem, entries, pointers, lo, hi) && SameOutside(mem, mem', from, to)
    requires bottom <= lo && (to <= lo - bottom || hi <= bottom + from)
    ensures Placed(bottom, mem', entries, pointers, lo, hi)
  {
    forall i | 0 <= i < |entries| ensures StringAt(mem', pointers[i] - bottom, entries[i]) {
      StringStays(mem, mem', from, to, pointers[i] - bottom, entries[i]);
    }
  }

  /** Strings fit exactly when their bytes do, and then fill the space below the cursor without touching anything else. */
  lemma {:induction false} WriteStringsEffect(s: Stack, entries: seq<Text>, cursor: nat)
    requires s.bottom <= cursor <= s.bottom + |s.mem|
    ensures WriteStrings(s, entries, cursor).Some? <==> TotalSize(entries) <= cursor - s.bottom
    ensures WriteStrings(s, entries, cursor).Some? ==>
              var r := WriteStrings(s, entries, cursor).value;
              && r.cursor == cursor - TotalSize(entries)
              && Placed(s.bottom, r.mem, entries, r.pointers, r.cursor, cursor)
              && SameOutside(s.mem, r.mem, r.cursor - s.bottom, cursor - s.bottom)
    decreases |entries|
  {
    hide WriteStrings, TotalSize, PutString, StringAt, Placed, SameOutside;
    WriteStringsUnfold(s, entries, cursor);
    TotalUnfold(entries);
    if entries == [] {
      NothingPlaced(s, cursor);
    } else {
      var n := |entries| - 1;
      var last := entries[n];
      if |last| + 1 <= cursor - s.bottom {
        var at := cursor - (|last| + 1);
        var s1 := s.(mem := PutString(s.mem, at - s.bottom, last));
        PutStringEffect(s.mem, at - s.bottom, last);
        WriteStringsEffect(s1, entries[..n], at);
        if WriteStrings(s1, entries[..n], at).Some? {
          var rest := WriteStrings(s1, entries[..n], at).value;
          StringStays(s1.mem, rest.mem, rest.cursor - s.bottom, at - s.bottom, at - s.bottom, last);
          PlacedAppend(s.bottom, rest.mem, entries, rest.pointers, rest.cursor, at, cursor);
          OutsideTrans(s.mem, s1.mem, rest.mem, rest.cursor - s.bottom, at - s.bottom, cursor - s.bottom);
        }
      }
    }
  }

  lemma WriteStringsUnfold(s: Stack, entries: seq<Text>, cursor: nat)
    requires s.bottom <= cursor <= s.bottom + |s.mem|
    ensures entries == [] ==> WriteStrings(s, entries, cursor) == Some(Strings(s.mem, [], cursor))
    ensures entries != [] ==>
              var last := entries[|entries| - 1];
              if |last| + 1 > cursor - s.bottom then WriteStrings(s, entries, cursor).None?
              else
                var at := cursor - (|last| + 1);
                var rest := WriteStrings(s.(mem := PutString(s.mem, at - s.bottom, last)), entries[..|entries| - 1], at);
                WriteStrings(s, entries, cursor)
                == if rest.None? then None else Some(Strings(rest.value.mem, rest.value.pointers + [at], rest.value.cursor))
  {
  }

  lemma TotalUnfold(entries: seq<Text>)
    ensures TotalSize(entries) == if entries == [] then 0 else TotalSize(entries[..|entries| - 1]) + |entries[|entries| - 1]| + 1
  {
  }

  lemma NothingPlaced(s: Stack, cursor: nat)
    requires s.bottom <= cursor <= s.bottom + |s.mem|
    ensures Placed(s.bottom, s.mem, [], [], cursor, cursor) && SameOutside(s.mem, s.mem, cursor - s.bottom, cursor - s.bottom)
  {
  }

  lemma PlacedAppend(bottom: nat, mem: Memory, entries: seq<Text>, pointers: seq<nat>, lo: nat, at: nat, hi: nat)
    requires entries != [] && bottom <= lo <= at && at + |entries[|entries| - 1]| + 1 == hi
    requires Placed(bottom, mem, entries[..|entries| - 1], pointers, lo, at) && StringAt(mem, at - bottom, entries[|entries| - 1])
    ensures Placed(bottom, mem, entries, pointers + [at], lo, hi)
  {
    hide StringAt;
    var n := |entries| - 1;
    var all := pointers + [at];
    forall i | 0 <= i < |entries|
      ensures lo <= all[i] && all[i] + |entries[i]| + 1 <= hi && StringAt(mem, all[i] - bottom, entries[i])
    {
      if i < n { assert entries[..n][i] == entries[i]; }
    }
    forall i, j | 0 <= i < j < |entries| ensures all[i] + |entries[i]| + 1 <= all[j] {
      assert entries[..n][i] == entries[i];
      if j < n { assert entries[..n][j] == entries[j]; }
    }
  }

  lemma OutsideTrans(mem: Memory, mem1: Memory, mem2: Memory, lo: nat, mid: nat, hi: nat)
    requires SameOutside(mem, mem1, mid, hi) && SameOutside(mem1, mem2, lo, mid) && lo <= mid <= hi
    ensures SameOutside(mem, mem2, lo, hi)
  {
  }

  // ---------- The pointer table ----------

  lemma {:induction false} WriteQwordsEffect(mem: Memory, at: nat, qwords: seq<nat>)
    requires at + QWORD * |qwords| <= |mem| && forall i :: 0 <= i < |qwords| ==> qwords[i] < Pow256(8)
    ensures TableHolds(WriteQwords(mem, at, qwords), at, qwords)
    ensures SameOutside(mem, WriteQwords(mem, at, qwords), at, at + QWORD * |qwords|)
    decreases |qwords|
  {
    if qwords != [] {
      var mem1 := Store(mem, at, QWORD, qwords[0]);
      var mem2 := WriteQwords(mem, at, qwords);
      StoreOutside(mem, at, qwords[0]);
      WriteQwordsEffect(mem1, at + QWORD, qwords[1..]);
      LoadAfterStore(mem, at, QWORD, qwords[0]);
      hide Load, Store, Pow256;
      assert mem2 == WriteQwords(mem1, at + QWORD, qwords[1..]);
      forall i: nat | i < |qwords| ensures ReadQword(mem2, Slot(at, i)) == qwords[i] {
        if i == 0 {
          LoadStays(mem1, mem2, at + QWORD, at + QWORD * |qwords|, at);
        } else {
          assert Slot(at, i) == Slot(at + QWORD, i - 1) && qwords[1..][i - 1] == qwords[i];
        }
      }
    }
  }

  /** Position of the i-th qword of a table. */
  function Slot(at: nat, i: nat): nat
  {
    at + QWORD * i
  }

  lemma StoreOutside(mem: Memory, at: nat, value: nat)
    requires at + QWORD <= |mem|
    ensures SameOutside(mem, Store(mem, at, QWORD, value), at, at + QWORD)
  {
  }

  lemma LoadStays(mem: Memory, mem': Memory, lo: nat, hi: nat, at: nat)
    requires SameOutside(mem, mem', lo, hi) && at + QWORD <= |mem| && (at + QWORD <= lo || hi <= at)
    ensures Load(mem', at, QWORD) == Load(mem, at, QWORD)
  {
    assert mem'[at..at + QWORD] == mem[at..at + QWORD];
  }

  // ---------- Reading back ----------

  lemma {:induction false} ReadBack(mem: Memory, at: nat, text: Text)
    requires StringAt(mem, at, text) && 0 !in text
    ensures ReadString(mem, at) == text
    decreases |text|
  {
    if text != [] {
      assert mem[at] == mem[at..at + |text|][0] == text[0];
      assert mem[at + 1..at + 1 + |text[1..]|] == text[1..];
      ReadBack(mem, at + 1, text[1..]);
    }
  }

  ghost predicate NulFree(entries: seq<Text>)
  {
    forall i :: 0 <= i < |entries| ==> 0 !in entries[i]
  }

  lemma {:induction false} PointersReadBack(s: Stack, entries: seq<Text>, pointers: seq<nat>, at: nat, lo: nat, hi: nat)
    requires Placed(s.bottom, s.mem, entries, pointers, lo, hi) && NulFree(entries) && |pointers| == |entries|
    requires TableHolds(s.mem, at, pointers)
    ensures ReadPointers(s, at, |entries|) == entries
    decreases |entries|
  {
    hide ReadQword, ReadString, StringAt, TableHolds, Placed, NulFree;
    if entries != [] {
      FirstReadsBack(s, entries, pointers, at, lo, hi);
      PlacedTail(s, entries, pointers, lo, hi);
      TableTail(s.mem, at, pointers);
      PointersReadBack(s, entries[1..], pointers[1..], at + QWORD, lo, hi);
      assert entries == [entries[0]] + entries[1..];
    }
  }

  /** The qwords of a table, read one by one. */
  ghost predicate TableHolds(mem: Memory, at: nat, table: seq<nat>)
  {
    forall i: nat :: i < |table| ==> ReadQword(mem, Slot(at, i)) == table[i]
  }

  lemma TableTail(mem: Memory, at: nat, table: seq<nat>)
    requires TableHolds(mem, at, table) && table != []
    ensures TableHolds(mem, at + QWORD, table[1..])
  {
    hide ReadQword;
    forall i: nat | i < |table[1..]| ensures ReadQword(mem, Slot(at + QWORD, i)) == table[1..][i] {
      assert Slot(at + QWORD, i) == Slot(at, i + 1);
    }
  }

  lemma FirstReadsBack(s: Stack, entries: seq<Text>, pointers: seq<nat>, at: nat, lo: nat, hi: nat)
    requires Placed(s.bottom, s.mem, entries, pointers, lo, hi) && NulFree(entries) && entries != [] && |pointers| == |entries|
    requires TableHolds(s.mem, at, pointers)
    ensures var p := ReadQword(s.mem, at); p >= s.bottom && ReadString(s.mem, p - s.bottom) == entries[0]
  {
    hide ReadQword, StringAt, ReadString;
    assert Slot(at, 0) == at;
    ReadBack(s.mem, pointers[0] - s.bottom, entries[0]);
  }

  lemma PlacedTail(s: Stack, entries: seq<Text>, pointers: seq<nat>, lo: nat, hi: nat)
    requires Placed(s.bottom, s.mem, entries, pointers, lo, hi) && entries != []
    ensures NulFree(entries) ==> NulFree(entries[1..])
    ensures Placed(s.bottom, s.mem, entries[1..], pointers[1..], lo, hi) && |pointers| == |entries|
  {
    hide StringAt;
  }

  lemma {:induction false} CountsPointers(mem: Memory, at: nat, pointers: seq<nat>)
    requires at + QWORD * |pointers| < |mem| && TableHolds(mem, at, pointers + [0])
    requires forall i :: 0 <= i < |pointers| ==> pointers[i] > 0
    ensures CountPointers(mem, at) == |pointers|
    decreases |pointers|
  {
    hide ReadQword;
    assert Slot(at, 0) == at;
    assert ReadQword(mem, at) == (pointers + [0])[0];
    if pointers != [] {
      TableTail(mem, at, pointers + [0]);
      assert (pointers + [0])[1..] == pointers[1..] + [0];
      CountsPointers(mem, at + QWORD, pointers[1..]);
    }
  }

  // ---------- The theorem ----------

  /** The bytes below the top that strings and table take. */
  function Needed(args: seq<Text>, env: seq<Text>): nat
  {
    TotalSize(args) + TotalSize(env) + 8 * (|args| + |env| + 3)
  }

  /** Everything about the stack before the table is written. */
  ghost predicate Prepared(s: Stack, args: seq<Text>, env: seq<Text>, a: Strings, e: Strings)
  {
    && |a.mem| == |s.mem| && s.bottom <= a.cursor <= e.cursor <= STACK_TOP
    && a.cursor == STACK_TOP - TotalSize(env) - TotalSize(args)
    && Placed(s.bottom, a.mem, args, a.pointers, a.cursor, e.cursor)
    && Placed(s.bottom, a.mem, env, e.pointers, e.cursor, STACK_TOP)
  }

  lemma StringsPrepared(s: Stack, args: seq<Text>, env: seq<Text>)
    requires Shaped(s)
    ensures PlaceAll(s, args, env).Some? <==> TotalSize(args) + TotalSize(env) <= |s.mem|
    ensures PlaceAll(s, args, env).Some? ==>
              var (e, a) := PlaceAll(s, args, env).value; Prepared(s, args, env, a, e)
  {
    hide WriteStrings, Placed, SameOutside, TotalSize;
    WriteStringsEffect(s, env, STACK_TOP);
    var e := WriteStrings(s, env, STACK_TOP);
    if e.Some? {
      var s1 := s.(mem := e.value.mem);
      WriteStringsEffect(s1, args, e.value.cursor);
      var a := WriteStrings(s1, args, e.value.cursor);
      if a.Some? {
        PlacedStays(s.bottom, e.value.mem, a.value.mem, env, e.value.pointers, e.value.cursor, STACK_TOP,
                    a.value.cursor - s.bottom, e.value.cursor - s.bottom);
      }
    }
  }

  /** A stack pointer that is aligned to 16 bytes, lies in the stack, and has the needed bytes above it. */
  ghost predicate FitsAt(s: Stack, args: seq<Text>, env: seq<Text>, pointer: nat)
  {
    pointer % 16 == 0 && s.bottom <= pointer && pointer + Needed(args, env) <= 0x7000_0000_0000
  }

  /** The arguments fit exactly when there is such a stack pointer, and the one returned is the highest. */
  lemma FitsIff(s: Stack, args: seq<Text>, env: seq<Text>)
    requires Shaped(s)
    ensures var r := WriteInitialStack(s, args, env);
            && (r.Ok? <==> exists pointer: nat :: FitsAt(s, args, env, pointer))
            && (r.Ok? ==> FitsAt(s, args, env, r.value.pointer))
            && (r.Ok? ==> forall pointer: nat :: FitsAt(s, args, env, pointer) ==> pointer <= r.value.pointer)
            && (r.Err? ==> r.error == LengthError)
  {
    PointerIsAligned(s, args, env);
    forall pointer: nat | FitsAt(s, args, env, pointer)
      ensures pointer <= AlignDown(STACK_TOP - Needed(args, env))
    {
      AlignDownIsHighest(STACK_TOP - Needed(args, env), pointer);
    }
    if Needed(args, env) <= STACK_TOP {
      AlignDownIsHighest(STACK_TOP - Needed(args, env), 0);
    }
    hide WriteInitialStack, Needed, AlignDown;
    var r := WriteInitialStack(s, args, env);
    if r.Ok? {
      assert FitsAt(s, args, env, r.value.pointer);
    }
  }

  lemma AlignDownIsHighest(value: nat, p: nat)
    requires p % 16 == 0
    ensures AlignDown(value) % 16 == 0 && AlignDown(value) <= value && (p <= value ==> p <= AlignDown(value))
  {
  }

  lemma PointerIsAligned(s: Stack, args: seq<Text>, env: seq<Text>)
    requires Shaped(s)
    ensures WriteInitialStack(s, args, env).Ok? <==>
            Needed(args, env) <= |s.mem| && AlignDown(STACK_TOP - Needed(args, env)) >= s.bottom
    ensures WriteInitialStack(s, args, env).Ok? ==>
              WriteInitialStack(s, args, env).value.pointer == AlignDown(STACK_TOP - Needed(args, env))
    ensures WriteInitialStack(s, args, env).Err? ==> WriteInitialStack(s, args, env).error == LengthError
  {
    hide PlaceAll, Placed, TotalSize, WriteQwords, AlignDown, Table, FrameStart;
    StringsPrepared(s, args, env);
    if PlaceAll(s, args, env).Some? {
      FrameInside(s.bottom, PlaceAll(s, args, env).value.1.cursor, |args| + |env| + 3);
    }
  }

  lemma TableEntries(args: seq<nat>, env: seq<nat>)
    ensures var t := Table(args, env);
            && |t| == |args| + |env| + 3 && t[0] == |args| && t[|args| + 1] == 0 && t[|args| + |env| + 2] == 0
            && (forall i :: 0 <= i < |args| ==> t[i + 1] == args[i])
            && (forall i :: 0 <= i < |env| ==> t[|args| + 2 + i] == env[i])
  {
  }

  lemma TableBounded(s: Stack, args: seq<Text>, env: seq<Text>, a: Strings, e: Strings)
    requires Prepared(s, args, env, a, e) && QWORD * (|args| + |env| + 3) <= a.cursor
    ensures forall i :: 0 <= i < |Table(a.pointers, e.pointers)| ==> Table(a.pointers, e.pointers)[i] < Pow256(8)
  {
    assert Pow256(8) == 0x1_0000_0000_0000_0000 by { BigPower(); }
    hide Pow256, StringAt, TotalSize;
    TableEntries(a.pointers, e.pointers);
  }

  lemma BigPower()
    ensures Pow256(8) == 0x1_0000_0000_0000_0000
  {
    assert Pow256(4) == 256 * Pow256(3) && Pow256(5) == 256 * Pow256(4) && Pow256(6) == 256 * Pow256(5) && Pow256(7) == 256 * Pow256(6);
  }

  /** The finished stack: the table reads as written and the strings are untouched. */
  lemma Finished(s: Stack, args: seq<Text>, env: seq<Text>, a: Strings, e: Strings, frame: nat)
    requires Prepared(s, args, env, a, e) && Shaped(s) && s.bottom <= frame && frame + QWORD * (|args| + |env| + 3) <= a.cursor
    requires NulFree(args) && NulFree(env)
    ensures frame - s.bottom + QWORD * |Table(a.pointers, e.pointers)| <= |a.mem|
    ensures var s' := s.(mem := WriteQwords(a.mem, frame - s.bottom, Table(a.pointers, e.pointers)));
            Decode(s', frame) == Start(|args|, args, env) && LaidOut(s', frame, args, env)
  {
    var at, table := frame - s.bottom, Table(a.pointers, e.pointers);
    TableEntries(a.pointers, e.pointers);
    TableBounded(s, args, env, a, e);
    hide TotalSize, Pow256, Table;
    var mem := WriteQwords(a.mem, at, table);
    WriteQwordsEffect(a.mem, at, table);
    hide WriteQwords;
    PlacedStays(s.bottom, a.mem, mem, args, a.pointers, a.cursor, e.cursor, at, at + QWORD * |table|);
    PlacedStays(s.bottom, a.mem, mem, env, e.pointers, e.cursor, STACK_TOP, at, at + QWORD * |table|);
    TableDecodes(s.(mem := mem), args, env, a.pointers, e.pointers, a.cursor, e.cursor, frame);
    TableIsLaidOut(s.(mem := mem), args, env, a.pointers, e.pointers, a.cursor, e.cursor, frame);
  }

  /** The pointers that stand in a table from a position on. */
  ghost function PointersAt(mem: Memory, at: nat, n: nat): (p: seq<nat>)
    ensures |p| == n && forall i: nat :: i < n ==> p[i] == ReadQword(mem, Slot(at, i))
  {
    seq(n, i requires 0 <= i < n => ReadQword(mem, Slot(at, i)))
  }

  /**
   The whole layout: argc, argv, NULL, envp and NULL in consecutive slots inside the stack, and above
   the table, in order and without overlap, the strings that the pointers name, all inside the stack.
   */
  ghost predicate LaidOut(s: Stack, pointer: nat, args: seq<Text>, env: seq<Text>)
  {
    var end := pointer + 8 * (|args| + |env| + 3);
    && s.bottom <= pointer && end <= STACK_TOP == s.bottom + |s.mem|
    && var at := pointer - s.bottom;
    && ReadQword(s.mem, at) == |args|
    && ReadQword(s.mem, at + 8 * (|args| + 1)) == 0
    && ReadQword(s.mem, at + 8 * (|args| + |env| + 2)) == 0
    && Placed(s.bottom, s.mem, args + env,
              PointersAt(s.mem, at + 8, |args|) + PointersAt(s.mem, at + 8 * (|args| + 2), |env|), end, STACK_TOP)
  }

  lemma PlacedJoin(bottom: nat, mem: Memory, args: seq<Text>, argv: seq<nat>, env: seq<Text>, envp: seq<nat>, end: nat, lo: nat, mid: nat, hi: nat)
    requires Placed(bottom, mem, args, argv, lo, mid) && Placed(bottom, mem, env, envp, mid, hi)
    requires bottom <= end <= lo <= mid <= hi
    ensures Placed(bottom, mem, args + env, argv + envp, end, hi)
  {
    hide StringAt;
    var texts, pointers := args + env, argv + envp;
    forall i | 0 <= i < |texts|
      ensures end <= pointers[i] && pointers[i] + |texts[i]| + 1 <= hi && StringAt(mem, pointers[i] - bottom, texts[i])
    {
      if i >= |args| { assert texts[i] == env[i - |args|] && pointers[i] == envp[i - |args|]; }
    }
    forall i, j | 0 <= i < j < |texts| ensures pointers[i] + |texts[i]| + 1 <= pointers[j] {
      if j >= |args| { assert texts[j] == env[j - |args|] && pointers[j] == envp[j - |args|]; }
      if i >= |args| { assert texts[i] == env[i - |args|] && pointers[i] == envp[i - |args|]; }
    }
  }

  lemma TableIsLaidOut(s: Stack, args: seq<Text>, env: seq<Text>, argv: seq<nat>, envp: seq<nat>, lo: nat, mid: nat, frame: nat)
    requires s.bottom <= frame && frame + QWORD * (|args| + |env| + 3) <= lo <= mid <= STACK_TOP == s.bottom + |s.mem|
    requires Placed(s.bottom, s.mem, args, argv, lo, mid) && Placed(s.bottom, s.mem, env, envp, mid, STACK_TOP)
    requires |argv| == |args| && |envp| == |env|
    requires TableHolds(s.mem, frame - s.bottom, Table(argv, envp))
    ensures LaidOut(s, frame, args, env)
  {
    var at, t := frame - s.bottom, Table(argv, envp);
    hide ReadQword, Placed, TableHolds;
    var n := |argv| + 2;
    var m := |argv| + |envp| + 2;
    assert t[0..1] == [|argv|] && t[1..1 + |argv|] == argv && t[n..n + |envp|] == envp && t[n - 1..n] == [0] && t[m..m + 1] == [0];
    hide Table;
    TablePart(s.mem, at, t, 0, [|argv|]);
    TablePart(s.mem, at, t, 1, argv);
    TablePart(s.mem, at, t, n - 1, [0]);
    TablePart(s.mem, at, t, n, envp);
    TablePart(s.mem, at, t, m, [0]);
    OneQword(s.mem, at, |argv|);
    OneQword(s.mem, at + QWORD * (n - 1), 0);
    OneQword(s.mem, at + QWORD * m, 0);
    HoldsPointers(s.mem, at + QWORD, argv);
    HoldsPointers(s.mem, at + QWORD * n, envp);
    PlacedJoin(s.bottom, s.mem, args, argv, env, envp, frame + QWORD * (|args| + |env| + 3), lo, mid, STACK_TOP);
  }

  lemma HoldsPointers(mem: Memory, at: nat, pointers: seq<nat>)
    requires TableHolds(mem, at, pointers)
    ensures PointersAt(mem, at, |pointers|) == pointers
  {
  }

  /** Part of a table, from entry k on, read as its own table. */
  lemma TablePart(mem: Memory, at: nat, t: seq<nat>, k: nat, part: seq<nat>)
    requires TableHolds(mem, at, t)
    requires k + |part| <= |t| && part == t[k..k + |part|]
    ensures TableHolds(mem, at + QWORD * k, part)
  {
    hide ReadQword;
    forall i: nat | i < |part| ensures ReadQword(mem, Slot(at + QWORD * k, i)) == part[i] {
      assert Slot(at + QWORD * k, i) == Slot(at, k + i);
    }
  }

  lemma PointersPositive(bottom: nat, mem: Memory, entries: seq<Text>, pointers: seq<nat>, lo: nat, hi: nat)
    requires Placed(bottom, mem, entries, pointers, lo, hi) && lo > 0
    ensures forall i :: 0 <= i < |pointers| ==> pointers[i] > 0
  {
  }

  lemma TableDecodes(s: Stack, args: seq<Text>, env: seq<Text>, argv: seq<nat>, envp: seq<nat>, lo: nat, mid: nat, frame: nat)
    requires s.bottom <= frame && frame + QWORD * (|args| + |env| + 3) <= lo <= s.bottom + |s.mem|
    requires Placed(s.bottom, s.mem, args, argv, lo, mid) && Placed(s.bottom, s.mem, env, envp, mid, STACK_TOP) && lo <= mid
    requires |argv| == |args| && |envp| == |env| && NulFree(args) && NulFree(env)
    requires TableHolds(s.mem, frame - s.bottom, Table(argv, envp))
    ensures Decode(s, frame) == Start(|args|, args, env)
  {
    var at, t := frame - s.bottom, Table(argv, envp);
    hide ReadQword, Placed, NulFree, ReadPointers, CountPointers, TableHolds;
    var n := |argv| + 2;
    assert t[0..1] == [|argv|] && t[1..1 + |argv|] == argv && t[1..1 + |argv + [0]|] == argv + [0];
    assert t[n..n + |envp|] == envp && t[n..n + |envp + [0]|] == envp + [0];
    hide Table;
    TablePart(s.mem, at, t, 0, [|argv|]);
    TablePart(s.mem, at, t, 1, argv);
    TablePart(s.mem, at, t, 1, argv + [0]);
    TablePart(s.mem, at, t, n, envp);
    TablePart(s.mem, at, t, n, envp + [0]);
    OneQword(s.mem, at, |argv|);
    PointersReadBack(s, args, argv, at + QWORD, lo, mid);
    PointersReadBack(s, env, envp, at + QWORD * n, mid, STACK_TOP);
    PointersPositive(s.bottom, s.mem, args, argv, lo, mid);
    CountsPointers(s.mem, at + QWORD, argv);
    PointersPositive(s.bottom, s.mem, env, envp, mid, STACK_TOP);
    CountsPointers(s.mem, at + QWORD * n, envp);
  }

  lemma OneQword(mem: Memory, at: nat, value: nat)
    requires TableHolds(mem, at, [value])
    ensures ReadQword(mem, at) == value
  {
    assert Slot(at, 0) == at;
  }

  /**
   Round trip: from the returned stack pointer a program reads argc, the arguments up to a NULL and
   the environment up to a NULL; the pointer is 16-byte aligned; table and strings lie inside the
   stack and overlap nowhere.
   */
  lemma StackRoundTrip(s: Stack, args: seq<Text>, env: seq<Text>)
    requires Shaped(s) && NulFree(args) && NulFree(env) && WriteInitialStack(s, args, env).Ok?
    ensures var w := WriteInitialStack(s, args, env).value;
            && w.pointer % 16 == 0 && s.bottom <= w.pointer <= STACK_TOP && |w.mem| == |s.mem|
            && Decode(s.(mem := w.mem), w.pointer) == Start(|args|, args, env)
            && LaidOut(s.(mem := w.mem), w.pointer, args, env)
  {
    hide PlaceAll, Placed, WriteQwords, NulFree, Decode, LaidOut, TotalSize, Table, FrameStart, AlignDown;
    StringsPrepared(s, args, env);
    var (e, a) := PlaceAll(s, args, env).value;
    FrameInside(s.bottom, a.cursor, |args| + |env| + 3);
    Finished(s, args, env, a, e, FrameStart(s.bottom, a.cursor, |args| + |env| + 3).value);
  }
}
