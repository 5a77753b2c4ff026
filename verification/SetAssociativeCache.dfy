/** The CPU's set-associative cache: lines stamped with ticks, one LRU set per line number modulo the set count. */
module SetAssociativeCaches {
  import opened Arithmetic
  import opened Blocks
  import opened Lru

  const ADDRESS_SPACE := 0x1_0000_0000_0000_0000

  datatype AccessKind = READ | WRITE

  datatype WritePolicy = WRITE_BACK | WRITE_THROUGH

  datatype Line = Line(tag: nat, tick: nat, valid: bool, dirty: bool)

  datatype AccessResult = AccessResult(hits: nat, misses: nat, dirtyEvictions: nat)

  // ---------- Lines of an access ----------

  /** Shift and mask by the powers of two of the geometry are quotient and remainder. */
  function LineOf(address: nat, lineSize: nat): nat
    requires lineSize > 0
  {
    Quotient(address, lineSize)
  }

  function OffsetOf(address: nat, lineSize: nat): (o: nat)
    requires lineSize > 0
    ensures o < lineSize
  {
    address % lineSize
  }

  function SetOf(line: nat, sets: nat): (s: nat)
    requires sets > 0
    ensures s < sets
  {
    line % sets
  }

  function TagOf(line: nat, sets: nat): nat
    requires sets > 0
  {
    Quotient(line, sets)
  }

  function Quotient(a: nat, b: nat): (q: nat)
    requires b > 0
    ensures q == a / b
  {
    MulOrder(b, a / b + 1, 0);
    a / b
  }

  function Least(a: nat, b: nat): nat
  {
    if a < b then a else b
  }

  /** The line numbers that the access loop visits, with the address wrapping at 64 bits. */
  function LinesTouched(address: nat, count: nat, lineSize: nat): seq<nat>
    requires lineSize > 0
    decreases count
  {
    if count == 0 then []
    else
      var step := Least(count, lineSize - OffsetOf(address, lineSize));
      [LineOf(address, lineSize)] + LinesTouched((address + step) % ADDRESS_SPACE, count - step, lineSize)
  }

  lemma NextLine(address: nat, count: nat, lineSize: nat)
    requires lineSize > 0 && count > 0
    ensures var left := lineSize - OffsetOf(address, lineSize);
            && (count <= left ==> LineOf(address + count - 1, lineSize) == LineOf(address, lineSize))
            && LineOf(address + left, lineSize) == LineOf(address, lineSize) + 1
  {
    var q, r := address / lineSize, address % lineSize;
    assert address == lineSize * q + r;
    if count <= lineSize - r {
      DivUnique(address + count - 1, lineSize, q, r + count - 1);
    }
    assert lineSize * (q + 1) == lineSize * q + lineSize;
    DivUnique(address + lineSize - r, lineSize, q + 1, 0);
  }

  lemma LinesStep(address: nat, count: nat, lineSize: nat)
    requires lineSize > 0 && count > 0
    ensures var step := Least(count, lineSize - OffsetOf(address, lineSize));
            LinesTouched(address, count, lineSize)
            == [LineOf(address, lineSize)] + LinesTouched((address + step) % ADDRESS_SPACE, count - step, lineSize)
  {
  }

  lemma {:induction false} LinesInOrder(address: nat, count: nat, lineSize: nat)
    requires lineSize > 0 && address + count <= ADDRESS_SPACE
    ensures var lines := LinesTouched(address, count, lineSize);
            && |lines| == (if count == 0 then 0 else LineOf(address + count - 1, lineSize) - LineOf(address, lineSize) + 1)
            && forall i :: 0 <= i < |lines| ==> lines[i] == LineOf(address, lineSize) + i
    decreases count
  {
    if count > 0 {
      NextLine(address, count, lineSize);
      LinesStep(address, count, lineSize);
      hide LinesTouched, LineOf, OffsetOf;
      var step := Least(count, lineSize - OffsetOf(address, lineSize));
      if step < count {
        assert (address + step) % ADDRESS_SPACE == address + step;
        LinesInOrder(address + step, count - step, lineSize);
      } else {
        NothingTouched((address + step) % ADDRESS_SPACE, lineSize);
      }
    }
  }

  /** Within the address space an access touches exactly the lines that cover its bytes, each once, in order. */
  lemma LinesCoverAccess(address: nat, count: nat, lineSize: nat)
    requires lineSize > 0 && address + count <= 0x1_0000_0000_0000_0000
    ensures var lines := LinesTouched(address, count, lineSize);
            && |lines| == (if count == 0 then 0 else (address + count - 1) / lineSize - address / lineSize + 1)
            && forall i :: 0 <= i < |lines| ==> lines[i] == address / lineSize + i
  {
    hide LinesTouched;
    LinesInOrder(address, count, lineSize);
  }

  // ---------- What hits ----------

  /** The line numbers of one set in a trace. */
  function SetTrace(trace: seq<nat>, sets: nat, s: nat): seq<nat>
    requires sets > 0
  {
    if trace == [] then []
    else
      var rest := SetTrace(trace[..|trace| - 1], sets, s);
      if SetOf(trace[|trace| - 1], sets) == s then rest + [trace[|trace| - 1]] else rest
  }

  /** A hit: the line was used, with fewer than ways distinct other lines of its set used since. */
  predicate IsHit(ways: nat, sets: nat, trace: seq<nat>, line: nat)
    requires sets > 0
  {
    var t := SetTrace(trace, sets, SetOf(line, sets));
    line in t && |UsedSince(t, line)| < ways
  }

  /** The different lines of one set used after position i of a trace. */
  function LaterInSet(trace: seq<nat>, sets: nat, line: nat, i: nat): set<nat>
    requires sets > 0 && i < |trace|
  {
    set x | x in trace[i + 1..] && x % sets == line % sets
  }

  lemma {:induction false} UsedInSet(trace: seq<nat>, sets: nat, line: nat, i: nat)
    requires sets > 0 && i < |trace| && trace[i] == line && line !in trace[i + 1..]
    ensures var t := SetTrace(trace, sets, SetOf(line, sets));
            line in t && UsedSince(t, line) == LaterInSet(trace, sets, line, i)
    decreases |trace|
  {
    var n := |trace| - 1;
    var rest, last := trace[..n], trace[n];
    var before := SetTrace(rest, sets, SetOf(line, sets));
    assert (before + [last])[..|before|] == before;
    if i < n {
      assert trace[i + 1..] == rest[i + 1..] + [last];
      UsedInSet(rest, sets, line, i);
    }
  }

  lemma {:induction false} LastUse(trace: seq<nat>, sets: nat, line: nat) returns (i: nat)
    requires sets > 0 && line in SetTrace(trace, sets, SetOf(line, sets))
    ensures i < |trace| && trace[i] == line && line !in trace[i + 1..]
    decreases |trace|
  {
    var n := |trace| - 1;
    if trace[n] == line {
      i := n;
    } else {
      i := LastUse(trace[..n], sets, line);
      assert trace[i + 1..] == trace[..n][i + 1..] + [trace[n]];
    }
  }

  /** The law of hits on the whole trace: fewer than ways different lines of the same remainder were used after the last use of the line. */
  lemma HitLaw(ways: nat, sets: nat, trace: seq<nat>, line: nat)
    requires sets > 0
    ensures IsHit(ways, sets, trace, line) <==>
            exists i: nat :: i < |trace| && trace[i] == line && line !in trace[i + 1..] && |LaterInSet(trace, sets, line, i)| < ways
  {
    if line in SetTrace(trace, sets, SetOf(line, sets)) {
      var i := LastUse(trace, sets, line);
      UsedInSet(trace, sets, line, i);
    }
    forall i: nat | i < |trace| && trace[i] == line && line !in trace[i + 1..]
      ensures IsHit(ways, sets, trace, line) <==> |LaterInSet(trace, sets, line, i)| < ways
    {
      UsedInSet(trace, sets, line, i);
    }
    hide SetTrace, UsedSince, SetOf, LaterInSet;
  }

  function HitCount(ways: nat, sets: nat, trace: seq<nat>, lines: seq<nat>): nat
    requires sets > 0
    decreases |lines|
  {
    if lines == [] then 0
    else (if IsHit(ways, sets, trace, lines[0]) then 1 else 0) + HitCount(ways, sets, trace + [lines[0]], lines[1..])
  }

  /** More ways never turn a hit into a miss, over any sequence of accesses. */
  lemma {:induction false} MoreWaysNeverHurt(ways: nat, more: nat, sets: nat, trace: seq<nat>, lines: seq<nat>)
    requires sets > 0 && ways <= more
    ensures forall line :: IsHit(ways, sets, trace, line) ==> IsHit(more, sets, trace, line)
    ensures HitCount(ways, sets, trace, lines) <= HitCount(more, sets, trace, lines)
    decreases |lines|
  {
    if lines != [] {
      MoreWaysNeverHurt(ways, more, sets, trace + [lines[0]], lines[1..]);
    }
  }

  // ---------- The sets inside the flat array of lines ----------

  function StartOf(s: nat, ways: nat): nat
  {
    StartAt(s, ways)
  }

  /** The line number that a tag means in a set. */
  function KeyOf(tag: nat, sets: nat, s: nat): nat
  {
    tag * sets + s
  }

  function SlotOf(line: Line, sets: nat, s: nat): Slot
  {
    Slot(line.valid, KeyOf(line.tag, sets, s), line.tick)
  }

  ghost function SetSlots(lines: seq<Line>, sets: nat, ways: nat, s: nat): (slots: seq<Slot>)
    requires |lines| == StartOf(sets, ways) && s < sets
    ensures |slots| == ways
    ensures StartOf(s, ways) + ways <= |lines|
    ensures forall j :: 0 <= j < ways ==> slots[j] == SlotOf(lines[StartOf(s, ways) + j], sets, s)
  {
    BlockFits(s, sets, ways);
    seq(ways, j requires 0 <= j < ways => SlotOf(lines[StartOf(s, ways) + j], sets, s))
  }

  lemma SetUpdate(lines: seq<Line>, sets: nat, ways: nat, s: nat, j: nat, line: Line, other: nat)
    requires |lines| == StartOf(sets, ways) && s < sets && j < ways && other < sets
    ensures StartOf(s, ways) + j < |lines|
    ensures SetSlots(lines[StartOf(s, ways) + j := line], sets, ways, other) ==
            if other == s then SetSlots(lines, sets, ways, s)[j := SlotOf(line, sets, s)] else SetSlots(lines, sets, ways, other)
  {
    BlockFits(s, sets, ways);
    BlocksApart(s, other, ways);
    BlocksApart(other, s, ways);
    BlockFits(other, sets, ways);
  }

  /** Every set holds the most recently used lines of its part of the trace. */
  ghost predicate Inv(lines: seq<Line>, sets: nat, ways: nat, tick: nat, trace: seq<nat>, orders: seq<seq<nat>>)
  {
    && sets > 0 && ways > 0 && |lines| == StartOf(sets, ways) && |orders| == sets
    && forall s: nat :: s < sets ==> SetOk(lines, sets, ways, tick, trace, s, orders[s])
  }

  ghost predicate SetOk(lines: seq<Line>, sets: nat, ways: nat, tick: nat, trace: seq<nat>, s: nat, order: seq<nat>)
    requires sets > 0 && |lines| == StartOf(sets, ways) && s < sets
  {
    Ranked(SetSlots(lines, sets, ways, s), tick, Recency(SetTrace(trace, sets, s)), order)
  }

  lemma RankedLater(slots: seq<Slot>, now: nat, later: nat, rec: seq<nat>, order: seq<nat>)
    requires Ranked(slots, now, rec, order) && now <= later
    ensures Ranked(slots, later, rec, order)
  {
    forall p: nat {:trigger SlotAt(slots, later, rec, order, p)} | p < |order| ensures SlotAt(slots, later, rec, order, p) {
      assert SlotAt(slots, now, rec, order, p);
    }
  }

  lemma SetTraceStep(trace: seq<nat>, sets: nat, s: nat, line: nat)
    requires sets > 0
    ensures SetTrace(trace + [line], sets, s) == SetTrace(trace, sets, s) + (if SetOf(line, sets) == s then [line] else [])
  {
    assert (trace + [line])[..|trace|] == trace;
  }

  lemma LineOfTag(line: nat, sets: nat, tag: nat)
    requires sets > 0
    ensures KeyOf(tag, sets, SetOf(line, sets)) == line <==> tag == TagOf(line, sets)
  {
    assert line == sets * (TagOf(line, sets)) + SetOf(line, sets);
    DivUnique(sets * tag + SetOf(line, sets), sets, tag, SetOf(line, sets));
    assert tag * sets == sets * tag;
  }

  /** A lookup finds the line exactly when it is a hit. */
  lemma LookupIsHit(lines: seq<Line>, sets: nat, ways: nat, tick: nat, trace: seq<nat>, orders: seq<seq<nat>>, line: nat)
    requires Inv(lines, sets, ways, tick, trace, orders)
    ensures FindSlot(SetSlots(lines, sets, ways, SetOf(line, sets)), line) < ways <==> IsHit(ways, sets, trace, line)
  {
    var s := SetOf(line, sets);
    var t := SetTrace(trace, sets, s);
    assert SetOk(lines, sets, ways, tick, trace, s, orders[s]);
    RankedHits(SetSlots(lines, sets, ways, s), tick, Recency(t), orders[s], line);
    HoldsIffFewUsedSince(ways, t, line);
  }

  ghost predicate Chosen(slots: seq<Slot>, line: nat, j: nat)
  {
    j < |slots| && if FindSlot(slots, line) < |slots| then j == FindSlot(slots, line) else IsVictim(slots, j)
  }

  lemma IsChosen(slots: seq<Slot>, line: nat, j: nat)
    requires j < |slots|
    requires if FindSlot(slots, line) < |slots| then j == FindSlot(slots, line) else IsVictim(slots, j)
    ensures Chosen(slots, line, j)
  {
  }

  lemma ChosenKeepsRanked(slots: seq<Slot>, tick: nat, trace: seq<nat>, order: seq<nat>, line: nat, j: nat)
    requires Ranked(slots, tick, Recency(trace), order) && Chosen(slots, line, j)
    ensures Ranked(slots[j := Slot(true, line, tick + 1)], tick + 1, Recency(trace + [line]), Promote(order, j))
  {
    hide Ranked, Promote, IsVictim;
    RecencyStep(trace, line);
    if FindSlot(slots, line) < |slots| {
      HitKeepsRanked(slots, tick, Recency(trace), order, j);
    } else {
      MissKeepsRanked(slots, tick, Recency(trace), order, j, line);
    }
  }

  lemma AccessKeepsSet(lines: seq<Line>, sets: nat, ways: nat, tick: nat, trace: seq<nat>, orders: seq<seq<nat>>, line: nat, j: nat,
                       dirty: bool, o: nat)
    requires Inv(lines, sets, ways, tick, trace, orders) && o < sets
    requires Chosen(SetSlots(lines, sets, ways, SetOf(line, sets)), line, j)
    ensures var s := SetOf(line, sets);
            && StartOf(s, ways) + j < |lines|
            && SetOk(lines[StartOf(s, ways) + j := Line(TagOf(line, sets), tick + 1, true, dirty)], sets, ways, tick + 1, trace + [line], o,
                     orders[s := Promote(orders[s], j)][o])
  {
    var s := SetOf(line, sets);
    var slots := SetSlots(lines, sets, ways, s);
    var filled := Line(TagOf(line, sets), tick + 1, true, dirty);
    assert SetOk(lines, sets, ways, tick, trace, o, orders[o]);
    hide Inv, SetOf, TagOf, Ranked, Promote, Chosen, Recency, KeyOf, StartOf, SetTrace;
    SetUpdate(lines, sets, ways, s, j, filled, o);
    SetTraceStep(trace, sets, o, line);
    LineOfTag(line, sets, TagOf(line, sets));
    if o == s {
      ChosenKeepsRanked(slots, tick, SetTrace(trace, sets, s), orders[s], line, j);
    } else {
      assert SetTrace(trace + [line], sets, o) == SetTrace(trace, sets, o);
      RankedLater(SetSlots(lines, sets, ways, o), tick, tick + 1, Recency(SetTrace(trace, sets, o)), orders[o]);
    }
  }

  /** Touching a found line, or filling the victim, keeps every set exact. */
  lemma AccessKeeps(lines: seq<Line>, sets: nat, ways: nat, tick: nat, trace: seq<nat>, orders: seq<seq<nat>>, line: nat, j: nat, dirty: bool)
    requires Inv(lines, sets, ways, tick, trace, orders)
    requires Chosen(SetSlots(lines, sets, ways, SetOf(line, sets)), line, j)
    ensures var s := SetOf(line, sets);
            && StartOf(s, ways) + j < |lines|
            && Inv(lines[StartOf(s, ways) + j := Line(TagOf(line, sets), tick + 1, true, dirty)], sets, ways, tick + 1, trace + [line],
                   orders[s := Promote(orders[s], j)])
  {
    hide SetOk, Promote, SetOf, TagOf, KeyOf, StartOf;
    AccessKeepsSet(lines, sets, ways, tick, trace, orders, line, j, dirty, SetOf(line, sets));
    forall o: nat {:trigger orders[o]} | o < sets
      ensures var s := SetOf(line, sets);
              SetOk(lines[StartOf(s, ways) + j := Line(TagOf(line, sets), tick + 1, true, dirty)], sets, ways, tick + 1, trace + [line], o,
                    orders[s := Promote(orders[s], j)][o])
    {
      AccessKeepsSet(lines, sets, ways, tick, trace, orders, line, j, dirty, o);
    }
  }

  // ---------- Write-back ----------

  /**
   A line was written at its last fill or after it: each miss of the line fills it anew, clean unless
   that access itself writes. The flags say which accesses of the trace write back.
   */
  predicate WrittenSinceFill(ways: nat, sets: nat, trace: seq<nat>, writes: seq<bool>, line: nat)
    requires sets > 0 && |writes| == |trace|
    decreases |trace|
  {
    trace != [] &&
    var n := |trace| - 1;
    if trace[n] != line then WrittenSinceFill(ways, sets, trace[..n], writes[..n], line)
    else writes[n] || (IsHit(ways, sets, trace[..n], line) && WrittenSinceFill(ways, sets, trace[..n], writes[..n], line))
  }

  /** A miss that throws out a written line: the set is full, and its least recently used line was written since its fill. */
  predicate EvictsDirty(ways: nat, sets: nat, trace: seq<nat>, writes: seq<bool>, line: nat)
    requires sets > 0 && ways > 0 && |writes| == |trace|
  {
    var r := Recency(SetTrace(trace, sets, SetOf(line, sets)));
    !IsHit(ways, sets, trace, line) && |r| >= ways && WrittenSinceFill(ways, sets, trace, writes, r[ways - 1])
  }

  /** A line is dirty in the history's sense exactly when some use wrote it and every later use of it was a hit. */
  lemma {:induction false} WrittenMeans(ways: nat, sets: nat, trace: seq<nat>, writes: seq<bool>, line: nat)
    requires sets > 0 && |writes| == |trace|
    ensures WrittenSinceFill(ways, sets, trace, writes, line) <==>
            exists i :: 0 <= i < |trace| && trace[i] == line && writes[i] &&
                        forall j :: i < j < |trace| && trace[j] == line ==> IsHit(ways, sets, trace[..j], line)
    decreases |trace|
  {
    hide IsHit;
    if trace != [] {
      var n := |trace| - 1;
      var rest := trace[..n];
      WrittenMeans(ways, sets, rest, writes[..n], line);
      assert forall j :: 0 <= j < n ==> rest[..j] == trace[..j];
    }
  }

  /** The line thrown out is the one that the set would not hold with one way less. */
  lemma EvictsDirtyMeans(ways: nat, sets: nat, trace: seq<nat>, writes: seq<bool>, line: nat)
    requires sets > 0 && ways > 0 && |writes| == |trace|
    ensures EvictsDirty(ways, sets, trace, writes, line) <==>
            !IsHit(ways, sets, trace, line) &&
            exists x: nat {:trigger WrittenSinceFill(ways, sets, trace, writes, x)} ::
              && x % sets == line % sets && IsHit(ways, sets, trace, x) && !IsHit(ways - 1, sets, trace, x)
              && WrittenSinceFill(ways, sets, trace, writes, x)
  {
    var t := SetTrace(trace, sets, SetOf(line, sets));
    var r := Recency(t);
    RecencyIsDistinct(t);
    forall x: nat {:trigger IsHit(ways, sets, trace, x)} | x % sets == line % sets
      ensures IsHit(ways, sets, trace, x) && !IsHit(ways - 1, sets, trace, x) <==> |r| >= ways && x == r[ways - 1]
    {
      HoldsIffFewUsedSince(ways, t, x);
      HoldsIffFewUsedSince(ways - 1, t, x);
    }
    if |r| >= ways {
      SetTraceMembers(trace, sets, SetOf(line, sets), r[ways - 1]);
      assert IsHit(ways, sets, trace, r[ways - 1]);
    }
    hide SetTrace, Recency, WrittenSinceFill, IsHit;
    if EvictsDirty(ways, sets, trace, writes, line) {
      var x := r[ways - 1];
      assert x % sets == line % sets && WrittenSinceFill(ways, sets, trace, writes, x);
    }
  }

  lemma {:induction false} SetTraceMembers(trace: seq<nat>, sets: nat, s: nat, x: nat)
    requires sets > 0 && x in SetTrace(trace, sets, s)
    ensures x % sets == s
    decreases |trace|
  {
    var n := |trace| - 1;
    if x in SetTrace(trace[..n], sets, s) {
      SetTraceMembers(trace[..n], sets, s, x);
    }
  }

  function DirtyEvictionCount(ways: nat, sets: nat, trace: seq<nat>, writes: seq<bool>, lines: seq<nat>, w: bool): nat
    requires sets > 0 && ways > 0 && |writes| == |trace|
    decreases |lines|
  {
    if lines == [] then 0
    else
      (if EvictsDirty(ways, sets, trace, writes, lines[0]) then 1 else 0)
      + DirtyEvictionCount(ways, sets, trace + [lines[0]], writes + [w], lines[1..], w)
  }

  lemma WrittenStep(ways: nat, sets: nat, trace: seq<nat>, writes: seq<bool>, line: nat, w: bool, other: nat)
    requires sets > 0 && |writes| == |trace|
    ensures WrittenSinceFill(ways, sets, trace + [line], writes + [w], other)
            == if other != line then WrittenSinceFill(ways, sets, trace, writes, other)
               else w || (IsHit(ways, sets, trace, line) && WrittenSinceFill(ways, sets, trace, writes, line))
  {
    hide IsHit;
    assert (trace + [line])[..|trace|] == trace && (writes + [w])[..|trace|] == writes;
  }

  /** The dirty flag of a line in use says whether it was written since its fill. */
  ghost predicate FlagRight(lines: seq<Line>, sets: nat, ways: nat, trace: seq<nat>, writes: seq<bool>, s: nat, j: nat)
    requires sets > 0 && |lines| == StartOf(sets, ways) && |writes| == |trace| && s < sets && j < ways
  {
    BlockFits(s, sets, ways);
    var line := lines[StartOf(s, ways) + j];
    line.valid ==> (line.dirty <==> WrittenSinceFill(ways, sets, trace, writes, KeyOf(line.tag, sets, s)))
  }

  ghost predicate FlagsRight(lines: seq<Line>, sets: nat, ways: nat, trace: seq<nat>, writes: seq<bool>)
  {
    && sets > 0 && |lines| == StartOf(sets, ways) && |writes| == |trace|
    && forall s: nat, j: nat {:trigger FlagRight(lines, sets, ways, trace, writes, s, j)} ::
         s < sets && j < ways ==> FlagRight(lines, sets, ways, trace, writes, s, j)
  }

  lemma KeyIsOfSet(tag: nat, sets: nat, s: nat)
    requires s < sets
    ensures SetOf(KeyOf(tag, sets, s), sets) == s
  {
    assert tag * sets == sets * tag;
    DivUnique(KeyOf(tag, sets, s), sets, tag, s);
  }

  /** No other place of the cache holds the line that the access is for. */
  lemma OtherPlaceOtherLine(lines: seq<Line>, sets: nat, ways: nat, tick: nat, trace: seq<nat>, orders: seq<seq<nat>>, line: nat, j: nat, o: nat, k: nat)
    requires Inv(lines, sets, ways, tick, trace, orders) && o < sets && k < ways
    requires Chosen(SetSlots(lines, sets, ways, SetOf(line, sets)), line, j) && (o, k) != (SetOf(line, sets), j)
    ensures StartOf(o, ways) + k < |lines|
    ensures lines[StartOf(o, ways) + k].valid ==> KeyOf(lines[StartOf(o, ways) + k].tag, sets, o) != line
  {
    var slots := SetSlots(lines, sets, ways, o);
    var found := lines[StartOf(o, ways) + k];
    assert slots[k] == SlotOf(found, sets, o);
    assert SetOk(lines, sets, ways, tick, trace, o, orders[o]);
    KeyIsOfSet(found.tag, sets, o);
    hide KeyOf, StartOf, SetOf, Ranked, IsVictim, SetTrace, Recency;
    if o == SetOf(line, sets) && found.valid && FindSlot(slots, line) < ways {
      KeysDiffer(slots, tick, Recency(SetTrace(trace, sets, o)), orders[o], j, k);
    }
  }

  lemma FlagsKept(lines: seq<Line>, sets: nat, ways: nat, tick: nat, trace: seq<nat>, orders: seq<seq<nat>>, writes: seq<bool>, line: nat, j: nat, w: bool)
    requires Inv(lines, sets, ways, tick, trace, orders) && FlagsRight(lines, sets, ways, trace, writes)
    requires Chosen(SetSlots(lines, sets, ways, SetOf(line, sets)), line, j)
    ensures var s := SetOf(line, sets);
            && StartOf(s, ways) + j < |lines|
            && var dirty := w || (IsHit(ways, sets, trace, line) && lines[StartOf(s, ways) + j].dirty);
               FlagsRight(lines[StartOf(s, ways) + j := Line(TagOf(line, sets), tick + 1, true, dirty)], sets, ways, trace + [line], writes + [w])
  {
    var s := SetOf(line, sets);
    SetUpdate(lines, sets, ways, s, j, lines[0], s);
    var at := StartOf(s, ways) + j;
    var dirty := w || (IsHit(ways, sets, trace, line) && lines[at].dirty);
    var lines' := lines[at := Line(TagOf(line, sets), tick + 1, true, dirty)];
    forall o: nat, k: nat {:trigger FlagRight(lines', sets, ways, trace + [line], writes + [w], o, k)} | o < sets && k < ways
      ensures FlagRight(lines', sets, ways, trace + [line], writes + [w], o, k)
    {
      FlagKept(lines, sets, ways, tick, trace, orders, writes, line, j, w, o, k);
    }
    hide FlagRight, SetOf, TagOf, IsHit;
  }

  lemma FlagKept(lines: seq<Line>, sets: nat, ways: nat, tick: nat, trace: seq<nat>, orders: seq<seq<nat>>, writes: seq<bool>, line: nat, j: nat, w: bool, o: nat, k: nat)
    requires Inv(lines, sets, ways, tick, trace, orders) && FlagsRight(lines, sets, ways, trace, writes)
    requires Chosen(SetSlots(lines, sets, ways, SetOf(line, sets)), line, j) && o < sets && k < ways
    ensures var s := SetOf(line, sets);
            && StartOf(s, ways) + j < |lines|
            && var dirty := w || (IsHit(ways, sets, trace, line) && lines[StartOf(s, ways) + j].dirty);
               FlagRight(lines[StartOf(s, ways) + j := Line(TagOf(line, sets), tick + 1, true, dirty)], sets, ways, trace + [line], writes + [w], o, k)
  {
    var s := SetOf(line, sets);
    var slots := SetSlots(lines, sets, ways, s);
    assert FlagRight(lines, sets, ways, trace, writes, o, k) && FlagRight(lines, sets, ways, trace, writes, s, j);
    LookupIsHit(lines, sets, ways, tick, trace, orders, line);
    LineOfTag(line, sets, TagOf(line, sets));
    LineOfTag(line, sets, lines[StartOf(s, ways) + j].tag);
    PlacesApart(s, j, o, k, ways);
    if (o, k) != (s, j) {
      OtherPlaceOtherLine(lines, sets, ways, tick, trace, orders, line, j, o, k);
      WrittenStep(ways, sets, trace, writes, line, w, KeyOf(lines[StartOf(o, ways) + k].tag, sets, o));
    } else {
      WrittenStep(ways, sets, trace, writes, line, w, line);
      assert IsHit(ways, sets, trace, line) ==> slots[j].valid && slots[j].key == line;
    }
    hide Inv, SetOf, TagOf, KeyOf, StartOf, IsHit, WrittenSinceFill, Chosen;
  }

  lemma PlacesApart(s: nat, j: nat, o: nat, k: nat, ways: nat)
    requires j < ways && k < ways
    ensures StartOf(s, ways) + j == StartOf(o, ways) + k <==> s == o && j == k
  {
    BlocksApart(s, o, ways);
    BlocksApart(o, s, ways);
  }

  /** What the victim's flag means for a miss. */
  lemma VictimFlag(lines: seq<Line>, sets: nat, ways: nat, tick: nat, trace: seq<nat>, orders: seq<seq<nat>>, writes: seq<bool>, line: nat, j: nat)
    requires Inv(lines, sets, ways, tick, trace, orders) && FlagsRight(lines, sets, ways, trace, writes)
    requires !IsHit(ways, sets, trace, line) && IsVictim(SetSlots(lines, sets, ways, SetOf(line, sets)), j)
    ensures var s := SetOf(line, sets);
            && j < ways && StartOf(s, ways) + j < |lines|
            && (lines[StartOf(s, ways) + j].valid && lines[StartOf(s, ways) + j].dirty <==> EvictsDirty(ways, sets, trace, writes, line))
  {
    var s := SetOf(line, sets);
    var slots := SetSlots(lines, sets, ways, s);
    assert SetOk(lines, sets, ways, tick, trace, s, orders[s]);
    assert FlagRight(lines, sets, ways, trace, writes, s, j);
    VictimIsLeastRecent(slots, tick, Recency(SetTrace(trace, sets, s)), orders[s], j);
    hide Inv, SetOf, KeyOf, StartOf, IsHit, WrittenSinceFill, Ranked, IsVictim, SetTrace, Recency;
    assert slots[j] == SlotOf(lines[StartOf(s, ways) + j], sets, s);
  }

  // ---------- The cache ----------

  class SetAssociativeCache {
    const lineSize: nat
    const sets: nat
    const ways: nat
    const policy: WritePolicy
    var lines: seq<Line>
    var tick: nat
    var validCount: nat
    ghost var trace: seq<nat>
    ghost var orders: seq<seq<nat>>
    ghost var writes: seq<bool>

    ghost predicate Valid()
      reads this
    {
      lineSize > 0 && Inv(lines, sets, ways, tick, trace, orders) && FlagsRight(lines, sets, ways, trace, writes)
    }

    constructor (lineSize: nat, sets: nat, ways: nat, policy: WritePolicy)
      requires lineSize > 0 && sets > 0 && ways > 0
      ensures Valid() && trace == [] && this.lineSize == lineSize && this.sets == sets && this.ways == ways && this.policy == policy
    {
      this.lineSize, this.sets, this.ways, this.policy := lineSize, sets, ways, policy;
      lines := seq(StartOf(sets, ways), _ => Line(0, 0, false, false));
      tick, validCount, trace := 0, 0, [];
      orders, writes := seq(sets, _ => []), [];
      new;
      EmptyIsExact(lines, sets, ways);
      EmptyHasNoFlags(lines, sets, ways);
    }

    method Clear()
      requires Valid()
      modifies this
      ensures Valid() && trace == []
    {
      for i := 0 to |lines|
        invariant |lines| == |old(lines)|
        invariant forall j :: 0 <= j < i ==> lines[j] == Line(0, 0, false, false)
      {
        lines := lines[i := Line(0, 0, false, false)];
      }
      tick, validCount, trace := 0, 0, [];
      orders, writes := seq(sets, _ => []), [];
      EmptyIsExact(lines, sets, ways);
      EmptyHasNoFlags(lines, sets, ways);
    }

    method VictimIndex(s: nat) returns (j: nat)
      requires Valid() && s < sets
      ensures j < ways && IsVictim(SetSlots(lines, sets, ways, s), j)
    {
      ghost var slots := SetSlots(lines, sets, ways, s);
      hide SetOk, FindSlot, KeyOf, StartOf;
      var start := StartOf(s, ways);
      for i := 0 to ways
        invariant forall k :: 0 <= k < i ==> slots[k].valid
      {
        if !lines[start + i].valid {
          return i;
        }
      }
      j := 0;
      for i := 1 to ways
        invariant j < i && forall k :: 0 <= k < i ==> slots[j].tick <= slots[k].tick
      {
        if lines[start + i].tick < lines[start + j].tick {
          j := i;
        }
      }
    }

    method FindLine(s: nat, tag: nat, ghost line: nat) returns (j: nat)
      requires Valid() && s == SetOf(line, sets) && tag == TagOf(line, sets)
      ensures j == FindSlot(SetSlots(lines, sets, ways, s), line)
    {
      hide SetOf, TagOf, KeyOf, StartOf, SetOk;
      ghost var slots := SetSlots(lines, sets, ways, s);
      var start := StartOf(s, ways);
      j := 0;
      while j < ways && !(lines[start + j].valid && lines[start + j].tag == tag)
        invariant j <= ways && forall k :: 0 <= k < j ==> !(slots[k].valid && slots[k].key == line)
      {
        LineOfTag(line, sets, lines[start + j].tag);
        j := j + 1;
      }
      if j < ways {
        LineOfTag(line, sets, lines[start + j].tag);
        assert slots[j].valid && slots[j].key == line;
      }
    }

    /** The place of the line in its set, or the victim to replace. */
    method ChooseLine(s: nat, tag: nat, ghost line: nat) returns (j: nat, hit: bool)
      requires Valid() && s == SetOf(line, sets) && tag == TagOf(line, sets)
      ensures hit == IsHit(ways, sets, trace, line) && Chosen(SetSlots(lines, sets, ways, s), line, j)
      ensures !hit ==> IsVictim(SetSlots(lines, sets, ways, s), j)
    {
      LookupIsHit(lines, sets, ways, tick, trace, orders, line);
      hide Inv, IsHit, SetOf, TagOf, IsVictim, FindSlot, StartOf, Chosen, FlagsRight;
      j := FindLine(s, tag, line);
      hit := j < ways;
      if !hit {
        j := VictimIndex(s);
      }
      IsChosen(SetSlots(lines, sets, ways, s), line, j);
    }

    /** Puts the line into its place, just used. */
    method PutLine(s: nat, tag: nat, ghost line: nat, j: nat, w: bool, dirty: bool)
      requires Valid() && s == SetOf(line, sets) && tag == TagOf(line, sets) && Chosen(SetSlots(lines, sets, ways, s), line, j)
      requires StartOf(s, ways) + j < |lines|
      requires dirty == (w || (IsHit(ways, sets, trace, line) && lines[StartOf(s, ways) + j].dirty))
      modifies this`lines, this`tick, this`trace, this`orders, this`writes
      ensures Valid() && trace == old(trace) + [line] && writes == old(writes) + [w]
    {
      InvSizes(lines, sets, ways, tick, trace, orders);
      FlagsKept(lines, sets, ways, tick, trace, orders, writes, line, j, w);
      AccessKeeps(lines, sets, ways, tick, trace, orders, line, j, dirty);
      hide Inv, IsHit, SetOf, TagOf, StartOf, Chosen, FlagsRight, Promote;
      tick := tick + 1;
      lines := lines[StartOf(s, ways) + j := Line(tag, tick, true, dirty)];
      trace, orders, writes := trace + [line], orders[s := Promote(orders[s], j)], writes + [w];
    }

    method AccessLine(base: nat, kind: AccessKind) returns (result: AccessResult)
      requires Valid()
      modifies this
      ensures Valid() && trace == old(trace) + [LineOf(base, lineSize)]
      ensures result.hits == (if IsHit(ways, sets, old(trace), LineOf(base, lineSize)) then 1 else 0)
      ensures result.hits + result.misses == 1
      ensures |old(writes)| == |old(trace)| && writes == old(writes) + [kind == WRITE && policy == WRITE_BACK]
      ensures result.dirtyEvictions == (if EvictsDirty(ways, sets, old(trace), old(writes), LineOf(base, lineSize)) then 1 else 0)
    {
      InvSizes(lines, sets, ways, tick, trace, orders);
      var line := LineOf(base, lineSize);
      var s, tag := SetOf(line, sets), TagOf(line, sets);
      var start := StartOf(s, ways);
      FlagsSizes(lines, sets, ways, trace, writes);
      HitEvictsNothing(ways, sets, trace, writes, line);
      hide Inv, IsHit, SetOf, TagOf, LineOf, IsVictim, StartOf, Chosen, FlagsRight, EvictsDirty, SlotOf;
      var w := kind == WRITE && policy == WRITE_BACK;
      var j, hit := ChooseLine(s, tag, line);
      ChosenInRange(lines, sets, ways, s, line, j);
      if hit {
        result := AccessResult(1, 0, 0);
      } else {
        VictimFlag(lines, sets, ways, tick, trace, orders, writes, line, j);
        result := AccessResult(0, 1, if lines[start + j].valid && lines[start + j].dirty then 1 else 0);
        if !lines[start + j].valid {
          validCount := validCount + 1;
        }
      }
      PutLine(s, tag, line, j, w, w || (hit && lines[start + j].dirty));
    }

    /** An access hits, and throws out written lines, as LRU sets predict, line by line. */
    method Access(address: nat, count: nat, kind: AccessKind) returns (result: AccessResult)
      requires Valid()
      modifies this
      ensures Valid()
      ensures var touched := LinesTouched(address, count, lineSize);
              && trace == old(trace) + touched
              && result.hits == HitCount(ways, sets, old(trace), touched)
              && result.hits + result.misses == |touched|
      ensures |old(writes)| == |old(trace)|
      ensures result.dirtyEvictions
              == DirtyEvictionCount(ways, sets, old(trace), old(writes), LinesTouched(address, count, lineSize), kind == WRITE && policy == WRITE_BACK)
    {
      hide IsHit, LineOf, OffsetOf, Inv, HitCount, LinesTouched, FlagsRight, EvictsDirty, DirtyEvictionCount;
      InvSizes(lines, sets, ways, tick, trace, orders);
      FlagsSizes(lines, sets, ways, trace, writes);
      ghost var w := kind == WRITE && policy == WRITE_BACK;
      ghost var touched := LinesTouched(address, count, lineSize);
      result := AccessResult(0, 0, 0);
      var current: nat, remaining: nat := address, count;
      while remaining > 0
        invariant Valid()
        invariant Progress(ways, sets, old(trace), touched, trace, LinesTouched(current, remaining, lineSize), result)
        invariant |writes| == |trace|
        invariant Evicting(ways, sets, old(trace), old(writes), touched, trace, writes, LinesTouched(current, remaining, lineSize), w, result.dirtyEvictions)
        decreases remaining
      {
        var offset := OffsetOf(current, lineSize);
        BaseKeepsLine(current, lineSize);
        LinesStep(current, remaining, lineSize);
        var one := AccessLine(current - offset, kind);
        var step := Least(remaining, lineSize - offset);
        current, remaining := (current + step) % ADDRESS_SPACE, remaining - step;
        result := AccessResult(result.hits + one.hits, result.misses + one.misses, result.dirtyEvictions + one.dirtyEvictions);
        ProgressStep(ways, sets, old(trace), touched, trace, LinesTouched(current, remaining, lineSize), result, one);
        EvictingStep(ways, sets, old(trace), old(writes), touched, trace, writes, LinesTouched(current, remaining, lineSize), w,
                     result.dirtyEvictions, one.dirtyEvictions);
      }
      NothingTouched(current, lineSize);
      ProgressDone(ways, sets, old(trace), touched, trace, result);
      NothingEvicted(ways, sets, trace, writes, w);
    }
  }

  /** Part of an access is done: the dirty evictions so far, with those of the rest, make the whole. */
  ghost predicate Evicting(ways: nat, sets: nat, start: seq<nat>, flags: seq<bool>, touched: seq<nat>,
                           trace: seq<nat>, writes: seq<bool>, rest: seq<nat>, w: bool, sofar: nat)
    requires sets > 0 && ways > 0 && |flags| == |start| && |writes| == |trace|
  {
    DirtyEvictionCount(ways, sets, start, flags, touched, w) == sofar + DirtyEvictionCount(ways, sets, trace, writes, rest, w)
  }

  lemma EvictingStep(ways: nat, sets: nat, start: seq<nat>, flags: seq<bool>, touched: seq<nat>,
                     trace: seq<nat>, writes: seq<bool>, rest: seq<nat>, w: bool, sofar: nat, one: nat)
    requires sets > 0 && ways > 0 && |flags| == |start| && |writes| == |trace| > 0 && one <= sofar
    requires var n := |trace| - 1;
             && writes[n] == w && one == (if EvictsDirty(ways, sets, trace[..n], writes[..n], trace[n]) then 1 else 0)
             && Evicting(ways, sets, start, flags, touched, trace[..n], writes[..n], [trace[n]] + rest, w, sofar - one)
    ensures Evicting(ways, sets, start, flags, touched, trace, writes, rest, w, sofar)
  {
    hide EvictsDirty;
    var n := |trace| - 1;
    assert trace[..n] + [trace[n]] == trace && writes[..n] + [w] == writes && ([trace[n]] + rest)[1..] == rest;
  }

  lemma NothingEvicted(ways: nat, sets: nat, trace: seq<nat>, writes: seq<bool>, w: bool)
    requires sets > 0 && ways > 0 && |writes| == |trace|
    ensures DirtyEvictionCount(ways, sets, trace, writes, [], w) == 0
  {
  }

  lemma ChosenInRange(lines: seq<Line>, sets: nat, ways: nat, s: nat, line: nat, j: nat)
    requires |lines| == StartOf(sets, ways) && s < sets && Chosen(SetSlots(lines, sets, ways, s), line, j)
    ensures j < ways && StartOf(s, ways) + j < |lines|
  {
  }

  lemma HitEvictsNothing(ways: nat, sets: nat, trace: seq<nat>, writes: seq<bool>, line: nat)
    requires sets > 0 && ways > 0 && |writes| == |trace|
    ensures IsHit(ways, sets, trace, line) ==> !EvictsDirty(ways, sets, trace, writes, line)
  {
  }

  lemma FlagsSizes(lines: seq<Line>, sets: nat, ways: nat, trace: seq<nat>, writes: seq<bool>)
    requires FlagsRight(lines, sets, ways, trace, writes)
    ensures |writes| == |trace|
  {
  }

  lemma EmptyHasNoFlags(lines: seq<Line>, sets: nat, ways: nat)
    requires sets > 0 && |lines| == StartOf(sets, ways) && forall i :: 0 <= i < |lines| ==> !lines[i].valid
    ensures FlagsRight(lines, sets, ways, [], [])
  {
    forall s: nat, j: nat {:trigger FlagRight(lines, sets, ways, [], [], s, j)} | s < sets && j < ways ensures FlagRight(lines, sets, ways, [], [], s, j) {
      BlockFits(s, sets, ways);
    }
  }

  /** Part of an access is done: the trace and the counts so far, with the rest of the lines, make the whole. */
  ghost predicate Progress(ways: nat, sets: nat, start: seq<nat>, touched: seq<nat>, trace: seq<nat>, rest: seq<nat>, sofar: AccessResult)
    requires sets > 0
  {
    && start + touched == trace + rest
    && HitCount(ways, sets, start, touched) == sofar.hits + HitCount(ways, sets, trace, rest)
    && |touched| == sofar.hits + sofar.misses + |rest|
  }

  lemma ProgressStep(ways: nat, sets: nat, start: seq<nat>, touched: seq<nat>, trace: seq<nat>, rest: seq<nat>, sofar: AccessResult,
                     one: AccessResult)
    requires sets > 0 && trace != [] && one.hits <= sofar.hits && one.misses <= sofar.misses && one.hits + one.misses == 1
    requires var line := trace[|trace| - 1];
             var before := trace[..|trace| - 1];
             && one.hits == (if IsHit(ways, sets, before, line) then 1 else 0)
             && Progress(ways, sets, start, touched, before, [line] + rest,
                         AccessResult(sofar.hits - one.hits, sofar.misses - one.misses, 0))
    ensures Progress(ways, sets, start, touched, trace, rest, sofar)
  {
    var line := trace[|trace| - 1];
    var before := trace[..|trace| - 1];
    assert before + ([line] + rest) == trace + rest && before + [line] == trace;
    assert ([line] + rest)[1..] == rest;
  }

  lemma ProgressDone(ways: nat, sets: nat, start: seq<nat>, touched: seq<nat>, trace: seq<nat>, sofar: AccessResult)
    requires sets > 0 && Progress(ways, sets, start, touched, trace, [], sofar)
    ensures trace == start + touched && sofar.hits == HitCount(ways, sets, start, touched)
    ensures sofar.hits + sofar.misses == |touched|
  {
    assert trace + [] == trace;
  }

  lemma NothingTouched(address: nat, lineSize: nat)
    requires lineSize > 0
    ensures LinesTouched(address, 0, lineSize) == []
  {
  }

  lemma InvSizes(lines: seq<Line>, sets: nat, ways: nat, tick: nat, trace: seq<nat>, orders: seq<seq<nat>>)
    requires Inv(lines, sets, ways, tick, trace, orders)
    ensures sets > 0 && ways > 0 && |lines| == StartOf(sets, ways) && |orders| == sets
  {
  }

  lemma BaseKeepsLine(address: nat, lineSize: nat)
    requires lineSize > 0
    ensures address >= OffsetOf(address, lineSize) && LineOf(address - OffsetOf(address, lineSize), lineSize) == LineOf(address, lineSize)
  {
    var q := address / lineSize;
    assert address == lineSize * q + address % lineSize;
    MulOrder(lineSize, 0, q);
    DivUnique(address - address % lineSize, lineSize, q, 0);
  }

  lemma EmptyIsExact(lines: seq<Line>, sets: nat, ways: nat)
    requires sets > 0 && ways > 0 && |lines| == StartOf(sets, ways)
    requires forall i :: 0 <= i < |lines| ==> lines[i] == Line(0, 0, false, false)
    ensures Inv(lines, sets, ways, 0, [], seq(sets, _ => []))
  {
    var orders := seq(sets, _ => []);
    forall s: nat | s < sets ensures SetOk(lines, sets, ways, 0, [], s, orders[s]) {
      var slots := SetSlots(lines, sets, ways, s);
      assert forall j :: 0 <= j < ways ==> !slots[j].valid;
    }
  }
}
