/** Least-recently-used replacement as the block cache and the CPU cache implement it: slots stamped with ticks. */
module Lru {

  datatype Slot = Slot(valid: bool, key: nat, tick: nat)

  // ---------- What the slots mean: the keys of a trace by recency ----------

  function Without(s: seq<nat>, k: nat): seq<nat>
  {
    if s == [] then [] else if s[0] == k then Without(s[1..], k) else [s[0]] + Without(s[1..], k)
  }

  /** The distinct keys of a trace, most recently used first. */
  function Recency(trace: seq<nat>): seq<nat>
  {
    if trace == [] then []
    else var k := trace[|trace| - 1]; [k] + Without(Recency(trace[..|trace| - 1]), k)
  }

  lemma RecencyStep(trace: seq<nat>, a: nat)
    ensures Recency(trace + [a]) == [a] + Without(Recency(trace), a)
  {
    assert (trace + [a])[..|trace + [a]| - 1] == trace;
  }

  /** The keys an n-slot cache holds after a trace: the n most recently used. */
  predicate Holds(n: nat, trace: seq<nat>, key: nat)
  {
    var r := Recency(trace);
    key in r[..Min(n, |r|)]
  }

  function Min(a: nat, b: nat): nat
  {
    if a < b then a else b
  }

  /** The keys used after the last use of a key. */
  function UsedSince(trace: seq<nat>, key: nat): set<nat>
  {
    if trace == [] || trace[|trace| - 1] == key then {}
    else UsedSince(trace[..|trace| - 1], key) + {trace[|trace| - 1]}
  }

  ghost predicate Distinct(s: seq<nat>)
  {
    forall i, j :: 0 <= i < j < |s| ==> s[i] != s[j]
  }

  lemma {:induction false} WithoutMembers(s: seq<nat>, k: nat, x: nat)
    ensures x in Without(s, k) <==> x in s && x != k
  {
    if s != [] {
      WithoutMembers(s[1..], k, x);
      assert s == [s[0]] + s[1..];
    }
  }

  lemma ConsDistinct(x: nat, s: seq<nat>)
    ensures Distinct([x] + s) <==> x !in s && Distinct(s)
  {
    var s' := [x] + s;
    assert s'[0] == x && s'[1..] == s;
    if Distinct(s') {
      assert forall i :: 0 <= i < |s| ==> s[i] == s'[i + 1];
    }
  }

  lemma {:induction false} WithoutDistinct(s: seq<nat>, k: nat)
    requires Distinct(s)
    ensures Distinct(Without(s, k))
  {
    if s != [] {
      WithoutDistinct(s[1..], k);
      WithoutMembers(s[1..], k, s[0]);
      ConsDistinct(s[0], Without(s[1..], k));
    }
  }

  lemma {:induction false} WithoutAbsent(s: seq<nat>, k: nat)
    requires k !in s
    ensures Without(s, k) == s
  {
    if s != [] {
      WithoutAbsent(s[1..], k);
      assert s == [s[0]] + s[1..];
    }
  }

  lemma {:induction false} WithoutAt(s: seq<nat>, p: nat)
    requires Distinct(s) && p < |s|
    ensures Without(s, s[p]) == s[..p] + s[p + 1..]
  {
    if p == 0 {
      WithoutAbsent(s[1..], s[0]);
    } else {
      WithoutAt(s[1..], p - 1);
      assert s[1..][..p - 1] == s[1..p] && s[1..][p..] == s[p + 1..];
      assert s[..p] == [s[0]] + s[1..p];
    }
  }

  lemma {:induction false} RecencyIsDistinct(trace: seq<nat>)
    ensures Distinct(Recency(trace))
    ensures forall k :: k in Recency(trace) <==> k in trace
  {
    if trace != [] {
      var last, rest := trace[|trace| - 1], trace[..|trace| - 1];
      RecencyIsDistinct(rest);
      WithoutDistinct(Recency(rest), last);
      WithoutMembers(Recency(rest), last, last);
      ConsDistinct(last, Without(Recency(rest), last));
      forall k ensures k in Without(Recency(rest), last) <==> k in Recency(rest) && k != last {
        if k in Without(Recency(rest), last) || k in Recency(rest) { WithoutMembers(Recency(rest), last, k); }
      }
      assert trace == rest + [last];
    }
  }

  /** The part of a recency list in front of a key. */
  function Before(s: seq<nat>, key: nat): seq<nat>
  {
    if s == [] || s[0] == key then [] else [s[0]] + Before(s[1..], key)
  }

  lemma {:induction false} BeforeIsPrefix(s: seq<nat>, key: nat)
    requires key in s
    ensures var p := Before(s, key); |p| < |s| && p == s[..|p|] && s[|p|] == key && key !in p
  {
    if s[0] != key {
      assert s == [s[0]] + s[1..];
      BeforeIsPrefix(s[1..], key);
    }
  }

  lemma {:induction false} BeforeWithout(s: seq<nat>, x: nat, key: nat)
    requires x != key
    ensures Before(Without(s, x), key) == Without(Before(s, key), x)
  {
    if s != [] && s[0] != key {
      BeforeWithout(s[1..], x, key);
      var rest := Before(s[1..], key);
      assert ([s[0]] + rest)[1..] == rest;
      if s[0] != x {
        var kept := Without(s[1..], x);
        assert ([s[0]] + kept)[1..] == kept;
      }
    }
  }

  /** The keys in front of a used key are exactly those used since its last use. */
  lemma {:induction false} FrontIsUsedSince(trace: seq<nat>, key: nat)
    requires key in trace
    ensures forall x :: x in Before(Recency(trace), key) <==> x in UsedSince(trace, key)
  {
    var last, rest := trace[|trace| - 1], trace[..|trace| - 1];
    assert trace == rest + [last];
    if last != key {
      FrontIsUsedSince(rest, key);
      var r := Recency(rest);
      BeforeWithout(r, last, key);
      assert Recency(trace)[1..] == Without(r, last);
      forall x ensures x in Before(Recency(trace), key) <==> x in UsedSince(trace, key) {
        WithoutMembers(Before(r, key), last, if x >= 0 then x else 0);
      }
    }
  }

  lemma {:induction false} DistinctCardinality(s: seq<nat>)
    requires Distinct(s)
    ensures |Elements(s)| == |s|
  {
    if s != [] {
      DistinctCardinality(s[1..]);
      assert s == [s[0]] + s[1..];
      assert Elements(s) == Elements(s[1..]) + {s[0]};
      assert s[0] !in Elements(s[1..]);
    }
  }

  function Elements(s: seq<nat>): set<nat>
  {
    set x | x in s
  }

  /**
   LRU exactness: an n-slot cache holds a key exactly when the key was used and fewer than n
   distinct other keys were used since.
   */
  lemma HoldsIffFewUsedSince(n: nat, trace: seq<nat>, key: nat)
    ensures Holds(n, trace, key) <==> key in trace && |UsedSince(trace, key)| < n
  {
    var r := Recency(trace);
    RecencyIsDistinct(trace);
    if key in trace {
      var front := Before(r, key);
      FrontIsUsedSince(trace, key);
      BeforeIsPrefix(r, key);
      assert Distinct(front);
      DistinctCardinality(front);
      assert Elements(front) == UsedSince(trace, key);
      assert r[|front|] == key;
      if |front| < n {
        assert r[..Min(n, |r|)][|front|] == key;
      }
    }
  }

  // ---------- The slots ----------

  /** Where a key sits, or the number of slots. */
  function FindSlot(slots: seq<Slot>, key: nat): (i: nat)
    ensures i <= |slots|
    ensures i < |slots| ==> slots[i].valid && slots[i].key == key
    ensures forall j :: 0 <= j < i ==> !(slots[j].valid && slots[j].key == key)
  {
    if slots == [] || (slots[0].valid && slots[0].key == key) then 0 else 1 + FindSlot(slots[1..], key)
  }

  /** The slot to replace: the first free one, else the first with the least tick. */
  ghost predicate IsVictim(slots: seq<Slot>, v: nat)
  {
    && v < |slots|
    && ((exists i :: 0 <= i < |slots| && !slots[i].valid) ==> !slots[v].valid)
    && (slots[v].valid ==> forall i :: 0 <= i < |slots| ==> slots[v].tick <= slots[i].tick)
  }

  ghost predicate AllValid(slots: seq<Slot>)
  {
    forall i: nat :: i < |slots| ==> slots[i].valid
  }

  ghost predicate SlotAt(slots: seq<Slot>, now: nat, rec: seq<nat>, order: seq<nat>, p: nat)
    requires p < |order| && p < |rec|
  {
    order[p] < |slots| && slots[order[p]].valid && slots[order[p]].key == rec[p] && slots[order[p]].tick <= now
  }

  ghost predicate Later(slots: seq<Slot>, order: seq<nat>, p: nat, q: nat)
    requires p < |order| && q < |order|
  {
    order[p] < |slots| && order[q] < |slots| && slots[order[p]].tick > slots[order[q]].tick
  }

  /** The slots hold the first keys of a recency list; order lists their positions, most recent first. */
  ghost predicate Ranked(slots: seq<Slot>, now: nat, rec: seq<nat>, order: seq<nat>)
  {
    && Distinct(rec) && Distinct(order)
    && |order| == Min(|slots|, |rec|)
    && (forall p: nat :: p < |order| ==> SlotAt(slots, now, rec, order, p))
    && (forall p: nat, q: nat :: p < q < |order| ==> Later(slots, order, p, q))
    && (forall i: nat :: i < |slots| && slots[i].valid ==> i in order)
  }

  function Range(n: nat): (r: set<nat>)
    ensures |r| == n && forall i: nat :: i in r <==> i < n
  {
    if n == 0 then {} else Range(n - 1) + {n - 1}
  }

  lemma OrderCounts(slots: seq<Slot>, now: nat, rec: seq<nat>, order: seq<nat>)
    requires Ranked(slots, now, rec, order)
    ensures AllValid(slots) <==> |order| == |slots|
  {
    var range := Range(|slots|);
    var used := Elements(order);
    DistinctCardinality(order);
    forall i | i in order ensures i in range && slots[i].valid {
      var p :| 0 <= p < |order| && order[p] == i;
      assert SlotAt(slots, now, rec, order, p);
    }
    assert used <= range;
    if |order| == |slots| {
      if used != range { ProperSubset(used, range); }
      forall i: nat | i < |slots| ensures slots[i].valid {
        assert i in range;
      }
    }
    if AllValid(slots) {
      forall i: nat | i in range ensures i in used {
        assert slots[i].valid;
      }
      assert used == range;
    }
  }

  lemma ProperSubset(a: set<nat>, b: set<nat>)
    requires a < b
    ensures |a| < |b|
  {
    var x :| x in b && x !in a;
    assert a <= b - {x};
    SubsetCardinality(a, b - {x});
  }

  lemma {:induction false} SubsetCardinality(a: set<nat>, b: set<nat>)
    requires a <= b
    ensures |a| <= |b|
  {
    if a != {} {
      var x :| x in a;
      SubsetCardinality(a - {x}, b - {x});
    }
  }

  /** A hit is exactly a held key. */
  lemma RankedHits(slots: seq<Slot>, now: nat, rec: seq<nat>, order: seq<nat>, key: nat)
    requires Ranked(slots, now, rec, order)
    ensures FindSlot(slots, key) < |slots| <==> key in rec[..Min(|slots|, |rec|)]
  {
    var i := FindSlot(slots, key);
    if i < |slots| {
      var p := Rank(slots, now, rec, order, i);
      assert rec[..Min(|slots|, |rec|)][p] == key;
    }
    if key in rec[..Min(|slots|, |rec|)] {
      var p :| 0 <= p < Min(|slots|, |rec|) && rec[p] == key;
      assert SlotAt(slots, now, rec, order, p);
    }
  }

  /** How many more recent slots there are. */
  ghost function Rank(slots: seq<Slot>, now: nat, rec: seq<nat>, order: seq<nat>, i: nat): (p: nat)
    requires Ranked(slots, now, rec, order) && i < |slots| && slots[i].valid
    ensures p < |order| && p < |rec| && order[p] == i && rec[p] == slots[i].key
  {
    var p :| 0 <= p < |order| && order[p] == i;
    assert SlotAt(slots, now, rec, order, p);
    p
  }

  function Cut(s: seq<nat>, p: nat): seq<nat>
  {
    if p < |s| then s[..p] + s[p + 1..] else s
  }

  /** Where the element at q of a list came from, before position p was cut out. */
  function From(p: nat, q: nat): nat
  {
    if q < p then q else q + 1
  }

  lemma CutAt(s: seq<nat>, p: nat, q: nat)
    requires q < |Cut(s, p)|
    ensures From(p, q) < |s| && Cut(s, p)[q] == s[From(p, q)]
  {
  }

  lemma CutMember(s: seq<nat>, p: nat, x: nat)
    requires x in s && (p < |s| ==> s[p] != x)
    ensures x in Cut(s, p)
  {
    var q :| 0 <= q < |s| && s[q] == x;
    assert p < |s| ==> Cut(s, p)[if q < p then q else q - 1] == x;
  }

  lemma CutDistinct(s: seq<nat>, p: nat, x: nat)
    requires Distinct(s) && (x !in s || (p < |s| && s[p] == x))
    ensures Distinct([x] + Cut(s, p))
  {
    var s' := [x] + Cut(s, p);
    forall a, b | 0 <= a < b < |s'| ensures s'[a] != s'[b] {
      CutAt(s, p, b - 1);
      if a > 0 { CutAt(s, p, a - 1); }
    }
  }

  /** Slot v becomes the most recent, and the one at rank p leaves its place. */
  lemma Rerank(slots: seq<Slot>, now: nat, rec: seq<nat>, order: seq<nat>, v: nat, key: nat, p: nat, rec': seq<nat>)
    requires Ranked(slots, now, rec, order) && v < |slots|
    requires v !in order || (p < |order| && order[p] == v)
    requires p < |order| ==> order[p] == v
    requires Distinct(rec') && |Cut(order, p)| + 1 == Min(|slots|, |rec'|) && rec'[0] == key
    requires forall q :: 0 <= q < |Cut(order, p)| ==> From(p, q) < |rec| && rec'[q + 1] == rec[From(p, q)]
    ensures Ranked(slots[v := Slot(true, key, now + 1)], now + 1, rec', [v] + Cut(order, p))
  {
    hide SlotAt, Later, Cut, From;
    var slots' := slots[v := Slot(true, key, now + 1)];
    var order' := [v] + Cut(order, p);
    CutDistinct(order, p, v);
    forall q: nat {:trigger SlotAt(slots', now + 1, rec', order', q)} | q < |order'| ensures SlotAt(slots', now + 1, rec', order', q) {
      RerankSlot(slots, now, rec, order, v, key, p, rec', q);
    }
    forall a: nat, b: nat | a < b < |order'| ensures Later(slots', order', a, b) {
      RerankTwo(slots, now, rec, order, v, key, p, rec', a, b);
    }
    RerankListed(slots, now, rec, order, v, key, p);
  }

  lemma RerankSlot(slots: seq<Slot>, now: nat, rec: seq<nat>, order: seq<nat>, v: nat, key: nat, p: nat, rec': seq<nat>, q: nat)
    requires Ranked(slots, now, rec, order) && v < |slots| && q <= |Cut(order, p)| && |Cut(order, p)| < |rec'| && rec'[0] == key
    requires v !in order || (p < |order| && order[p] == v)
    requires forall k :: 0 <= k < |Cut(order, p)| ==> From(p, k) < |rec| && rec'[k + 1] == rec[From(p, k)]
    ensures SlotAt(slots[v := Slot(true, key, now + 1)], now + 1, rec', [v] + Cut(order, p), q)
  {
    hide Ranked, Cut, From;
    if q > 0 { RerankOne(slots, now, rec, order, v, key, p, rec', q - 1); }
  }

  lemma RerankTwo(slots: seq<Slot>, now: nat, rec: seq<nat>, order: seq<nat>, v: nat, key: nat, p: nat, rec': seq<nat>, a: nat, b: nat)
    requires Ranked(slots, now, rec, order) && v < |slots| && a < b <= |Cut(order, p)| && |Cut(order, p)| < |rec'|
    requires v !in order || (p < |order| && order[p] == v)
    requires forall q :: 0 <= q < |Cut(order, p)| ==> From(p, q) < |rec| && rec'[q + 1] == rec[From(p, q)]
    ensures Later(slots[v := Slot(true, key, now + 1)], [v] + Cut(order, p), a, b)
  {
    hide SlotAt, Cut, Distinct, Without, Recency, FindSlot;
    RerankOne(slots, now, rec, order, v, key, p, rec', b - 1);
    if a > 0 {
      RerankOne(slots, now, rec, order, v, key, p, rec', a - 1);
      CutAt(order, p, a - 1);
      CutAt(order, p, b - 1);
      var x, y := From(p, a - 1), From(p, b - 1);
      assert Later(slots, order, x, y);
    }
  }

  lemma RerankListed(slots: seq<Slot>, now: nat, rec: seq<nat>, order: seq<nat>, v: nat, key: nat, p: nat)
    requires Ranked(slots, now, rec, order) && v < |slots|
    requires p < |order| ==> order[p] == v
    ensures var slots' := slots[v := Slot(true, key, now + 1)];
            forall k: nat :: k < |slots'| && slots'[k].valid ==> k in [v] + Cut(order, p)
  {
    forall k: nat | k < |slots| && slots[k].valid && k != v ensures k in Cut(order, p) {
      CutMember(order, p, k);
    }
    hide SlotAt, Later, Cut;
  }

  lemma RerankOne(slots: seq<Slot>, now: nat, rec: seq<nat>, order: seq<nat>, v: nat, key: nat, p: nat, rec': seq<nat>, q: nat)
    requires Ranked(slots, now, rec, order) && v < |slots| && q < |Cut(order, p)| && q + 1 < |rec'|
    requires v !in order || (p < |order| && order[p] == v)
    requires From(p, q) < |rec| && rec'[q + 1] == rec[From(p, q)]
    ensures var k := Cut(order, p)[q];
            k == order[From(p, q)] && k != v && k < |slots| && slots[k].valid && slots[k].key == rec'[q + 1] && slots[k].tick <= now
  {
    CutAt(order, p, q);
    assert SlotAt(slots, now, rec, order, From(p, q));
    assert p < |order| ==> order[From(p, q)] != order[p];
  }

  /** A hit moves its key to the front of the recency list. */
  lemma HitKeepsRanked(slots: seq<Slot>, now: nat, rec: seq<nat>, order: seq<nat>, i: nat)
    requires Ranked(slots, now, rec, order) && i < |slots| && slots[i].valid
    ensures Ranked(slots[i := Slot(true, slots[i].key, now + 1)], now + 1,
                   [slots[i].key] + Without(rec, slots[i].key), Promote(order, i))
  {
    hide FindSlot, SlotAt, Later;
    var p := Rank(slots, now, rec, order, i);
    WithoutAt(order, p);
    WithoutAt(rec, p);
    CutDistinct(rec, p, rec[p]);
    var rec' := [rec[p]] + Cut(rec, p);
    forall q | 0 <= q < |Cut(order, p)| ensures From(p, q) < |rec| && rec'[q + 1] == rec[From(p, q)] {
      CutAt(rec, p, q);
    }
    Rerank(slots, now, rec, order, i, rec[p], p, rec');
  }

  /** The order after slot i becomes the most recent. */
  ghost function Promote(order: seq<nat>, i: nat): seq<nat>
  {
    [i] + Without(order, i)
  }

  lemma FreshKeepsRanked(slots: seq<Slot>, now: nat, rec: seq<nat>, order: seq<nat>, v: nat, key: nat)
    requires Ranked(slots, now, rec, order) && v < |slots| && !slots[v].valid
    requires FindSlot(slots, key) == |slots|
    ensures Ranked(slots[v := Slot(true, key, now + 1)], now + 1, [key] + Without(rec, key), Promote(order, v))
  {
    OrderCounts(slots, now, rec, order);
    RankedHits(slots, now, rec, order, key);
    hide FindSlot, Later;
    assert rec[..|rec|] == rec;
    forall q | 0 <= q < |order| ensures order[q] != v {
      assert SlotAt(slots, now, rec, order, q);
    }
    WithoutAbsent(order, v);
    WithoutAbsent(rec, key);
    CutDistinct(rec, |rec|, key);
    Rerank(slots, now, rec, order, v, key, |order|, [key] + rec);
  }

  lemma LeastTickIsLast(slots: seq<Slot>, now: nat, rec: seq<nat>, order: seq<nat>, v: nat)
    requires Ranked(slots, now, rec, order) && IsVictim(slots, v) && slots[v].valid
    ensures |order| == |slots| && order[|slots| - 1] == v
  {
    OrderCounts(slots, now, rec, order);
    var p := Rank(slots, now, rec, order, v);
    assert SlotAt(slots, now, rec, order, |order| - 1);
    assert p < |order| - 1 ==> Later(slots, order, p, |order| - 1);
  }

  /** A victim in use is the last of the keys held, and the slots are full exactly when it is in use. */
  lemma VictimIsLeastRecent(slots: seq<Slot>, now: nat, rec: seq<nat>, order: seq<nat>, v: nat)
    requires Ranked(slots, now, rec, order) && IsVictim(slots, v)
    ensures slots[v].valid <==> |rec| >= |slots|
    ensures slots[v].valid ==> slots[v].key == rec[|slots| - 1]
  {
    OrderCounts(slots, now, rec, order);
    if slots[v].valid {
      LeastTickIsLast(slots, now, rec, order, v);
      assert SlotAt(slots, now, rec, order, |slots| - 1);
    }
  }

  /** Two slots in use hold different keys. */
  lemma KeysDiffer(slots: seq<Slot>, now: nat, rec: seq<nat>, order: seq<nat>, i: nat, k: nat)
    requires Ranked(slots, now, rec, order) && i < |slots| && k < |slots| && i != k && slots[i].valid && slots[k].valid
    ensures slots[i].key != slots[k].key
  {
    var p, q := Rank(slots, now, rec, order, i), Rank(slots, now, rec, order, k);
  }

  lemma EvictKeepsRanked(slots: seq<Slot>, now: nat, rec: seq<nat>, order: seq<nat>, v: nat, key: nat)
    requires Ranked(slots, now, rec, order) && IsVictim(slots, v) && slots[v].valid
    requires FindSlot(slots, key) == |slots|
    ensures Ranked(slots[v := Slot(true, key, now + 1)], now + 1, [key] + Without(rec, key), Promote(order, v))
  {
    hide FindSlot, Ranked, Without, IsVictim, Cut, From, Distinct;
    var n := |slots|;
    EvictedIsLast(slots, now, rec, order, v, key);
    CutLast(order);
    WithoutAt(order, n - 1);
    assert Without(order, v) == Cut(order, n - 1);
    WithoutTail(rec, n, key);
    var rec' := [key] + Without(rec, key);
    forall q {:trigger From(n - 1, q)} | 0 <= q < |Cut(order, n - 1)| ensures From(n - 1, q) < |rec| && rec'[q + 1] == rec[From(n - 1, q)] {
      FromFront(order, rec, rec', n, q);
    }
    Rerank(slots, now, rec, order, v, key, n - 1, rec');
  }

  lemma EvictedIsLast(slots: seq<Slot>, now: nat, rec: seq<nat>, order: seq<nat>, v: nat, key: nat)
    requires Ranked(slots, now, rec, order) && IsVictim(slots, v) && slots[v].valid
    requires FindSlot(slots, key) == |slots|
    ensures 0 < |slots| == |order| <= |rec| && order[|slots| - 1] == v && v < |slots|
    ensures Distinct(order) && Distinct(rec) && key !in rec[..|slots|]
  {
    hide FindSlot, SlotAt, Later;
    LeastTickIsLast(slots, now, rec, order, v);
    RankedHits(slots, now, rec, order, key);
  }

  lemma CutLast(s: seq<nat>)
    requires s != []
    ensures Cut(s, |s| - 1) == s[..|s| - 1]
  {
  }

  lemma FromFront(order: seq<nat>, rec: seq<nat>, rec': seq<nat>, n: nat, q: nat)
    requires 0 < n == |order| && n <= |rec| && n <= |rec'| && q < |Cut(order, n - 1)| && rec'[..n] == [rec'[0]] + rec[..n - 1]
    ensures From(n - 1, q) < |rec| && rec'[q + 1] == rec[From(n - 1, q)]
  {
    assert rec'[..n][q + 1] == rec'[q + 1];
  }

  lemma WithoutTail(rec: seq<nat>, n: nat, key: nat)
    requires Distinct(rec) && 0 < n <= |rec| && key !in rec[..n]
    ensures var rec' := [key] + Without(rec, key);
            Distinct(rec') && |rec'| >= n && rec'[..n] == [key] + rec[..n - 1]
  {
    hide Distinct, Without, Cut;
    if key in rec {
      var p :| 0 <= p < |rec| && rec[p] == key;
      InFront(rec, n, p);
      WithoutAt(rec, p);
      CutIs(rec, p);
      CutDistinct(rec, p, key);
      CutKeepsFront(rec, p, n - 1);
    } else {
      WithoutAbsent(rec, key);
      CutIs(rec, |rec|);
      CutDistinct(rec, |rec|, key);
    }
  }

  lemma InFront(s: seq<nat>, n: nat, p: nat)
    requires n <= |s| && p < |s|
    ensures p < n ==> s[p] in s[..n]
  {
  }

  lemma CutIs(s: seq<nat>, p: nat)
    ensures Cut(s, p) == if p < |s| then s[..p] + s[p + 1..] else s
  {
  }

  lemma CutKeepsFront(s: seq<nat>, p: nat, n: nat)
    requires n < p < |s|
    ensures |Cut(s, p)| >= n && Cut(s, p)[..n] == s[..n]
  {
  }

  /** Replacing a victim keeps the slots the first keys of the recency list. */
  lemma MissKeepsRanked(slots: seq<Slot>, now: nat, rec: seq<nat>, order: seq<nat>, v: nat, key: nat)
    requires Ranked(slots, now, rec, order) && IsVictim(slots, v)
    requires FindSlot(slots, key) == |slots|
    ensures Ranked(slots[v := Slot(true, key, now + 1)], now + 1, [key] + Without(rec, key), Promote(order, v))
  {
    if slots[v].valid {
      EvictKeepsRanked(slots, now, rec, order, v, key);
    } else {
      FreshKeepsRanked(slots, now, rec, order, v, key);
    }
  }
}
