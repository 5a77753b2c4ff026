/** The direct-mapped translation lookaside buffer. */
module Tlb {
  import opened Results
  import opened Paging

  const SLOTS := 64

  datatype TlbEntry = TlbEntry(translation: Translation, generation: nat, pcid: nat, valid: bool)

  const EMPTY_ENTRY := TlbEntry(Translation(0, 0, PAGE_4K, Permissions(false, false, true), 0, false), 0, 0, false)

  type Entries = e: seq<TlbEntry> | |e| == SLOTS witness seq(SLOTS, _ => EMPTY_ENTRY)

  function Slot(va: nat): (s: nat)
    ensures s < SLOTS
  {
    va / PAGE_4K % SLOTS
  }

  predicate Matches(e: TlbEntry, va: Qword, generation: nat, pcid: nat)
  {
    e.valid && e.generation == generation && e.pcid == pcid && e.translation.Covers(va)
  }

  function Lookup(entries: Entries, va: Qword, generation: nat, pcid: nat): Option<Translation>
  {
    var e := entries[Slot(va)];
    if Matches(e, va, generation, pcid) then Some(e.translation) else None
  }

  function Insert(entries: Entries, x: Translation, generation: nat, pcid: nat): Entries
  {
    entries[Slot(x.virtualBase) := TlbEntry(x, generation, pcid, true)]
  }

  /** Which entries an invalidation drops: those that cover an address, or all; of one context, or of all. */
  datatype Invalidation = Invalidation(va: Option<Qword>, pcid: Option<nat>) {
    predicate Hits(e: TlbEntry)
    {
      && e.valid
      && (va.Some? ==> e.translation.Covers(va.value))
      && (pcid.Some? ==> e.pcid == pcid.value)
    }
  }

  function Invalidate(entries: Entries, which: Invalidation): Entries
  {
    seq(SLOTS, i requires 0 <= i < SLOTS => if which.Hits(entries[i]) then entries[i].(valid := false) else entries[i])
  }

  function ValidCount(entries: seq<TlbEntry>): nat
  {
    if entries == [] then 0 else ValidCount(entries[..|entries| - 1]) + (if entries[|entries| - 1].valid then 1 else 0)
  }

  lemma {:induction false} ValidCountUpdate(entries: seq<TlbEntry>, i: nat, e: TlbEntry)
    requires i < |entries|
    ensures ValidCount(entries[i := e]) ==
            ValidCount(entries) + (if e.valid then 1 else 0) - (if entries[i].valid then 1 else 0)
  {
    var n := |entries| - 1;
    if i == n {
      assert entries[i := e][..n] == entries[..n];
    } else {
      assert entries[i := e][..n] == entries[..n][i := e];
      ValidCountUpdate(entries[..n], i, e);
    }
  }

  class TranslationLookasideBuffer {
    const entries: array<TlbEntry>
    var size: nat

    ghost predicate Valid()
      reads this, entries
    {
      entries.Length == SLOTS && size == ValidCount(entries[..])
    }

    constructor ()
      ensures Valid() && fresh(entries) && entries[..] == seq(SLOTS, _ => EMPTY_ENTRY) && size == 0
    {
      entries := new TlbEntry[SLOTS](_ => EMPTY_ENTRY);
      size := 0;
      new;
      NoneValid(entries[..]);
    }

    method LookupAddress(va: Qword, generation: nat, pcid: nat) returns (x: Option<Translation>)
      requires Valid()
      ensures x == Lookup(entries[..], va, generation, pcid)
    {
      var e := entries[Slot(va)];
      return if Matches(e, va, generation, pcid) then Some(e.translation) else None;
    }

    method InsertTranslation(x: Translation, generation: nat, pcid: nat)
      requires Valid()
      modifies this, entries
      ensures Valid() && entries[..] == Insert(old(entries[..]), x, generation, pcid)
    {
      var slot := Slot(x.virtualBase);
      ValidCountUpdate(entries[..], slot, TlbEntry(x, generation, pcid, true));
      if !entries[slot].valid {
        size := size + 1;
      }
      entries[slot] := TlbEntry(x, generation, pcid, true);
    }

    /** clear, invalidate_context and both forms of invalidate_page. */
    method InvalidateEntries(which: Invalidation)
      requires Valid()
      modifies this, entries
      ensures Valid() && entries[..] == Invalidate(old(entries[..]), which)
    {
      ghost var was := entries[..];
      for i := 0 to SLOTS
        invariant forall j :: 0 <= j < SLOTS ==>
          entries[j] == if j < i && which.Hits(was[j]) then was[j].(valid := false) else was[j]
        invariant size == ValidCount(entries[..])
      {
        if which.Hits(entries[i]) {
          ValidCountUpdate(entries[..], i, entries[i].(valid := false));
          SomeValid(entries[..], i);
          entries[i] := entries[i].(valid := false);
          size := size - 1;
        }
      }
    }
  }

  lemma {:induction false} NoneValid(entries: seq<TlbEntry>)
    requires forall i :: 0 <= i < |entries| ==> !entries[i].valid
    ensures ValidCount(entries) == 0
  {
    if entries != [] {
      NoneValid(entries[..|entries| - 1]);
    }
  }

  lemma {:induction false} SomeValid(entries: seq<TlbEntry>, i: nat)
    requires i < |entries| && entries[i].valid
    ensures ValidCount(entries) > 0
  {
    if i < |entries| - 1 {
      SomeValid(entries[..|entries| - 1], i);
    }
  }

  // ---------- What a lookup finds ----------

  datatype TlbOp =
    | Inserting(translation: Translation, generation: nat, pcid: nat)
    | Dropping(which: Invalidation)

  function After(entries: Entries, ops: seq<TlbOp>): Entries
  {
    if ops == [] then entries
    else
      var before := After(entries, ops[..|ops| - 1]);
      match ops[|ops| - 1]
      case Inserting(x, generation, pcid) => Insert(before, x, generation, pcid)
      case Dropping(which) => Invalidate(before, which)
  }

  /** The operation puts something else into the slot of the address, or drops what is cached of a context at one of these addresses. */
  ghost predicate Displaces(op: TlbOp, va: Qword, x: Translation, pcid: nat)
  {
    match op
    case Inserting(y, _, _) => y.virtualBase / 4096 % 64 == va / 4096 % 64
    case Dropping(which) =>
      && (which.va.Some? ==> x.virtualBase <= which.va.value < x.virtualBase + x.size)
      && (which.pcid.Some? ==> which.pcid.value == pcid)
  }

  /** Inserted for this generation and context at step i, covering the address and sharing its slot, and not displaced since. */
  ghost predicate HeldSince(ops: seq<TlbOp>, i: nat, va: Qword, generation: nat, pcid: nat, x: Translation)
  {
    && i < |ops| && ops[i] == Inserting(x, generation, pcid)
    && x.virtualBase <= va < x.virtualBase + x.size && x.virtualBase / 4096 % 64 == va / 4096 % 64
    && forall j :: i < j < |ops| ==> !Displaces(ops[j], va, x, pcid)
  }

  lemma LookupAfterInsert(entries: Entries, x: Translation, g: nat, p: nat, va: Qword, generation: nat, pcid: nat)
    ensures Lookup(Insert(entries, x, g, p), va, generation, pcid)
            == if x.virtualBase / 4096 % 64 != va / 4096 % 64 then Lookup(entries, va, generation, pcid)
               else if x.virtualBase <= va < x.virtualBase + x.size && g == generation && p == pcid then Some(x) else None
  {
  }

  lemma LookupAfterInvalidate(entries: Entries, which: Invalidation, va: Qword, generation: nat, pcid: nat)
    ensures var found := Lookup(entries, va, generation, pcid);
            Lookup(Invalidate(entries, which), va, generation, pcid)
            == if found.Some? && Displaces(Dropping(which), va, found.value, pcid) then None else found
  {
  }

  /** Over any insertions and invalidations from an empty TLB, a lookup finds a translation exactly while it is held. */
  lemma {:induction false} LookupIffHeld(ops: seq<TlbOp>, va: Qword, generation: nat, pcid: nat, x: Translation)
    ensures Lookup(After(seq(SLOTS, _ => EMPTY_ENTRY), ops), va, generation, pcid) == Some(x)
            <==> exists i: nat :: HeldSince(ops, i, va, generation, pcid, x)
    decreases |ops|
  {
    hide Lookup, Insert, Invalidate, Displaces;
    var empty: Entries := seq(SLOTS, _ => EMPTY_ENTRY);
    if ops == [] {
      NothingCached(va, generation, pcid);
    } else {
      var n := |ops| - 1;
      var before := After(empty, ops[..n]);
      LookupIffHeld(ops[..n], va, generation, pcid, x);
      assert forall i: nat :: i < n ==> (HeldSince(ops, i, va, generation, pcid, x) <==>
               HeldSince(ops[..n], i, va, generation, pcid, x) && !Displaces(ops[n], va, x, pcid)) by {
        forall i: nat | i < n
          ensures HeldSince(ops, i, va, generation, pcid, x) <==>
                  HeldSince(ops[..n], i, va, generation, pcid, x) && !Displaces(ops[n], va, x, pcid)
        {
          HeldOneMore(ops, n, i, va, generation, pcid, x);
        }
      }
      HeldAtEnd(ops, n, va, generation, pcid, x);
      match ops[n]
      case Inserting(y, g, p) =>
        LookupAfterInsert(before, y, g, p, va, generation, pcid);
        InsertDisplaces(y, g, p, va, x, pcid);
        if Lookup(After(empty, ops), va, generation, pcid) == Some(x) && y.virtualBase / 4096 % 64 == va / 4096 % 64 {
          assert HeldSince(ops, n, va, generation, pcid, x);
        }
      case Dropping(which) => LookupAfterInvalidate(before, which, va, generation, pcid);
    }
  }

  lemma NothingCached(va: Qword, generation: nat, pcid: nat)
    ensures Lookup(seq(SLOTS, _ => EMPTY_ENTRY), va, generation, pcid) == None
  {
  }

  lemma InsertDisplaces(y: Translation, g: nat, p: nat, va: Qword, x: Translation, pcid: nat)
    ensures Displaces(Inserting(y, g, p), va, x, pcid) <==> y.virtualBase / 4096 % 64 == va / 4096 % 64
  {
  }

  lemma HeldOneMore(ops: seq<TlbOp>, n: nat, i: nat, va: Qword, generation: nat, pcid: nat, x: Translation)
    requires |ops| == n + 1 && i < n
    ensures HeldSince(ops, i, va, generation, pcid, x) <==>
            HeldSince(ops[..n], i, va, generation, pcid, x) && !Displaces(ops[n], va, x, pcid)
  {
    hide Displaces;
    assert ops[..n][i] == ops[i];
    if HeldSince(ops, i, va, generation, pcid, x) {
      forall j | i < j < n ensures !Displaces(ops[..n][j], va, x, pcid) { assert ops[..n][j] == ops[j]; }
    }
    if HeldSince(ops[..n], i, va, generation, pcid, x) && !Displaces(ops[n], va, x, pcid) {
      forall j | i < j < |ops| ensures !Displaces(ops[j], va, x, pcid) { if j < n { assert ops[..n][j] == ops[j]; } }
    }
  }

  lemma HeldAtEnd(ops: seq<TlbOp>, n: nat, va: Qword, generation: nat, pcid: nat, x: Translation)
    requires |ops| == n + 1
    ensures HeldSince(ops, n, va, generation, pcid, x) <==>
            ops[n] == Inserting(x, generation, pcid) && x.virtualBase <= va < x.virtualBase + x.size
            && x.virtualBase / 4096 % 64 == va / 4096 % 64
    ensures forall i: nat :: HeldSince(ops, i, va, generation, pcid, x) ==> i <= n
  {
    hide Displaces;
  }
}
