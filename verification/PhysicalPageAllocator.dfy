/** The physical page allocator: first fit over a table of allocated pages. */
module PhysicalPageAllocators {
  import opened Results

  const PAGE_SIZE := 4096

  /** n consecutive free pages from start on. */
  ghost predicate IsRun(pages: seq<bool>, start: nat, n: nat)
  {
    start + n <= |pages| && forall i :: start <= i < start + n ==> !pages[i]
  }

  function FreePages(pages: seq<bool>): nat
  {
    if pages == [] then 0 else FreePages(pages[..|pages| - 1]) + (if pages[|pages| - 1] then 0 else 1)
  }

  /** The pages with a run marked allocated. */
  ghost function Marked(pages: seq<bool>, start: nat, n: nat): (pages': seq<bool>)
    requires start + n <= |pages|
    ensures |pages'| == |pages|
    ensures forall i :: 0 <= i < |pages| ==> pages'[i] == (pages[i] || start <= i < start + n)
  {
    seq(|pages|, i requires 0 <= i < |pages| => pages[i] || start <= i < start + n)
  }

  lemma {:induction false} FreeUpdate(pages: seq<bool>, i: nat, b: bool)
    requires i < |pages|
    ensures FreePages(pages[i := b]) == FreePages(pages) + (if pages[i] then 1 else 0) - (if b then 1 else 0)
  {
    var last := |pages| - 1;
    if i == last {
      assert pages[i := b][..last] == pages[..last];
    } else {
      FreeUpdate(pages[..last], i, b);
      assert pages[i := b][..last] == pages[..last][i := b];
    }
  }

  lemma {:induction false} MarkedCounts(pages: seq<bool>, start: nat, n: nat)
    requires IsRun(pages, start, n)
    ensures FreePages(Marked(pages, start, n)) == FreePages(pages) - n
  {
    if n == 0 {
      assert Marked(pages, start, 0) == pages;
    } else {
      MarkedCounts(pages, start, n - 1);
      var before := Marked(pages, start, n - 1);
      assert Marked(pages, start, n) == before[start + n - 1 := true];
      FreeUpdate(before, start + n - 1, true);
    }
  }

  /** A run of n free pages needs n free pages: the early test of the free count refuses nothing that fits. */
  lemma RunNeedsFree(pages: seq<bool>, start: nat, n: nat)
    requires IsRun(pages, start, n)
    ensures n <= FreePages(pages)
  {
    MarkedCounts(pages, start, n);
  }

  lemma {:induction false} FreeAbove(pages: seq<bool>, first: nat)
    requires first <= |pages| && forall i :: 0 <= i < |pages| ==> pages[i] == (i < first)
    ensures FreePages(pages) == |pages| - first
  {
    if pages != [] {
      var last := |pages| - 1;
      if first <= last {
        FreeAbove(pages[..last], first);
      } else {
        FreeAbove(pages[..last], last);
      }
    }
  }

  // ---------- The scan ----------

  /** No run of n pages from first on ends at or before i. */
  ghost predicate NoRunBefore(pages: seq<bool>, first: nat, n: nat, i: nat)
  {
    forall s: nat :: first <= s && s + n <= i ==> !IsRun(pages, s, n)
  }

  /** The scan has reached i with the last length pages free, and no further back. */
  ghost predicate Scanned(pages: seq<bool>, first: nat, n: nat, i: nat, start: nat, length: nat)
  {
    && first <= i <= |pages| && length < n && NoRunBefore(pages, first, n, i)
    && (length > 0 ==> first <= start && start + length == i && IsRun(pages, start, length))
    && (i - length == first || (first < i - length && pages[i - length - 1]))
  }

  lemma ScanFull(pages: seq<bool>, first: nat, n: nat, i: nat, start: nat, length: nat)
    requires Scanned(pages, first, n, i, start, length) && i < |pages| && pages[i]
    ensures Scanned(pages, first, n, i + 1, start, 0)
  {
    forall s: nat | first <= s && s + n <= i + 1 ensures !IsRun(pages, s, n) {
      if s + n == i + 1 { assert pages[i]; }
    }
  }

  lemma ScanFree(pages: seq<bool>, first: nat, n: nat, i: nat, start: nat, length: nat)
    requires Scanned(pages, first, n, i, start, length) && i < |pages| && !pages[i]
    ensures var start' := if length == 0 then i else start;
            && IsRun(pages, start', length + 1) && start' + length + 1 == i + 1 && first <= start'
            && (length + 1 == n ==> NoRunBefore(pages, first, n, i) && start' + n == i + 1)
            && (length + 1 < n ==> Scanned(pages, first, n, i + 1, start', length + 1))
  {
    var start' := if length == 0 then i else start;
    if length + 1 < n {
      forall s: nat | first <= s && s + n <= i + 1 ensures !IsRun(pages, s, n) {
        if s + n == i + 1 { assert s <= start' - 1 && start' - 1 == i - length - 1; }
      }
    }
  }

  class PhysicalPageAllocator {
    const total: nat
    const first: nat
    const pages: array<bool>
    var freeCount: nat

    /** The free count is right, and the reserved low pages stay allocated. */
    ghost predicate Valid()
      reads this, pages
    {
      && pages.Length == total && first <= total
      && freeCount == FreePages(pages[..])
      && forall i :: 0 <= i < first ==> pages[i]
    }

    constructor (total: nat, first: nat)
      requires 0 < total && first <= total
      ensures Valid() && this.total == total && this.first == first && fresh(pages) && freeCount == total - first
      ensures forall i :: 0 <= i < total ==> pages[i] == (i < first)
    {
      this.total, this.first := total, first;
      freeCount := total - first;
      pages := new bool[total](i => i < first);
      new;
      FreeAbove(pages[..], first);
    }

    method MarkAllocated(i: nat)
      requires Valid() && i < total
      modifies this`freeCount, pages
      ensures Valid() && pages[..] == old(pages[..])[i := true]
    {
      FreeUpdate(pages[..], i, true);
      if !pages[i] {
        assert freeCount > 0;
        freeCount := freeCount - 1;
      }
      pages[i] := true;
      assert pages[..] == old(pages[..])[i := true];
    }

    method MarkRun(start: nat, n: nat)
      requires Valid() && start + n <= total
      modifies this`freeCount, pages
      ensures Valid() && pages[..] == Marked(old(pages[..]), start, n)
    {
      ghost var was := pages[..];
      assert Marked(was, start, 0) == was;
      for i := start to start + n
        invariant Valid() && pages[..] == Marked(was, start, i - start)
      {
        MarkAllocated(i);
        assert pages[..] == Marked(was, start, i + 1 - start);
      }
    }

    /** The lowest run of n free pages from the first allocatable page on, exactly when there is one. */
    method FindRun(n: nat) returns (start: nat)
      requires Valid() && n > 0
      ensures start < total ==> first <= start && IsRun(pages[..], start, n) && NoRunBefore(pages[..], first, n, start + n - 1)
      ensures start >= total ==> NoRunBefore(pages[..], first, n, total)
    {
      start := 0;
      var length := 0;
      for i := first to total
        invariant Scanned(pages[..], first, n, i, start, length)
      {
        if pages[i] {
          ScanFull(pages[..], first, n, i, start, length);
          length := 0;
        } else {
          ScanFree(pages[..], first, n, i, start, length);
          if length == 0 {
            start := i;
          }
          length := length + 1;
          if length == n {
            return;
          }
        }
      }
      start := total;
    }

    method AllocateContiguous(n: nat) returns (r: Result<nat>)
      requires Valid()
      modifies this`freeCount, pages
      ensures Valid()
      ensures r.Ok? <==> n > 0 && exists s: nat :: first <= s && IsRun(old(pages[..]), s, n)
      ensures r.Ok? ==>
                && r.value % 4096 == 0
                && var s := r.value / 4096;
                && first <= s && IsRun(old(pages[..]), s, n)
                && (forall x: nat :: first <= x < s ==> !IsRun(old(pages[..]), x, n))
                && pages[..] == Marked(old(pages[..]), s, n)
                && freeCount == old(freeCount) - n
      ensures r.Err? ==> pages[..] == old(pages[..]) && r.error == if n == 0 then InvalidArgument else BadAlloc
    {
      if n == 0 {
        return Err(InvalidArgument);
      }
      ghost var was := pages[..];
      if n > freeCount {
        forall s: nat ensures !IsRun(was, s, n) {
          if IsRun(was, s, n) { RunNeedsFree(was, s, n); }
        }
        return Err(BadAlloc);
      }
      var start := FindRun(n);
      if start >= total {
        assert forall s: nat :: IsRun(was, s, n) ==> s + n <= total;
        return Err(BadAlloc);
      }
      MarkRun(start, n);
      MarkedCounts(was, start, n);
      assert IsRun(was, start, n);
      return Ok(start * PAGE_SIZE);
    }

    method ReserveRange(address: nat, n: nat) returns (r: Result<()>)
      requires Valid()
      modifies this`freeCount, pages
      ensures Valid()
      ensures r == if address % 4096 != 0 then Err(InvalidArgument)
                   else if address / 4096 >= total then Err(OutOfRange)
                   else if n == 0 then Err(InvalidArgument)
                   else if n > total - address / 4096 then Err(OutOfRange)
                   else Ok(())
      ensures pages[..] == if r.Ok? then Marked(old(pages[..]), address / 4096, n) else old(pages[..])
    {
      if address % PAGE_SIZE != 0 {
        return Err(InvalidArgument);
      }
      if address / PAGE_SIZE >= total {
        return Err(OutOfRange);
      }
      if n == 0 {
        return Err(InvalidArgument);
      }
      var start := address / PAGE_SIZE;
      if n > total - start {
        return Err(OutOfRange);
      }
      MarkRun(start, n);
      return Ok(());
    }

    method FreePage(address: nat) returns (r: Result<()>)
      requires Valid()
      modifies this`freeCount, pages
      ensures Valid()
      ensures r == if address % 4096 != 0 then Err(InvalidArgument)
                   else if address / 4096 >= total then Err(OutOfRange)
                   else if address / 4096 < first || !old(pages[address / 4096]) then Err(LogicError)
                   else Ok(())
      ensures pages[..] == if r.Ok? then old(pages[..])[address / 4096 := false] else old(pages[..])
    {
      if address % PAGE_SIZE != 0 {
        return Err(InvalidArgument);
      }
      if address / PAGE_SIZE >= total {
        return Err(OutOfRange);
      }
      var i := address / PAGE_SIZE;
      if i < first || !pages[i] {
        return Err(LogicError);
      }
      FreeUpdate(pages[..], i, false);
      pages[i] := false;
      freeCount := freeCount + 1;
      assert pages[..] == old(pages[..])[i := false];
      return Ok(());
    }
  }

  /** The constructor's checks, then the allocator. */
  method MakeAllocator(total: nat, first: nat) returns (r: Result<PhysicalPageAllocator>)
    ensures total == 0 ==> r == Err(InvalidArgument)
    ensures total > 0 && first > total ==> r == Err(OutOfRange)
    ensures total > 0 && first <= total ==>
              && r.Ok? && r.value.Valid() && r.value.total == total && r.value.first == first
              && fresh(r.value) && fresh(r.value.pages) && r.value.freeCount == total - first
              && forall i :: 0 <= i < total ==> r.value.pages[i] == (i < first)
  {
    if total == 0 {
      return Err(InvalidArgument);
    }
    if first > total {
      return Err(OutOfRange);
    }
    var allocator := new PhysicalPageAllocator(total, first);
    return Ok(allocator);
  }

  /** Allocating and then freeing each page of the run gives back the table. */
  lemma {:induction false} FreeUndoesAllocate(pages: seq<bool>, start: nat, n: nat)
    requires IsRun(pages, start, n)
    ensures Unmarked(Marked(pages, start, n), start, n) == pages
  {
    if n > 0 {
      FreeUndoesAllocate(pages, start, n - 1);
      var marked := Marked(pages, start, n);
      assert marked[start + n - 1 := false] == Marked(pages, start, n - 1);
    } else {
      assert Marked(pages, start, 0) == pages;
    }
  }

  /** The pages after n calls of free_page, from the last page of the run to the first. */
  ghost function Unmarked(pages: seq<bool>, start: nat, n: nat): (pages': seq<bool>)
    requires start + n <= |pages|
    ensures |pages'| == |pages|
    decreases n
  {
    if n == 0 then pages else Unmarked(pages[start + n - 1 := false], start, n - 1)
  }
}
