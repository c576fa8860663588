/**
 The physical page allocator: a free list threaded through the free pages.  Addresses are physical,
 and 0 is the null pointer.
 */
module PhysicalPages {

  const PAGE_4K: nat := 0x1000

  function NextOf(pages: seq<nat>, i: int): nat {
    if 0 <= i < |pages| then pages[i] else 0
  }

  class PageAllocator {
    var head: nat
    var next: map<nat, nat>
    const start: nat
    const end: nat
    /** The free pages in the order in which they will be handed out. */
    ghost var pages: seq<nat>

    predicate InRange(page: nat) {
      page != 0 && page % PAGE_4K == 0 && start <= page < end
    }

    ghost predicate Valid()
      reads this
    {
      && head == NextOf(pages, 0)
      && (forall i :: 0 <= i < |pages| ==> InRange(pages[i]) && pages[i] in next && next[pages[i]] == NextOf(pages,
          i + 1))
      && (forall i, j :: 0 <= i < j < |pages| ==> pages[i] != pages[j])
    }

    constructor (start: nat, end: nat)
      ensures Valid() && pages == [] && this.start == start && this.end == end
    {
      this.start, this.end := start, end;
      head, next, pages := 0, map[], [];
    }

    /** Hands out the page at the head of the list; null when there is none. */
    method Alloc() returns (page: nat)
      requires Valid()
      modifies this
      ensures Valid()
      ensures page == 0 <==> old(pages) == []
      ensures page == 0 ==> pages == old(pages)
      ensures page != 0 ==> old(pages) == [page] + pages && page !in pages && InRange(page)
    {
      page := head;
      if page != 0 {
        head := next[page];
        pages := pages[1..];
      }
    }

    /** Puts a page at the head of the list, if it is a page of this allocator at all. */
    method Free(page: nat) returns (ok: bool)
      requires Valid() && page !in pages
      modifies this
      ensures Valid() && ok == InRange(page)
      ensures pages == if ok then [page] + old(pages) else old(pages)
    {
      ok := InRange(page);
      if ok {
        next := next[page := head];
        head := page;
        pages := [page] + pages;
      }
    }

    /** The pages of `[low, high)` from the last to the first. */
    static function Descending(low: nat, high: nat): (r: seq<nat>)
      requires low % PAGE_4K == 0 && high % PAGE_4K == 0 && low <= high
      decreases high
    {
      if low == high then [] else [high - PAGE_4K] + Descending(low, high - PAGE_4K)
    }

    static lemma DescendingNext(low: nat, high: nat)
      requires low % PAGE_4K == 0 && high % PAGE_4K == 0 && low <= high
      ensures (high + PAGE_4K) % PAGE_4K == 0 && Descending(low, high + PAGE_4K) == [high] + Descending(low, high)
    {
    }

    static lemma NoPages(low: nat)
      requires low % PAGE_4K == 0
      ensures Descending(low, low) == []
    {
    }

    static lemma NextAligned(page: nat, last: nat)
      requires page % PAGE_4K == 0 && last % PAGE_4K == 0 && page < last
      ensures page + PAGE_4K <= last
    {
    }

    static lemma {:induction false} DescendingIn(low: nat, high: nat, p: nat)
      requires low % PAGE_4K == 0 && high % PAGE_4K == 0 && low <= high
      ensures p in Descending(low, high) <==> p % PAGE_4K == 0 && low <= p < high
      decreases high
    {
      if low < high {
        DescendingIn(low, high - PAGE_4K, p);
      }
    }

    /** Frees a whole range, so that its pages are handed out from the last to the first. */
    method InitRange(low: nat, high: nat)
      requires Valid()
      requires RoundUp(low) < RoundDown(high) && start <= low && high <= end && low > 0
      requires forall p :: p in pages ==> !(RoundUp(low) <= p < RoundDown(high))
      modifies this
      ensures Valid() && pages == Descending(RoundUp(low), RoundDown(high)) + old(pages)
    {
      hide PageAllocator.Valid, PageAllocator.RoundUp, PageAllocator.RoundDown, PageAllocator.Descending;
      var (first, last) := (RoundUp(low), RoundDown(high));
      var page := first;
      NoPages(first);
      while page < last
        invariant Valid() && first <= page <= last && page % PAGE_4K == 0
        invariant pages == Descending(first, page) + old(pages)
      {
        DescendingIn(first, page, page);
        DescendingNext(first, page);
        NextAligned(page, last);
        var ok := Free(page);
        assert ok;
        page := page + PAGE_4K;
      }
    }

    static function RoundUp(a: nat): (r: nat)
      ensures r % PAGE_4K == 0 && a <= r < a + PAGE_4K
    {
      (a + PAGE_4K - 1) / PAGE_4K * PAGE_4K
    }

    static function RoundDown(a: nat): (r: nat)
      ensures r % PAGE_4K == 0 && r <= a < r + PAGE_4K
    {
      a / PAGE_4K * PAGE_4K
    }
  }
}
