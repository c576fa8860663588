/**
 The heap of a process: a window of its address space, mapped from its start up to the current size.
 */
module ProcessHeap {
  import opened Options
  import opened PhysicalPages
  import opened PageWalk
  import opened PageAccess
  import opened PageRanges
  import opened PageTables

  const HEAP_OFFSET_FROM_ELF_END: nat := 0x10_0000
  const DEFAULT_MAX_HEAP_SIZE: nat := 0x4000_0000
  const PAGE_2M: nat := 0x20_0000
  /** Pages of a heap of the greatest size. */
  const MAX_HEAP_PAGES: nat := 0x4_0000

  /** The flags of an entry for a page of the heap. */
  const HEAP_FLAGS: set<nat> := {PTE_USER, PTE_WRITABLE} + {PTE_PRESENT}

  /** Moving the end of the heap: the old end, a refusal, or a failed assertion or allocation. */
  datatype HeapResult = Moved(oldEnd: nat) | Refused | Panicked

  /** The flags in a page's own entry. */
  function FlagsAt(tables: Tables, root: nat, n: nat): Option<set<nat>> {
    if LeafOf(tables, root, PathOf(n)).Some? then Some(LeafOf(tables, root, PathOf(n)).value.flags) else None
  }

  /** Of the window, exactly the first `count` pages are mapped, each behind a frame of its own. */
  ghost predicate HeapMapped(now: Memory, root: nat, first: nat, count: nat, frames: PageAllocator) {
    && (forall i :: count <= i < MAX_HEAP_PAGES ==> FrameAt(now.tables, root, Nth(first, i)) == None)
    && (forall i :: 0 <= i < count ==> FlagsAt(now.tables, root, Nth(first, i)) == Some(HEAP_FLAGS))
    && AllUnmappable(now.tables, root, first, count, true, frames)
    && OwnFrames(now.tables, root, now.pages, first, count)
  }

  /** Pages outside the window are behind the same frames. */
  ghost predicate SameOutside(before: Memory, after: Memory, root: nat, first: nat) {
    forall n :: 0 <= n < PAGES && Index(n, first) >= MAX_HEAP_PAGES ==>
      LeafOf(after.tables, root, PathOf(n)) == LeafOf(before.tables, root, PathOf(n))
  }

  lemma InWindow(first: nat, c: nat, k: nat, i: nat)
    requires first + MAX_HEAP_PAGES <= PAGES && c + k <= MAX_HEAP_PAGES && i < MAX_HEAP_PAGES
    ensures Nth(first, i) == first + i && Nth(first, c) < PAGES
    ensures Index(Nth(first, i), Nth(first, c)) < k <==> c <= i < c + k
    ensures c <= i < c + k ==>
      Index(Nth(first, i), Nth(first, c)) == i - c && Nth(Nth(first, c), i - c) == Nth(first, i)
  {}

  lemma OutOfWindow(first: nat, c: nat, k: nat, n: nat)
    requires first + MAX_HEAP_PAGES <= PAGES && c + k <= MAX_HEAP_PAGES && n < PAGES
    requires Index(n, first) >= MAX_HEAP_PAGES
    ensures Index(n, Nth(first, c)) >= k || k == 0
  {}

  lemma GrowHeap(before: Memory, after: Memory, root: nat, first: nat, c: nat, k: nat, given: seq<nat>,
                 frames: PageAllocator)
    requires first + MAX_HEAP_PAGES <= PAGES && c + k <= MAX_HEAP_PAGES && k > 0
    requires HeapMapped(before, root, first, c, frames)
    requires AllMapped(before, after, root, Nth(first, c), k, None, given, HEAP_FLAGS, frames)
    ensures HeapMapped(after, root, first, c + k, frames) && SameOutside(before, after, root, first)
  {
    hide PathOf, LeafOf, Nth, Index;
    forall i | 0 <= i < MAX_HEAP_PAGES
      ensures LeafOf(after.tables, root, PathOf(Nth(first, i)))
           == if c <= i < c + k then Some(Entry(given[i - c], HEAP_FLAGS))
              else LeafOf(before.tables, root, PathOf(Nth(first, i)))
    {
      InWindow(first, c, k, i);
    }
    forall n | 0 <= n < PAGES && Index(n, first) >= MAX_HEAP_PAGES
      ensures LeafOf(after.tables, root, PathOf(n)) == LeafOf(before.tables, root, PathOf(n))
    {
      OutOfWindow(first, c, k, n);
    }
  }

  /** Pages `c` to `d` of the window can be accessed exactly as pages of a heap should. */
  ghost predicate Accessible(tables: Tables, root: nat, first: nat, c: nat, d: nat) {
    forall i :: c <= i < d ==> Access(tables, root, PathOf(Nth(first, i))) == Some(HEAP_FLAGS)
  }

  lemma GrownAccess(before: Memory, after: Memory, root: nat, first: nat, c: nat, k: nat, given: seq<nat>,
                    frames: PageAllocator)
    requires first + MAX_HEAP_PAGES <= PAGES && c + k <= MAX_HEAP_PAGES && k > 0
    requires AllMapped(before, after, root, Nth(first, c), k, None, given, HEAP_FLAGS, frames)
    ensures Accessible(after.tables, root, first, c, c + k)
  {
    hide PathOf, LeafOf, Access, Grants, Nth, Index;
    forall i | c <= i < c + k ensures Access(after.tables, root, PathOf(Nth(first, i))) == Some(HEAP_FLAGS) {
      InWindow(first, c, k, i);
      assert Grants(after.tables, root, PathOf(Nth(Nth(first, c), i - c)), HEAP_FLAGS);
      ExactAccess(after.tables, root, PathOf(Nth(first, i)), Entry(given[i - c], HEAP_FLAGS));
    }
  }

  lemma MappedGrants(before: Memory, after: Memory, root: nat, first: nat, k: nat, given: seq<nat>,
                     frames: PageAllocator)
    requires AllMapped(before, after, root, first, k, None, given, HEAP_FLAGS, frames)
    ensures RangeGrants(before.tables, after.tables, root, first, k, HEAP_FLAGS)
  {}

  lemma ShrinkHeap(before: Memory, after: Memory, root: nat, first: nat, c: nat, k: nat, freed: seq<nat>,
                   frames: PageAllocator)
    requires first + MAX_HEAP_PAGES <= PAGES && c + k <= MAX_HEAP_PAGES && k > 0
    requires HeapMapped(before, root, first, c + k, frames)
    requires RangeCleared(before.tables, after.tables, root, Nth(first, c), k, freed)
    requires after.pages == FreedOnto(freed, before.pages) && after.tables.Keys == before.tables.Keys
    ensures HeapMapped(after, root, first, c, frames) && SameOutside(before, after, root, first)
  {
    hide PathOf, LeafOf, Nth, Index, FreedOnto;
    forall i | 0 <= i < MAX_HEAP_PAGES
      ensures LeafOf(after.tables, root, PathOf(Nth(first, i)))
           == if c <= i < c + k then None else LeafOf(before.tables, root, PathOf(Nth(first, i)))
      ensures c <= i < c + k ==> FrameAt(before.tables, root, Nth(first, i)) == Some(freed[i - c])
    {
      InWindow(first, c, k, i);
    }
    forall n | 0 <= n < PAGES && Index(n, first) >= MAX_HEAP_PAGES
      ensures LeafOf(after.tables, root, PathOf(n)) == LeafOf(before.tables, root, PathOf(n))
    {
      OutOfWindow(first, c, k, n);
    }
    forall p ensures p in after.pages <==> p in freed || p in before.pages {
      InFreed(freed, before.pages, p);
    }
    forall i | 0 <= i < c ensures CanFree(FrameAt(after.tables, root, Nth(first, i)), after.pages, after.tables) {
      forall j | 0 <= j < k ensures FrameAt(before.tables, root, Nth(first, i)) != Some(freed[j]) {
        assert FrameAt(before.tables, root, Nth(first, c + j)) == Some(freed[c + j - c]);
      }
    }
  }

  /** A heap of two pages whose last page is unmapped: the process loses the first one as well. */
  lemma SharedEntryExample(after: Tables)
    ensures HeapStart(0x30_0000) == 0x400 * PAGE_4K && TreeOk(TwoPages(), TwoPagesPlaces(), 0x1000)
    ensures Access(TwoPages(), 0x1000, PathOf(0x400)) == Access(TwoPages(), 0x1000, PathOf(0x401)) == Some(HEAP_FLAGS)
    ensures RangeTaken(TwoPages(), after, 0x1000, Nth(0x400, 1), 1, {PTE_USER, PTE_WRITABLE}) ==>
      Access(after, 0x1000, PathOf(0x400)) == Some({PTE_PRESENT})
  {
    hide TreeOk, Access, TwoPages, TwoPagesPlaces, PathOf;
    TwoPagesAccess();
    TwoPagesTree();
    DigitsUnroll(0x400);
    DigitsUnroll(0x401);
    if RangeTaken(TwoPages(), after, 0x1000, Nth(0x400, 1), 1, {PTE_USER, PTE_WRITABLE}) {
      assert PathOf(Nth(0x401, 0))[0] == PathOf(0x400)[0];
      assert SharesTop(0x400, 0x401, 1);
      assert HEAP_FLAGS - {PTE_USER, PTE_WRITABLE} == {PTE_PRESENT};
    }
  }

  /** Four tables, and behind the last one the first two pages of a heap at 4 MB. */
  function TwoPages(): Tables {
    map[0x1000 := NoEntries()[0 := Entry(0x2000, HEAP_FLAGS)], 0x2000 := NoEntries()[0 := Entry(0x3000, HEAP_FLAGS)],
        0x3000 := NoEntries()[2 := Entry(0x4000, HEAP_FLAGS)],
        0x4000 := NoEntries()[0 := Entry(0x5000, HEAP_FLAGS)][1 := Entry(0x6000, HEAP_FLAGS)]]
  }

  function TwoPagesPlaces(): Places {
    map[0x1000 := [], 0x2000 := [0], 0x3000 := [0, 0], 0x4000 := [0, 0, 2]]
  }

  lemma TwoPagesAccess()
    ensures Access(TwoPages(), 0x1000, PathOf(0x400)) == Access(TwoPages(), 0x1000, PathOf(0x401)) == Some(HEAP_FLAGS)
  {
    hide PathOf, TwoPages, Access;
    DigitsUnroll(0x400);
    DigitsUnroll(0x401);
    HeapPageAccess(0);
    HeapPageAccess(1);
  }

  lemma HeapPageAccess(last: nat)
    requires last < 2
    ensures Access(TwoPages(), 0x1000, [0, 0, 2, last]) == Some(HEAP_FLAGS)
  {
    hide TwoPages, Access, Meet;
    TwoPagesEntries();
    var t := TwoPages();
    HeapFlagsMeet();
    assert [2, last][1..] == [last] && [0, 2, last][1..] == [2, last] && [0, 0, 2, last][1..] == [0, 2, last];
    LastAccess(t, 0x4000, last);
    AccessStep(t, 0x3000, [2, last]);
    AccessStep(t, 0x2000, [0, 2, last]);
    AccessStep(t, 0x1000, [0, 0, 2, last]);
  }

  lemma HeapFlagsMeet()
    ensures PTE_PRESENT in HEAP_FLAGS && Meet(HEAP_FLAGS, Some(HEAP_FLAGS)) == Some(HEAP_FLAGS)
  {
    assert HEAP_FLAGS * HEAP_FLAGS == HEAP_FLAGS;
  }

  lemma LastAccess(tables: Tables, f: nat, i: nat)
    requires f in tables && i < |tables[f]| && tables[f][i].Present()
    ensures Access(tables, f, [i]) == Some(tables[f][i].flags)
  {
  }

  /** The one entry in use of a table above the last. */
  function TwoPagesIndex(f: nat): nat {
    if f == 0x3000 then 2 else 0
  }

  lemma TwoPagesEntries()
    ensures var t := TwoPages();
      && t.Keys == {0x1000, 0x2000, 0x3000, 0x4000} && (forall f :: f in t ==> |t[f]| == ENTRIES)
      && (forall f, i :: f in t && f != 0x4000 && 0 <= i < ENTRIES ==> (t[f][i].Present() <==> i == TwoPagesIndex(f)))
      && (forall f :: f in t && f != 0x4000 ==> t[f][TwoPagesIndex(f)] == Entry(f + 0x1000, HEAP_FLAGS))
      && (forall i :: 0 <= i < 2 ==> t[0x4000][i].flags == HEAP_FLAGS)
  {}

  lemma TwoPagesWalks()
    ensures var t := TwoPages();
      && Resolve(t, 0x1000, []) == Some(0x1000) && Resolve(t, 0x1000, [0]) == Some(0x2000)
      && Resolve(t, 0x1000, [0, 0]) == Some(0x3000) && Resolve(t, 0x1000, [0, 0, 2]) == Some(0x4000)
  {
    hide TwoPages;
    TwoPagesEntries();
    var t: Tables := TwoPages();
    assert t[0x1000][0].Present() && t[0x2000][0].Present() && t[0x3000][2].Present();
    assert [0][1..] == [] && [0, 0][1..] == [0] && [0, 0, 2][1..] == [0, 2] && [0, 2][1..] == [2] && [2][1..] == [];
    assert Resolve(t, 0x2000, [0]) == Some(0x3000) && Resolve(t, 0x3000, [2]) == Some(0x4000)
        && Resolve(t, 0x2000, [0, 2]) == Some(0x4000);
  }

  lemma TwoPagesTree()
    ensures TreeOk(TwoPages(), TwoPagesPlaces(), 0x1000)
  {
    hide TwoPages, Resolve, ChildOk;
    TwoPagesEntries();
    TwoPagesWalks();
    var t: Tables := TwoPages();
    var place: Places := TwoPagesPlaces();
    forall f: nat, i: nat | f in t && |place[f]| < 3 && 0 <= i < ENTRIES && t[f][i].Present()
      ensures ChildOk(t, place, f, i)
    {
      TwoPagesChild(f, i);
    }
  }

  lemma TwoPagesChild(f: nat, i: nat)
    requires f in TwoPages() && f != 0x4000 && i < |TwoPages()[f]| && TwoPages()[f][i].Present()
    ensures f in TwoPagesPlaces() && ChildOk(TwoPages(), TwoPagesPlaces(), f, i)
  {
    hide TwoPages;
    TwoPagesEntries();
    assert i == TwoPagesIndex(f);
  }

  class UserHeap {
    const vm: VirtualMemoryMapper
    const heapStart: nat
    const heapMax: nat
    var heapSize: nat

    /** The number of the window's first page. */
    function First(): nat {
      heapStart / PAGE_4K
    }

    ghost predicate Valid()
      reads this, vm, vm.frames
    {
      && vm.Valid() && vm.isUser && heapMax == DEFAULT_MAX_HEAP_SIZE
      && heapStart % PAGE_4K == 0 && heapSize % PAGE_4K == 0 && heapSize <= heapMax
      && heapStart + heapMax <= KERNEL_L4_INDEX * 0x80_0000_0000
      && HeapMapped(vm.Now(), vm.root, First(), heapSize / PAGE_4K, vm.frames)
    }

    /** An empty heap behind the program, in a window that nothing is mapped in. */
    constructor (vm: VirtualMemoryMapper, programEnd: nat)
      requires vm.Valid() && vm.isUser
      requires HeapStart(programEnd) + DEFAULT_MAX_HEAP_SIZE <= KERNEL_L4_INDEX * 0x80_0000_0000
      requires HeapMapped(vm.Now(), vm.root, HeapStart(programEnd) / PAGE_4K, 0, vm.frames)
      ensures Valid() && this.vm == vm && heapSize == 0 && heapStart == HeapStart(programEnd)
    {
      hide HeapMapped, HeapStart, VirtualMemoryMapper.Valid;
      this.vm, heapMax, heapSize := vm, DEFAULT_MAX_HEAP_SIZE, 0;
      heapStart := HeapStart(programEnd);
    }

    /** Everything but the size of the heap; `count` pages of the window are mapped. */
    ghost predicate Maps(count: nat)
      reads this, vm, vm.frames
    {
      && vm.Valid() && vm.isUser && heapMax == DEFAULT_MAX_HEAP_SIZE && heapStart % PAGE_4K == 0
      && heapStart + heapMax <= KERNEL_L4_INDEX * 0x80_0000_0000
      && HeapMapped(vm.Now(), vm.root, First(), count, vm.frames)
    }

    /** Maps `k` pages behind the first `c`, unless there are too few frames. */
    method Grow(c: nat, k: nat) returns (ok: bool)
      requires Maps(c) && c + k <= MAX_HEAP_PAGES && k > 0
      modifies vm`tables, vm`place, vm.frames
      ensures ok <==> old(|vm.frames.pages|) >= Need(None, Nth(First(), c), k, old(vm.place.Values))
      ensures ok ==> Maps(c + k) && SameOutside(old(vm.Now()), vm.Now(), vm.root, First())
      ensures ok ==> Accessible(vm.tables, vm.root, First(), c, c + k)
      ensures ok ==> RangeGrants(old(vm.tables), vm.tables, vm.root, Nth(First(), c), k, HEAP_FLAGS)
    {
      hide HeapMapped, VirtualMemoryMapper.Valid, SameOutside, Accessible, RangeGrants, Need, AllMapped, Nth;
      hide MapEntry.Ok, MapEntry.OkForUser, MapEntry.First, MapEntry.Count, MapEntry.Physical;
      ghost var before := vm.Now();
      var entry := MapEntry(heapStart + c * 0x1000, None, k * 0x1000, {PTE_USER, PTE_WRITABLE});
      HeapEntry(heapStart, c, k, entry);
      ghost var given;
      ok, given := vm.Map(entry);
      if ok {
        GrowHeap(before, vm.Now(), vm.root, First(), c, k, given, vm.frames);
        MappedGrants(before, vm.Now(), vm.root, Nth(First(), c), k, given, vm.frames);
        GrownAccess(before, vm.Now(), vm.root, First(), c, k, given, vm.frames);
      }
    }

    /** Unmaps the last `k` pages of `c + k`; their frames become free. */
    method Shrink(c: nat, k: nat)
      requires Maps(c + k) && c + k <= MAX_HEAP_PAGES && k > 0
      modifies vm`tables, vm.frames
      ensures Maps(c) && SameOutside(old(vm.Now()), vm.Now(), vm.root, First())
      ensures RangeTaken(old(vm.tables), vm.tables, vm.root, Nth(First(), c), k, {PTE_USER, PTE_WRITABLE})
    {
      hide RangeTaken, HeapMapped, VirtualMemoryMapper.Valid, SameOutside, RangeCleared, OwnFrames, AllUnmappable,
           Nth, FreedOnto;
      hide MapEntry.Ok, MapEntry.OkForUser, MapEntry.First, MapEntry.Count, MapEntry.Physical;
      ghost var before := vm.Now();
      var entry := MapEntry(heapStart + c * 0x1000, None, k * 0x1000, {PTE_USER, PTE_WRITABLE});
      HeapEntry(heapStart, c, k, entry);
      HeapTail(before, vm.root, First(), c, k, vm.frames);
      var ok, freed := vm.Unmap(entry, true);
      assert ok;
      ShrinkHeap(before, vm.Now(), vm.root, First(), c, k, freed, vm.frames);
    }

    /** Moves the end of the heap, and maps or unmaps the pages between the old and the new end. */
    method AddToHeap(increment: int) returns (r: HeapResult)
      requires Valid()
      modifies this`heapSize, vm`tables, vm`place, vm.frames
      ensures r == Refused <==>
        increment != 0 && increment % PAGE_4K == 0 && !(0 <= old(heapSize) + increment <= heapMax)
      ensures r == Panicked <==>
        || (increment != 0 && increment % PAGE_4K != 0)
        || (increment > 0 && old(heapSize) + increment <= heapMax && old(|vm.frames.pages|)
            < Need(None, Nth(First(), old(heapSize) / PAGE_4K), increment / PAGE_4K, old(vm.place.Values)))
      ensures r.Moved? ==> r.oldEnd == heapStart + old(heapSize) && heapSize == old(heapSize) + increment
      ensures r.Refused? ==> heapSize == old(heapSize) && vm.tables == old(vm.tables)
      ensures !r.Panicked? ==> Valid() && SameOutside(old(vm.Now()), vm.Now(), vm.root, First())
      ensures r.Moved? && increment > 0 ==>
        Accessible(vm.tables, vm.root, First(), old(heapSize) / PAGE_4K, heapSize / PAGE_4K)
      ensures r.Moved? && increment > 0 ==>
        RangeGrants(old(vm.tables), vm.tables, vm.root, Nth(First(), old(heapSize) / PAGE_4K), increment / PAGE_4K,
                    HEAP_FLAGS)
      ensures r.Moved? && increment < 0 ==>
        RangeTaken(old(vm.tables), vm.tables, vm.root, Nth(First(), heapSize / PAGE_4K), -increment / PAGE_4K,
                   {PTE_USER, PTE_WRITABLE})
    {
      hide HeapMapped, VirtualMemoryMapper.Valid, SameOutside, Accessible, RangeTaken, RangeGrants, Need, Nth;
      SameOutsideItself(vm.Now(), vm.root, First());
      if increment == 0 {
        return Moved(heapStart + heapSize);
      }
      if increment % PAGE_4K != 0 {
        return Panicked;
      }
      var newSize := heapSize + increment;
      if newSize < 0 || newSize > heapMax {
        return Refused;
      }
      var oldEnd := heapStart + heapSize;
      var c := heapSize / PAGE_4K;
      heapSize := newSize;
      if increment > 0 {
        var ok := Grow(c, increment / PAGE_4K);
        if !ok {
          return Panicked;
        }
      } else {
        var k := -increment / PAGE_4K;
        Shrink(c - k, k);
      }
      r := Moved(oldEnd);
    }
  }

  /** Where the heap of a program starts: 1 MB behind it, on the next 2 MB boundary. */
  function HeapStart(programEnd: nat): (r: nat)
    ensures r % PAGE_2M == 0 && r % PAGE_4K == 0
    ensures programEnd + HEAP_OFFSET_FROM_ELF_END <= r < programEnd + HEAP_OFFSET_FROM_ELF_END + PAGE_2M
  {
    (programEnd + HEAP_OFFSET_FROM_ELF_END + PAGE_2M - 1) / PAGE_2M * PAGE_2M
  }

  lemma SameOutsideItself(now: Memory, root: nat, first: nat)
    ensures SameOutside(now, now, root, first)
  {}

  /** The request for `k` pages from page `c` of the window. */
  lemma HeapEntry(heapStart: nat, c: nat, k: nat, entry: MapEntry)
    requires heapStart % PAGE_4K == 0 && c + k <= MAX_HEAP_PAGES && k > 0
    requires heapStart + DEFAULT_MAX_HEAP_SIZE <= KERNEL_L4_INDEX * 0x80_0000_0000
    requires entry == MapEntry(heapStart + c * 0x1000, None, k * 0x1000, {PTE_USER, PTE_WRITABLE})
    ensures entry.Ok() && entry.OkForUser() && entry.Physical() == None
    ensures entry.First() == Nth(heapStart / PAGE_4K, c) && entry.Count() == k
    ensures heapStart / PAGE_4K + MAX_HEAP_PAGES <= PAGES
  {}

  /** The last pages of the heap can be unmapped, and their frames freed. */
  lemma HeapTail(now: Memory, root: nat, first: nat, c: nat, k: nat, frames: PageAllocator)
    requires first + MAX_HEAP_PAGES <= PAGES && c + k <= MAX_HEAP_PAGES && k > 0
    requires HeapMapped(now, root, first, c + k, frames)
    ensures AllUnmappable(now.tables, root, Nth(first, c), k, true, frames)
    ensures OwnFrames(now.tables, root, now.pages, Nth(first, c), k)
  {
    hide PathOf, LeafOf, Nth, Index;
    forall i | 0 <= i < k ensures Nth(Nth(first, c), i) == Nth(first, c + i) {
      InWindow(first, c, k, c + i);
    }
  }
}
