/**
 What mapping and unmapping a range of pages means, on values: which pages translate to which frames,
 how many frames it takes, and how the effect of a range is built up one page at a time.
 */
module PageRanges {
  import opened Arithmetic
  import opened Options
  import opened PhysicalPages
  import opened PageWalk
  import opened PageAccess

  const KERNEL_MAPPED_SIZE: nat := 0x800_0000
  const KERNEL_L4_INDEX: nat := 0x1FF
  const MAX_USER_VIRTUAL_ADDRESS: nat := 0xFFFF_FF7F_FFFF_F000

  /** The places of the tables a walk along `path` goes through, below the root. */
  function Above(path: seq<nat>): set<seq<nat>>
    requires |path| == 4
  {
    {path[..1], path[..2], path[..3]}
  }

  /** A request to map or unmap a range. */
  datatype MapEntry = MapEntry(address: nat, physical: Option<nat>, size: nat, flags: set<nat>)
  {
    /** The number of the first page of the range. */
    function First(): nat {
      PageOf(address)
    }

    /** How many pages the range touches. */
    function Count(): nat {
      AlignRange(address, size).1 / PAGE_4K
    }

    /** Where the range of frames starts, if it is given. */
    function Physical(): Option<nat> {
      if physical.Some? then Some(PageAllocator.RoundDown(physical.value)) else None
    }

    /** What every request meets: no overflow, a range that is not empty and fits the address space. */
    predicate Ok() {
      && address + size + PAGE_4K <= 0x1_0000_0000_0000_0000
      && 0 < Count() <= PAGES
      && (physical.Some? ==> AlignRange(physical.value, size).1 == AlignRange(address, size).1)
    }

    lemma Shape()
      requires Ok()
      ensures var r := AlignRange(address, size);
        && r.1 == Count() * 0x1000 && 0 < Count() <= PAGES && PageOf(r.0) == First() < PAGES && r.0 % PAGE_4K == 0
      ensures physical.None? == Physical().None?
    {
      AlignedFirst(address, size);
    }

    predicate OkForUser() {
      var (start, aligned) := AlignRange(address, size);
      PTE_USER in flags && GetL4(start) != KERNEL_L4_INDEX && start + aligned <= MAX_USER_VIRTUAL_ADDRESS
    }
  }

  /** The page-aligned range around a range of bytes: its start and its size. */
  function AlignRange(address: nat, size: nat): (r: (nat, nat))
    ensures r.0 % PAGE_4K == 0 && r.1 % PAGE_4K == 0 && r.0 <= address && address + size <= r.0 + r.1
    ensures address < r.0 + PAGE_4K && r.0 + r.1 < address + size + PAGE_4K
  {
    var start := PageAllocator.RoundDown(address);
    (start, PageAllocator.RoundUp(address + size) - start)
  }

  /** How many frames `k` pages take for themselves. */
  function Own(physical: Option<nat>, k: nat): nat {
    if physical.None? then k else 0
  }

  /** A frame that was free, and is now neither free nor a table. */
  ghost predicate IsOwn(frame: nat, before: seq<nat>, free: seq<nat>, tables: Tables) {
    frame in before && frame !in free && frame !in tables
  }

  /** One page is behind `r`, and every other page is behind the same frame as before. */
  ghost predicate Retargeted(tables: Tables, after: Tables, root: nat, path: seq<nat>, r: Option<Entry>) {
    forall q :: |q| == 4 ==> LeafOf(after, root, q) == if q == path then r else LeafOf(tables, root, q)
  }

  lemma LeafRetargets(tables: Tables, place: Places, root: nat, f: nat, i: nat, e: Entry)
    requires TreeOk(tables, place, root) && f in tables && |place[f]| == 3 && i < ENTRIES
    ensures Retargeted(tables, Written(tables, f, i, e), root, place[f] + [i],
                       if e.Present() then Some(e) else None)
  {
    hide TreeOk, LeafOf, Written;
    TreeShape(tables, place, root, f);
    var after := Written(tables, f, i, e);
    forall q: seq<nat> | |q| == 4
      ensures LeafOf(after, root, q)
           == if q == place[f] + [i] then (if e.Present() then Some(e) else None) else LeafOf(tables, root, q)
    {
      LeafWritten(tables, place, root, f, i, e, q);
    }
  }

  /** No walk gets past the path `p`. */
  ghost predicate NothingBelow(tables: Tables, root: nat, p: seq<nat>) {
    forall q :: p <= q ==> Resolve(tables, root, q) == None
  }

  lemma AbsentEntry(tables: Tables, place: Places, root: nat, f: nat, i: nat)
    requires TreeOk(tables, place, root) && f in tables && i < ENTRIES && !tables[f][i].Present()
    ensures NothingBelow(tables, root, place[f] + [i])
  {
    var p := place[f] + [i];
    forall q: seq<nat> | p <= q ensures Resolve(tables, root, q) == None {
      assert q == place[f] + ([i] + q[|p|..]);
      ResolveConcat(tables, root, place[f], [i] + q[|p|..]);
    }
  }

  lemma FollowEntry(tables: Tables, place: Places, root: nat, f: nat, path: seq<nat>)
    requires TreeOk(tables, place, root) && f in tables && |path| == 4 && f in place
    requires forall k :: 0 <= k < 4 ==> path[k] < ENTRIES
    requires |place[f]| < 3 && place[f] == path[..|place[f]|]
    ensures |tables[f]| == ENTRIES
    ensures !tables[f][path[|place[f]|]].Present() ==>
      LeafOf(tables, root, path) == None && !HugeAbove(tables, root, path)
    ensures |place[f]| == 2 ==>
      (HugeAbove(tables, root, path) <==> tables[f][path[2]].Present() && PTE_HUGE_PAGE in tables[f][path[2]].flags)
    ensures tables[f][path[|place[f]|]].Present() ==>
      var e := tables[f][path[|place[f]|]];
      && e.addr in tables && e.addr in place && place[e.addr] == path[..|place[f]| + 1]
      && |tables[e.addr]| == ENTRIES
  {
    var (k, i) := (|place[f]|, path[|place[f]|]);
    assert path[..k + 1] == path[..k] + [i];
    if tables[f][i].Present() {
      ChildIsThere(tables, place, root, f, i);
    } else {
      AbsentEntry(tables, place, root, f, i);
      SameWalksItself(tables, root);
      FoundNothing(tables, tables, root, path, k + 1);
      assert k < 2 ==> path[..k + 1] <= path[..2];
    }
  }

  lemma FoundNothing(before: Tables, tables: Tables, root: nat, path: seq<nat>, k: nat)
    requires SameWalks(before, tables, root) && |path| == 4 && k <= 3 && NothingBelow(tables, root, path[..k])
    ensures LeafOf(before, root, path) == None
  {
    assert path[..k] <= path[..3];
  }

  lemma LeafFound(before: Tables, tables: Tables, place: Places, root: nat, f: nat, i: nat)
    requires TreeOk(tables, place, root) && f in tables && |place[f]| == 3 && i < ENTRIES
    requires SameWalks(before, tables, root)
    ensures LeafOf(before, root, place[f] + [i]) == if tables[f][i].Present() then Some(tables[f][i]) else None
  {
    LeafAt(tables, place, root, f, i);
  }

  lemma RetargetedLater(before: Tables, tables: Tables, after: Tables, root: nat, path: seq<nat>, r: Option<Entry>)
    requires SameWalks(before, tables, root) && Retargeted(tables, after, root, path, r)
    ensures Retargeted(before, after, root, path, r)
  {}

  /** The `i`-th page of a range that starts at `first`; the address space wraps around. */
  function Nth(first: nat, i: nat): (n: nat)
    ensures n < PAGES
  {
    (first + i) % PAGES
  }

  lemma NthIndex(n: nat, first: nat, i: nat)
    requires n < PAGES && first < PAGES && i < PAGES
    ensures n == Nth(first, i) <==> Index(n, first) == i
  {}

  /** The index of page `n` in a range of pages that starts at `first`. */
  function Index(n: int, first: int): (i: nat)
    ensures i < PAGES
  {
    (n - first) % PAGES
  }

  /** The frame behind a page. */
  function FrameAt(tables: Tables, root: nat, n: nat): Option<nat> {
    if LeafOf(tables, root, PathOf(n)).Some? then Some(LeafOf(tables, root, PathOf(n)).value.addr) else None
  }

  /**
   The pages of the range are behind `given` with the given flags, and every other page is behind the same
   frame as before.
   */
  ghost predicate RangeMapped(tables: Tables, after: Tables, root: nat, first: nat, count: nat, given: seq<nat>,
                              flags: set<nat>)
  {
    && |given| == count
    && forall n :: 0 <= n < PAGES ==>
         LeafOf(after, root, PathOf(n)) ==
         if Index(n, first) < count then Some(Entry(given[Index(n, first)], flags)) else LeafOf(tables, root, PathOf(n))
  }

  /** The tables above a range of pages. */
  function AboveRange(first: nat, count: nat): set<seq<nat>> {
    if count == 0 then {} else AboveRange(first, count - 1) + Above(PathOf(Nth(first, count - 1)))
  }

  /** How many frames mapping a range takes, where the tables at the places `P` exist already. */
  function Need(physical: Option<nat>, first: nat, count: nat, P: set<seq<nat>>): nat {
    Own(physical, count) + |AboveRange(first, count) - P|
  }

  ghost predicate Consecutive(given: seq<nat>, start: nat) {
    forall i :: 0 <= i < |given| ==> given[i] == Masked(start + i * 0x1000)
  }

  /** The page of `v` is behind a frame with the given flags, which is the frame of `p` if that is given. */
  ghost predicate MapsPage(tables: Tables, root: nat, v: nat, p: Option<nat>, flags: set<nat>) {
    var leaf := LeafOf(tables, root, [GetL4(v), GetL3(v), GetL2(v), GetL1(v)]);
    && leaf.Some? && leaf.value.flags == flags + {PTE_PRESENT}
    && (p.Some? && p.value < 0x1_0000_0000 ==>
          leaf.value.addr % 0x1000 == 0 && leaf.value.addr <= p.value < leaf.value.addr + 0x1000)
  }

  /** Page by page, a request is mapped to the frames it asks for. */
  ghost predicate MapsRequest(tables: Tables, root: nat, entry: MapEntry) {
    forall i :: 0 <= i < entry.Count() ==>
      MapsPage(tables, root, entry.address + i * 0x1000,
               if entry.physical.Some? then Some(entry.physical.value + i * 0x1000) else None, entry.flags)
  }

  lemma RequestMapped(before: Tables, after: Tables, root: nat, entry: MapEntry, given: seq<nat>)
    requires entry.Ok()
    requires RangeMapped(before, after, root, entry.First(), entry.Count(), given, entry.flags + {PTE_PRESENT})
    requires entry.Physical().Some? ==> Consecutive(given, entry.Physical().value)
    ensures MapsRequest(after, root, entry)
  {
    hide LeafOf, PathOf, GetL4, GetL3, GetL2, GetL1, MapEntry.Ok, MapEntry.Count, Nth, Index, Masked;
    entry.Shape();
    forall i: nat | i < entry.Count()
      ensures MapsPage(after, root, entry.address + i * 0x1000,
                       if entry.physical.Some? then Some(entry.physical.value + i * 0x1000) else None, entry.flags)
    {
      IndexesArePath(entry.address + i * 0x1000);
      PageOfNth(entry.address, i);
      NthIndex(Nth(entry.First(), i), entry.First(), i);
      if entry.physical.Some? {
        MaskedOf(entry.physical.value, i);
      }
    }
  }

  lemma PageOfNth(address: nat, i: nat)
    ensures PageOf(address + i * 0x1000) == Nth(PageOf(address), i)
  {
    assert (address + i * 0x1000) / 0x1000 == address / 0x1000 + i;
  }

  lemma MaskedOf(p: nat, i: nat)
    ensures var f := Masked(PageAllocator.RoundDown(p) + i * 0x1000);
      p + i * 0x1000 < 0x1_0000_0000 ==> f % 0x1000 == 0 && f <= p + i * 0x1000 < f + 0x1000
  {
    if p + i * 0x1000 < 0x1_0000_0000 {
      MaskedPage(PageAllocator.RoundDown(p) + i * 0x1000);
    }
  }

  /** No byte of a range is behind a frame. */
  ghost predicate NothingMapped(tables: Tables, root: nat, address: nat, size: nat) {
    forall a :: address <= a < address + size ==>
      LeafOf(tables, root, [GetL4(a), GetL3(a), GetL2(a), GetL1(a)]) == None
  }

  lemma RequestCleared(before: Tables, after: Tables, root: nat, entry: MapEntry, freed: seq<nat>)
    requires entry.Ok() && RangeCleared(before, after, root, entry.First(), entry.Count(), freed)
    ensures NothingMapped(after, root, entry.address, entry.size)
  {
    hide LeafOf, PathOf, GetL4, GetL3, GetL2, GetL1, MapEntry.Ok, MapEntry.Count, Nth, Index;
    entry.Shape();
    var (start, length) := AlignRange(entry.address, entry.size);
    forall a | entry.address <= a < entry.address + entry.size
      ensures LeafOf(after, root, [GetL4(a), GetL3(a), GetL2(a), GetL1(a)]) == None
    {
      IndexesArePath(a);
      var i := PageWithin(start, length, a);
      NthIndex(Nth(entry.First(), i), entry.First(), i);
      hide PageOf;
    }
  }

  /** Which page of an aligned range an address is in. */
  lemma PageWithin(start: nat, length: nat, a: nat) returns (i: nat)
    requires start % PAGE_4K == 0 && length % PAGE_4K == 0 && start <= a < start + length
    ensures i < length / PAGE_4K && PageOf(a) == Nth(PageOf(start), i)
  {
    i := (a - start) / 0x1000;
    PageOfNth(start, i);
    SamePage(start + i * 0x1000, (a - start) % 0x1000);
    hide PageOf, Nth;
  }

  lemma SamePage(start: nat, r: nat)
    requires start % PAGE_4K == 0 && r < 0x1000
    ensures PageOf(start + r) == PageOf(start)
  {}

  /** Different frames, taken from the free list and used for nothing else. */
  ghost predicate AllOwn(given: seq<nat>, before: seq<nat>, free: seq<nat>, tables: Tables, frames: PageAllocator) {
    && (forall i :: 0 <= i < |given| ==> IsOwn(given[i], before, free, tables) && frames.InRange(given[i]))
    && (forall i, j :: 0 <= i < j < |given| ==> given[i] != given[j])
  }

  /** What mapping changes: the tables, the free list and the places that have a table. */
  datatype Memory = Memory(tables: Tables, pages: seq<nat>, places: set<seq<nat>>)

  function Shifted(physical: Option<nat>, i: nat): Option<nat> {
    if physical.Some? then Some(physical.value + i * 0x1000) else None
  }

  lemma ShiftedStart(physical: Option<nat>)
    ensures Shifted(physical, 0) == physical
  {}

  lemma ShiftedNext(physical: Option<nat>, i: nat)
    ensures Shifted(physical, i + 1) == NextPage(Shifted(physical, i))
  {}

  function NextPage(physical: Option<nat>): Option<nat> {
    if physical.Some? then Some(physical.value + PAGE_4K) else None
  }

  /** The effect of mapping one page. */
  ghost predicate OneMapped(before: Memory, after: Memory, root: nat, path: seq<nat>, physical: Option<nat>,
                            frame: nat, flags: set<nat>, frames: PageAllocator)
    requires |path| == 4
  {
    && Retargeted(before.tables, after.tables, root, path, Some(Entry(frame, flags)))
    && Grants(after.tables, root, path, flags) && AccessKeptBut(before.tables, after.tables, root, path)
    && after.places == before.places + Above(path)
    && |after.pages| + |after.places| + Own(physical, 1) == |before.pages| + |before.places|
    && (physical.Some? ==> frame == Masked(physical.value))
    && (physical.None? ==> IsOwn(frame, before.pages, after.pages, after.tables) && frames.InRange(frame))
    && IsSuffix(after.pages, before.pages) && TakenFrom(after.tables, before.tables, before.pages)
  }

  lemma FewerNeeded(free: nat, physical: Option<nat>, missing: nat)
    ensures free < Own(physical, 1) ==> free < Own(physical, 1) + missing
    ensures Own(physical, 1) == if physical.None? then 1 else 0
  {}

  lemma PresentFlag(e: Entry)
    ensures e.Present() <==> PTE_PRESENT in e.flags
  {}

  /** No page but one loses access. */
  ghost predicate AccessKeptBut(before: Tables, after: Tables, root: nat, path: seq<nat>) {
    forall q: seq<nat> :: |q| == 4 && q != path ==> Leq(Access(before, root, q), Access(after, root, q))
  }

  lemma MappedBy(before: Memory, taken: Memory, walked: Memory, after: Memory, root: nat, path: seq<nat>,
                 physical: Option<nat>, target: nat, flags: set<nat>, frames: PageAllocator)
    requires |path| == 4 && taken.tables == before.tables && taken.places == before.places
    requires physical.Some? ==> target == physical.value && taken.pages == before.pages
    requires physical.None? ==>
      && before.pages == [target] + taken.pages && Masked(target) == target
      && target !in taken.pages && target !in before.tables && frames.InRange(target)
    requires Extended(taken.tables, walked.tables, root) && walked.places == taken.places + Above(path)
    requires |walked.pages| + |walked.places| == |taken.pages| + |taken.places|
    requires IsSuffix(walked.pages, taken.pages) && TakenFrom(walked.tables, taken.tables, taken.pages)
    requires Retargeted(walked.tables, after.tables, root, path, Some(Entry(Masked(target), flags)))
    requires Grants(after.tables, root, path, flags) && AccessKeptBut(walked.tables, after.tables, root, path)
    requires after.tables.Keys == walked.tables.Keys && after.pages == walked.pages && after.places == walked.places
    ensures OneMapped(before, after, root, path, physical, Masked(target), flags, frames)
  {
    hide Retargeted, SameWalks, Above, Masked, Grants, AccessKept, AccessKeptBut;
    RetargetedLater(before.tables, walked.tables, after.tables, root, path, Some(Entry(Masked(target), flags)));
    AccessKeptLater(before.tables, walked.tables, after.tables, root, path);
    assert IsSuffix(taken.pages, before.pages);
    Chained(walked.tables, before.tables, before.tables, walked.pages, taken.pages, before.pages);
  }

  lemma SameIsKept(before: Tables, after: Tables, root: nat, path: seq<nat>)
    requires AccessSameBut(before, after, root, path)
    ensures AccessKeptBut(before, after, root, path)
  {
    hide Access;
  }

  lemma AccessKeptLater(before: Tables, tables: Tables, after: Tables, root: nat, path: seq<nat>)
    requires AccessKept(before, tables, root) && AccessKeptBut(tables, after, root, path)
    ensures AccessKeptBut(before, after, root, path)
  {
    forall q: seq<nat> | |q| == 4 && q != path ensures Leq(Access(before, root, q), Access(after, root, q)) {
      assert Leq(Access(before, root, q), Access(tables, root, q))
          && Leq(Access(tables, root, q), Access(after, root, q));
    }
  }

  /** The effect of mapping a range: its translations, the frames it uses, and what it takes from the free list. */
  ghost predicate AllMapped(before: Memory, after: Memory, root: nat, first: nat, count: nat, physical: Option<nat>,
                            given: seq<nat>, flags: set<nat>, frames: PageAllocator)
  {
    && RangeMapped(before.tables, after.tables, root, first, count, given, flags)
    && RangeGrants(before.tables, after.tables, root, first, count, flags)
    && (physical.Some? ==> Consecutive(given, physical.value))
    && (physical.None? ==> AllOwn(given, before.pages, after.pages, after.tables, frames))
    && IsSuffix(after.pages, before.pages) && TakenFrom(after.tables, before.tables, before.pages)
    && |after.pages| + Need(physical, first, count, before.places) == |before.pages|
    && after.places == before.places + AboveRange(first, count)
  }

  lemma MappedRequest(before: Memory, after: Memory, root: nat, entry: MapEntry, given: seq<nat>, frames: PageAllocator)
    requires entry.Ok()
    requires AllMapped(before, after, root, entry.First(), entry.Count(), entry.Physical(), given,
                       entry.flags + {PTE_PRESENT}, frames)
    ensures MapsRequest(after.tables, root, entry)
  {
    hide RangeMapped, RangeGrants, Consecutive, AllOwn, IsSuffix, TakenFrom, Need, AboveRange, MapEntry.Ok,
         MapEntry.First, MapEntry.Count, MapEntry.Physical, MapsRequest;
    RequestMapped(before.tables, after.tables, root, entry, given);
  }

  /** The range has the wanted access, and no other page has less than before. */
  ghost predicate RangeGrants(before: Tables, after: Tables, root: nat, first: nat, count: nat, flags: set<nat>) {
    && (forall i :: 0 <= i < count ==> Grants(after, root, PathOf(Nth(first, i)), flags))
    && (forall n :: 0 <= n < PAGES && Index(n, first) >= count ==>
         Leq(Access(before, root, PathOf(n)), Access(after, root, PathOf(n))))
  }

  lemma GrantsStep(before: Tables, now: Tables, after: Tables, root: nat, first: nat, i: nat, flags: set<nat>)
    requires RangeGrants(before, now, root, first, i, flags) && i < PAGES && first < PAGES
    requires Grants(after, root, PathOf(Nth(first, i)), flags)
    requires AccessKeptBut(now, after, root, PathOf(Nth(first, i)))
    ensures RangeGrants(before, after, root, first, i + 1, flags)
  {
    hide PathOf, Access, Nth, Index;
    forall n | 0 <= n < PAGES && n != Nth(first, i)
      ensures Leq(Access(now, root, PathOf(n)), Access(after, root, PathOf(n)))
    {
      if PathOf(n) == PathOf(Nth(first, i)) {
        PathDetermines(n, Nth(first, i));
      }
    }
    forall j | 0 <= j < i ensures Grants(after, root, PathOf(Nth(first, j)), flags) {
      NthIndex(Nth(first, j), first, j);
      NthIndex(Nth(first, j), first, i);
    }
    forall n | 0 <= n < PAGES && Index(n, first) >= i + 1
      ensures Leq(Access(before, root, PathOf(n)), Access(after, root, PathOf(n)))
    {
      NthIndex(n, first, i);
      assert Leq(Access(before, root, PathOf(n)), Access(now, root, PathOf(n)));
    }
  }

  lemma MapStart(now: Memory, root: nat, first: nat, physical: Option<nat>, flags: set<nat>, frames: PageAllocator)
    ensures AllMapped(now, now, root, first, 0, physical, [], flags, frames)
  {
    assert now.places + AboveRange(first, 0) == now.places;
  }

  lemma MapNeed(before: Memory, now: Memory, root: nat, first: nat, i: nat, count: nat, physical: Option<nat>,
                given: seq<nat>, flags: set<nat>, frames: PageAllocator)
    requires i <= count && AllMapped(before, now, root, first, i, physical, given, flags, frames)
    ensures i < count && |now.pages| < Own(Shifted(physical, i), 1) + |Above(PathOf(Nth(first, i))) - now.places| ==>
      |before.pages| < Need(physical, first, count, before.places)
    ensures i == count ==> |before.pages| >= Need(physical, first, count, before.places)
  {
    hide RangeMapped, RangeGrants, AllOwn, Consecutive, IsSuffix, TakenFrom, Need, AboveRange, Above, PathOf, Nth;
    if i < count {
      NeedStep(physical, first, i, before.places);
      NeedMonotone(physical, first, i + 1, count, before.places);
    }
  }

  lemma MapStep(before: Memory, now: Memory, after: Memory, root: nat, first: nat, i: nat, physical: Option<nat>,
                given: seq<nat>, frame: nat, flags: set<nat>, frames: PageAllocator)
    requires AllMapped(before, now, root, first, i, physical, given, flags, frames) && i < PAGES && first < PAGES
    requires OneMapped(now, after, root, PathOf(Nth(first, i)), Shifted(physical, i), frame, flags, frames)
    ensures AllMapped(before, after, root, first, i + 1, physical, given + [frame], flags, frames)
  {
    hide RangeMapped, RangeGrants, Grants, AccessKeptBut, AllOwn, IsOwn, Consecutive, IsSuffix, TakenFrom, Need,
         AboveRange, Above, PathOf, Nth;
    RangeStep(before.tables, now.tables, after.tables, root, first, i, given, frame, flags);
    GrantsStep(before.tables, now.tables, after.tables, root, first, i, flags);
    RangeLength(before.tables, now.tables, root, first, i, given, flags);
    NeedStep(physical, first, i, before.places);
    Chained(after.tables, now.tables, before.tables, after.pages, now.pages, before.pages);
    if physical.Some? {
      ConsecutiveStep(given, physical.value, frame);
    } else {
      OwnStep(given, before.pages, now.pages, now.tables, frame, after.pages, after.tables, frames);
    }
  }

  lemma RangeLength(tables: Tables, after: Tables, root: nat, first: nat, count: nat, given: seq<nat>,
                    flags: set<nat>)
    requires RangeMapped(tables, after, root, first, count, given, flags)
    ensures |given| == count
  {}

  /** Unmapping a range right after mapping it, where nothing was mapped before, restores every translation. */
  lemma MapThenUnmap(before: Tables, mapped: Tables, after: Tables, root: nat, first: nat, count: nat,
                     given: seq<nat>, flags: set<nat>, freed: seq<nat>)
    requires first < PAGES && count <= PAGES
    requires forall i :: 0 <= i < count ==> FrameAt(before, root, Nth(first, i)) == None
    requires RangeMapped(before, mapped, root, first, count, given, flags)
    requires RangeCleared(mapped, after, root, first, count, freed)
    ensures freed == given
    ensures forall n :: 0 <= n < PAGES ==> LeafOf(after, root, PathOf(n)) == LeafOf(before, root, PathOf(n))
  {
    hide PathOf, LeafOf, Nth, Index;
    forall i | 0 <= i < count ensures freed[i] == given[i] {
      NthIndex(Nth(first, i), first, i);
    }
    forall n | 0 <= n < PAGES ensures LeafOf(after, root, PathOf(n)) == LeafOf(before, root, PathOf(n)) {
      NthIndex(n, first, Index(n, first));
      assert Index(n, first) < count ==> FrameAt(before, root, n) == None;
    }
  }

  /** The pages of the range, which were behind `freed`, are behind nothing; every other page is as before. */
  ghost predicate RangeCleared(tables: Tables, after: Tables, root: nat, first: nat, count: nat, freed: seq<nat>) {
    && |freed| == count
    && (forall i :: 0 <= i < count ==> FrameAt(tables, root, Nth(first, i)) == Some(freed[i]))
    && forall n :: 0 <= n < PAGES ==>
         LeafOf(after, root, PathOf(n)) ==
         if Index(n, first) < count then None else LeafOf(tables, root, PathOf(n))
  }

  /** Every page of the range can be unmapped. */
  ghost predicate AllUnmappable(tables: Tables, root: nat, first: nat, count: nat, isAllocated: bool,
                                frames: PageAllocator)
  {
    forall i :: 0 <= i < count ==> CanUnmap(FrameAt(tables, root, Nth(first, i)), isAllocated, frames)
  }

  /** Page `n` has its top entry in common with a page of the range. */
  ghost predicate SharesTop(n: nat, first: nat, count: nat) {
    exists i :: 0 <= i < count && PathOf(Nth(first, i))[0] == PathOf(n)[0]
  }

  /** What is left of the access to page `n` once the range is unmapped. */
  ghost function AccessLeft(a: Option<set<nat>>, n: nat, first: nat, count: nat, flags: set<nat>): Option<set<nat>> {
    if Index(n, first) < count then None else if SharesTop(n, first, count) then Less(a, flags) else a
  }

  /** The exact access of every page once the range is unmapped. */
  ghost predicate RangeTaken(before: Tables, after: Tables, root: nat, first: nat, count: nat, flags: set<nat>) {
    forall n :: 0 <= n < PAGES ==>
      Access(after, root, PathOf(n)) == AccessLeft(Access(before, root, PathOf(n)), n, first, count, flags)
  }

  lemma TakenStep(before: Tables, now: Tables, after: Tables, root: nat, first: nat, i: nat, flags: set<nat>)
    requires RangeTaken(before, now, root, first, i, flags) && i < PAGES && first < PAGES
    requires AccessTaken(now, after, root, PathOf(Nth(first, i)), flags)
    ensures RangeTaken(before, after, root, first, i + 1, flags)
  {
    hide PathOf, Access, Nth, Index, SharesTop;
    forall n | 0 <= n < PAGES
      ensures Access(after, root, PathOf(n)) == AccessLeft(Access(before, root, PathOf(n)), n, first, i + 1, flags)
    {
      var a := Access(before, root, PathOf(n));
      NthIndex(n, first, i);
      if PathOf(n) == PathOf(Nth(first, i)) {
        PathDetermines(n, Nth(first, i));
      }
      SharesTopStep(n, first, i);
      assert Access(now, root, PathOf(n)) == AccessLeft(a, n, first, i, flags);
      assert a.Some? ==> a.value - flags - flags == a.value - flags;
    }
  }

  lemma SharesTopStep(n: nat, first: nat, i: nat)
    ensures SharesTop(n, first, i + 1) <==> SharesTop(n, first, i) || PathOf(n)[0] == PathOf(Nth(first, i))[0]
  {
    hide PathOf, Nth;
  }

  /** A page outside the range keeps its access exactly if it shares no top entry with it, or had none of the flags. */
  lemma AccessKeptExactly(before: Tables, after: Tables, root: nat, first: nat, count: nat, flags: set<nat>, n: nat)
    requires RangeTaken(before, after, root, first, count, flags) && n < PAGES && Index(n, first) >= count
    ensures Access(after, root, PathOf(n)) == Access(before, root, PathOf(n)) <==>
      || !SharesTop(n, first, count)
      || Access(before, root, PathOf(n)).None? || Access(before, root, PathOf(n)).value !! flags
  {
    hide PathOf, Access, Index, SharesTop;
    var a := Access(before, root, PathOf(n));
    assert a.Some? ==> (a.value - flags == a.value <==> a.value !! flags);
  }

  /** What unmapping needs of the page: a frame, and one of the allocator's if it is to be freed. */
  predicate CanUnmap(frame: Option<nat>, isAllocated: bool, frames: PageAllocator) {
    frame.Some? && (isAllocated ==> frames.InRange(frame.value))
  }

  /** The frames behind the range are different, not free, and no tables. */
  ghost predicate OwnFrames(tables: Tables, root: nat, pages: seq<nat>, first: nat, count: nat) {
    && (forall i :: 0 <= i < count ==> CanFree(FrameAt(tables, root, Nth(first, i)), pages, tables))
    && (forall i, j :: 0 <= i < j < count ==>
         FrameAt(tables, root, Nth(first, i)).None?
         || FrameAt(tables, root, Nth(first, i)) != FrameAt(tables, root, Nth(first, j)))
  }

  /** A frame that may be given back: it is not free, and no table. */
  ghost predicate CanFree(frame: Option<nat>, pages: seq<nat>, tables: Tables) {
    frame.Some? ==> frame.value !in pages && frame.value !in tables
  }

  /** The free list after giving back `freed`, one at a time. */
  ghost function FreedOnto(freed: seq<nat>, pages: seq<nat>): seq<nat> {
    if freed == [] then pages else [freed[|freed| - 1]] + FreedOnto(freed[..|freed| - 1], pages)
  }

  lemma {:induction false} InFreed(freed: seq<nat>, pages: seq<nat>, p: nat)
    ensures p in FreedOnto(freed, pages) <==> p in freed || p in pages
  {
    if freed != [] {
      InFreed(freed[..|freed| - 1], pages, p);
      assert freed == freed[..|freed| - 1] + [freed[|freed| - 1]];
    }
  }

  lemma ClearStart(tables: Tables, root: nat, first: nat, pages: seq<nat>)
    ensures RangeCleared(tables, tables, root, first, 0, []) && FreedOnto([], pages) == pages
    ensures forall a, f :: AllUnmappable(tables, root, first, 0, a, f)
    ensures forall flags :: RangeTaken(tables, tables, root, first, 0, flags)
  {}

  lemma StillMapped(before: Tables, tables: Tables, root: nat, first: nat, i: nat, freed: seq<nat>)
    requires RangeCleared(before, tables, root, first, i, freed) && i < PAGES && first < PAGES
    ensures FrameAt(tables, root, Nth(first, i)) == FrameAt(before, root, Nth(first, i))
  {
    NthIndex(Nth(first, i), first, i);
  }

  lemma StillOwn(before: Tables, tables: Tables, root: nat, first: nat, i: nat, count: nat, freed: seq<nat>,
                 pages: seq<nat>)
    requires RangeCleared(before, tables, root, first, i, freed) && i < count && tables.Keys == before.Keys
    requires OwnFrames(before, root, pages, first, count)
    ensures CanFree(FrameAt(before, root, Nth(first, i)), FreedOnto(freed, pages), tables)
  {
    hide FrameAt, Nth, FreedOnto;
    var frame := FrameAt(before, root, Nth(first, i));
    if frame.Some? {
      InFreed(freed, pages, frame.value);
    }
  }

  lemma UnmappableStep(tables: Tables, root: nat, first: nat, i: nat, count: nat, isAllocated: bool,
                       frames: PageAllocator)
    requires AllUnmappable(tables, root, first, i, isAllocated, frames) && i < count
    ensures var here := CanUnmap(FrameAt(tables, root, Nth(first, i)), isAllocated, frames);
      && (here <==> AllUnmappable(tables, root, first, i + 1, isAllocated, frames))
      && (!here ==> !AllUnmappable(tables, root, first, count, isAllocated, frames))
  {
    hide FrameAt, Nth;
  }

  lemma ClearStep(before: Tables, tables: Tables, after: Tables, root: nat, first: nat, i: nat,
                  freed: seq<nat>, frame: nat, pages: seq<nat>)
    requires RangeCleared(before, tables, root, first, i, freed) && i < PAGES && first < PAGES
    requires FrameAt(before, root, Nth(first, i)) == Some(frame)
    requires Retargeted(tables, after, root, PathOf(Nth(first, i)), None)
    ensures RangeCleared(before, after, root, first, i + 1, freed + [frame])
    ensures FreedOnto(freed + [frame], pages) == [frame] + FreedOnto(freed, pages)
  {
    hide PathOf, LeafOf, Nth, Index;
    assert (freed + [frame])[..|freed|] == freed;
    forall n | 0 <= n < PAGES
      ensures LeafOf(after, root, PathOf(n))
           == if Index(n, first) < i + 1 then None else LeafOf(before, root, PathOf(n))
    {
      if PathOf(n) == PathOf(Nth(first, i)) {
        PathDetermines(n, Nth(first, i));
      }
      NthIndex(n, first, i);
    }
  }

  lemma RangeStep(before: Tables, tables: Tables, after: Tables, root: nat, first: nat, i: nat,
                  given: seq<nat>, frame: nat, flags: set<nat>)
    requires RangeMapped(before, tables, root, first, i, given, flags) && i < PAGES && first < PAGES
    requires Retargeted(tables, after, root, PathOf(Nth(first, i)), Some(Entry(frame, flags)))
    ensures RangeMapped(before, after, root, first, i + 1, given + [frame], flags)
  {
    hide PathOf, LeafOf, Nth, Index;
    forall n | 0 <= n < PAGES
      ensures LeafOf(after, root, PathOf(n))
           == if Index(n, first) < i + 1 then Some(Entry((given + [frame])[Index(n, first)], flags))
              else LeafOf(before, root, PathOf(n))
    {
      if PathOf(n) == PathOf(Nth(first, i)) {
        PathDetermines(n, Nth(first, i));
      }
      NthIndex(n, first, i);
    }
  }

  lemma NeedStep(physical: Option<nat>, first: nat, i: nat, P: set<seq<nat>>)
    ensures AboveRange(first, i + 1) == AboveRange(first, i) + Above(PathOf(Nth(first, i)))
    ensures Need(physical, first, i + 1, P) == Need(physical, first, i, P) + Own(physical, 1)
         + |Above(PathOf(Nth(first, i))) - (P + AboveRange(first, i))|
    ensures P + AboveRange(first, i) + Above(PathOf(Nth(first, i))) == P + AboveRange(first, i + 1)
  {
    hide Above, PathOf, Nth;
    var (a, b) := (AboveRange(first, i), Above(PathOf(Nth(first, i))));
    assert (a + b) - P == (a - P) + (b - (P + a));
  }

  lemma {:induction false} NeedMonotone(physical: Option<nat>, first: nat, i: nat, k: nat, P: set<seq<nat>>)
    requires i <= k
    ensures Need(physical, first, i, P) <= Need(physical, first, k, P)
    decreases k
  {
    hide Need, AboveRange, Above;
    if i < k {
      NeedStep(physical, first, k - 1, P);
      NeedMonotone(physical, first, i, k - 1, P);
    }
  }

  lemma OwnStep(given: seq<nat>, before: seq<nat>, free: seq<nat>, tables: Tables, frame: nat,
                free': seq<nat>, tables': Tables, frames: PageAllocator)
    requires AllOwn(given, before, free, tables, frames) && IsOwn(frame, free, free', tables') && frames.InRange(frame)
    requires IsSuffix(free, before) && IsSuffix(free', free) && TakenFrom(tables', tables, free)
    ensures AllOwn(given + [frame], before, free', tables', frames)
  {
    assert forall p :: p in free' ==> p in free;
  }

  lemma ConsecutiveStep(given: seq<nat>, paddr: nat, frame: nat)
    requires Consecutive(given, paddr) && frame == Masked(paddr + |given| * 0x1000)
    ensures Consecutive(given + [frame], paddr)
  {}

  lemma AlignedFirst(address: nat, size: nat)
    ensures PageOf(AlignRange(address, size).0) == PageOf(address)
  {}

  lemma PageAt(start: nat, i: nat)
    requires start % PAGE_4K == 0
    ensures PageOf(start + i * 0x1000) == Nth(PageOf(start), i)
  {
    assert (start + i * 0x1000) / PAGE_4K == start / PAGE_4K + i;
  }

  lemma AboveStep(path: seq<nat>, P: set<seq<nat>>)
    requires |path| == 4
    ensures Above(path) == {path[..1], path[..2], path[..3]}
    ensures P + {path[..1]} + {path[..2]} + {path[..3]} == P + Above(path)
    ensures P + {path[..1]} + {path[..2]} == P + {path[..1], path[..2]}
    ensures |P + Above(path)| == |P| + |Above(path) - P|
  {}

  lemma Shortage(P: set<seq<nat>>, made: set<seq<nat>>, next: seq<nat>, wanted: set<seq<nat>>)
    requires made <= wanted && next in wanted && next !in P + made
    ensures |P + made| < |P| + |wanted - P|
  {
    assert P + made + {next} <= P + (wanted - P);
    SubsetSize(P + made + {next}, P + (wanted - P));
  }

  lemma Chained(t: Tables, t1: Tables, t0: Tables, p: seq<nat>, p1: seq<nat>, p0: seq<nat>)
    requires TakenFrom(t, t1, p1) && TakenFrom(t1, t0, p0) && IsSuffix(p, p1) && IsSuffix(p1, p0)
    ensures TakenFrom(t, t0, p0) && IsSuffix(p, p0)
  {
    assert p == p0[|p0| - |p1|..][|p1| - |p|..] == p0[|p0| - |p|..];
  }

  /** Every table is one of `before`, or made of a page that was free. */
  ghost predicate TakenFrom(tables: Tables, before: Tables, free: seq<nat>) {
    forall g :: g in tables ==> g in before || g in free
  }

  /** `t` is what is left of `s` after taking some elements from its front. */
  ghost predicate IsSuffix(t: seq<nat>, s: seq<nat>) {
    |t| <= |s| && t == s[|s| - |t|..]
  }

  /** Every page is behind the same frame as before. */
  ghost predicate SameWalks(tables: Tables, after: Tables, root: nat) {
    forall q :: |q| == 4 ==> LeafOf(after, root, q) == LeafOf(tables, root, q)
  }

  /** Every page is behind the same frame with the same flags, and none loses access. */
  ghost predicate Extended(tables: Tables, after: Tables, root: nat) {
    SameWalks(tables, after, root) && AccessKept(tables, after, root)
  }

  lemma ExtendedItself(tables: Tables, root: nat)
    ensures Extended(tables, tables, root)
  {}

  lemma ExtendedTwice(a: Tables, b: Tables, c: Tables, root: nat)
    requires Extended(a, b, root) && Extended(b, c, root)
    ensures Extended(a, c, root)
  {
    hide AccessKept;
    AccessKeptTwice(a, b, c, root);
  }

  lemma ExtendedGrants(before: Tables, after: Tables, root: nat, p: seq<nat>, want: set<nat>)
    requires Extended(before, after, root) && |p| <= 4 && Grants(before, root, p, want)
    ensures Grants(after, root, p, want)
  {
    GrantsKept(before, after, root, p, want);
  }

  lemma GrantsNothing(tables: Tables, root: nat, want: set<nat>)
    ensures Grants(tables, root, [], want)
  {}

  lemma SameWalksItself(tables: Tables, root: nat)
    ensures SameWalks(tables, tables, root)
  {}

  lemma HungKeepsAll(tables: Tables, place: Places, root: nat, f: nat, i: nat, page: nat)
    requires TreeOk(tables, place, root) && f in tables && |place[f]| < 3 && i < ENTRIES
    requires !tables[f][i].Present() && page !in tables
    ensures TreeOk(Hung(tables, f, i, page), place[page := place[f] + [i]], root)
    ensures Extended(tables, Hung(tables, f, i, page), root)
  {
    hide TreeOk, LeafOf, Access, Hung;
    TreeShape(tables, place, root, f);
    HungKeepsTree(tables, place, root, f, i, page);
    forall q: seq<nat> | |q| == 4 ensures LeafOf(Hung(tables, f, i, page), root, q) == LeafOf(tables, root, q) {
      HungKeepsWalks(tables, place, root, f, i, page, q);
    }
    forall p: seq<nat> | 0 < |p| <= 4 ensures Leq(Access(tables, root, p), Access(Hung(tables, f, i, page), root, p)) {
      AccessAfterFill(tables, Hung(tables, f, i, page), f, i, root, p);
    }
  }

  lemma FlagsAddAll(tables: Tables, place: Places, root: nat, f: nat, i: nat, flags: set<nat>)
    requires TreeOk(tables, place, root) && f in tables && |place[f]| < 3 && i < ENTRIES
    requires tables[f][i].Present()
    ensures TreeOk(Written(tables, f, i, tables[f][i].(flags := tables[f][i].flags + flags)), place, root)
    ensures Extended(tables, Written(tables, f, i, tables[f][i].(flags := tables[f][i].flags + flags)), root)
  {
    hide TreeOk, LeafOf, Access, Written;
    TreeShape(tables, place, root, f);
    var e := tables[f][i].(flags := tables[f][i].flags + flags);
    FlagsKeepTree(tables, place, root, f, i, e.flags);
    forall p: seq<nat> | 0 < |p| <= 4 ensures Leq(Access(tables, root, p), Access(Written(tables, f, i, e), root, p)) {
      AccessAfterFlags(tables, f, i, e, root, p);
    }
  }

  lemma {:induction false} AccessResolves(tables: Tables, g: nat, p: seq<nat>)
    requires p != [] && Access(tables, g, p).Some?
    ensures Resolve(tables, g, p).Some?
    decreases |p|
  {
    if |p| == 1 {
      assert p[1..] == [];
    } else {
      AccessResolves(tables, tables[g][p[0]].addr, p[1..]);
    }
  }

  lemma AbsentNoAccess(tables: Tables, place: Places, root: nat, f: nat, i: nat)
    requires TreeOk(tables, place, root) && f in tables && i < ENTRIES && !tables[f][i].Present()
    ensures Access(tables, root, place[f] + [i]) == None
  {
    AbsentEntry(tables, place, root, f, i);
    if Access(tables, root, place[f] + [i]).Some? {
      AccessResolves(tables, root, place[f] + [i]);
    }
  }

  lemma LeafKeepsAccess(tables: Tables, place: Places, root: nat, f: nat, i: nat, e: Entry)
    requires TreeOk(tables, place, root) && f in tables && |place[f]| == 3 && i < ENTRIES
    ensures AccessSameBut(tables, Written(tables, f, i, e), root, place[f] + [i])
    ensures e.Present() && Grants(tables, root, place[f], e.flags) ==>
      Grants(Written(tables, f, i, e), root, place[f] + [i], e.flags)
    ensures !e.Present() ==> Access(Written(tables, f, i, e), root, place[f] + [i]) == None
  {
    var after := Written(tables, f, i, e);
    forall q: seq<nat> | |q| == 4 && q != place[f] + [i] ensures Access(after, root, q) == Access(tables, root, q) {
      assert place[root] + q == q;
      AccessElsewhere(tables, place, root, after, f, i, root, q);
    }
    if !e.Present() {
      LeafKeepsTree(tables, place, root, f, i, e);
      AbsentNoAccess(after, place, root, f, i);
    }
    if e.Present() && Grants(tables, root, place[f], e.flags) {
      assert place[root] + place[f] == place[f];
      AccessElsewhere(tables, place, root, after, f, i, root, place[f]);
      LeafKeepsTree(tables, place, root, f, i, e);
      GrantsNext(after, place, root, f, i, e.flags);
    }
  }

  /** Every page is behind the same frame with the same flags in its own entry; pages below `p` lose flags above it. */
  ghost predicate Reduced(tables: Tables, after: Tables, root: nat, p: seq<nat>, flags: set<nat>) {
    SameWalks(tables, after, root) && Stripped(tables, after, root, p, flags)
  }

  lemma ReducedTwice(a: Tables, b: Tables, c: Tables, root: nat, p: seq<nat>, p': seq<nat>, flags: set<nat>)
    requires Reduced(a, b, root, p, flags) && Reduced(b, c, root, p', flags) && p <= p'
    ensures Reduced(a, c, root, p, flags)
  {
    hide Stripped;
    StrippedTwice(a, b, c, root, p, p', flags);
  }

  lemma ReducedParts(tables: Tables, after: Tables, root: nat, p: seq<nat>, flags: set<nat>)
    requires Reduced(tables, after, root, p, flags)
    ensures SameWalks(tables, after, root) && Stripped(tables, after, root, p, flags)
  {}

  lemma FlagsRemoveAll(tables: Tables, place: Places, root: nat, f: nat, i: nat, flags: set<nat>)
    requires TreeOk(tables, place, root) && f in tables && |place[f]| < 3 && i < ENTRIES
    requires tables[f][i].Present() && PTE_PRESENT !in flags
    ensures var after := Written(tables, f, i, tables[f][i].(flags := tables[f][i].flags - flags));
      TreeOk(after, place, root) && Reduced(tables, after, root, place[f] + [i], flags)
  {
    hide TreeOk, LeafOf, Access, Written, Stripped;
    TreeShape(tables, place, root, f);
    FlagsKeepTree(tables, place, root, f, i, tables[f][i].flags - flags);
    StrippedByEntry(tables, place, root, f, i, flags);
  }

  lemma MaskedPage(page: nat)
    requires page % PAGE_4K == 0 && page < 0x1_0000_0000
    ensures Masked(page) == page
  {}

  lemma ChildIsThere(tables: Tables, place: Places, root: nat, f: nat, i: nat)
    requires TreeOk(tables, place, root) && f in tables && |place[f]| < 3 && i < ENTRIES && tables[f][i].Present()
    ensures ChildOk(tables, place, f, i)
  {}

  lemma NewPlace(place: Places, page: nat, p: seq<nat>)
    requires page !in place && p !in place.Values
    ensures place[page := p].Values == place.Values + {p}
    ensures |place[page := p].Values| == |place.Values| + 1
  {
    var place' := place[page := p];
    forall v | v in place.Values ensures v in place'.Values {
      var g :| g in place && place[g] == v;
      assert place'[g] == v;
    }
    assert place'[page] == p;
  }
}
