/**
 The increasing heap allocator: best fit from an address-ordered free list, an info header in front
 of every allocation, coalescing on release, and growth by whole pages.
 */
module Heap {
  import opened Arithmetic
  import opened HeapTiles
  import opened HeapLayout
  import opened HeapList
  import opened HeapChecks

  const HEAP_MAGIC: nat := 0xF0B0CAFE

  /** `size_of::<HeapFreeBlock>()`. */
  const FREE_NODE_SIZE: nat := 24

  datatype BlockInfo = BlockInfo(magic: nat, size: nat, prePadding: nat)

  type Infos = map<nat, BlockInfo>

  /** The header in front of a live allocation says where its block starts and how long it is. */
  ghost predicate InfoOk(infos: Infos, t: Tile)
    requires t.UsedTile?
  {
    && t.start + INFO_SIZE <= t.ptr <= t.End()
    && t.ptr - INFO_SIZE in infos
    && infos[t.ptr - INFO_SIZE] == BlockInfo(HEAP_MAGIC, t.size, t.ptr - t.start)
  }

  ghost predicate InfosOk(infos: Infos, tiles: Tiles) {
    forall t :: t in tiles && t.UsedTile? ==> InfoOk(infos, t)
  }

  /** The heap after `bytes` more at its end. */
  function Grown(tiles: Tiles, end: nat, bytes: nat): Tiles {
    GiveBack(tiles + [UsedTile(end, bytes, 0)], |tiles|)
  }

  /**
   Puts the used tile `i` of the heap that ends at `to` into the free list, merged with the free blocks it touches.
   */
  method FreeBlockAt(list: FreeBlocks, addr: nat, size: nat, to: nat, ghost tiles: Tiles, ghost from: nat, ghost i: nat)
    requires Tiled(tiles, from, to) && i < |tiles| && tiles[i].UsedTile?
    requires addr == tiles[i].start && size == tiles[i].size
    requires Linked(list.blocks, list.head, FreeList(tiles))
    modifies list
    ensures Linked(list.blocks, list.head, FreeList(GiveBack(tiles, i)))
  {
    hide Tiled, FreeList, Sorted, Within, Linked, Distinct, GiveBack, FreeBefore, FreeAfter, Joined, SidesOf;
    ghost var (pre, post) := (FreeList(tiles[..i]), FreeList(tiles[i + 1..]));
    EndsWithin(tiles, from, to, i);
    // the assertions of the source
    assert addr <= to && addr + size <= to;
    Coalesces(tiles, from, to, i);
    EndPieces(pre, post);
    var prev, next, closest := list.FindNeighbours(addr, size, pre, post);
    if prev != 0 && next != 0 {
      list.JoinAcross(prev, next, size, pre[..|pre| - 1], pre[|pre| - 1], post[0], post[1..]);
    } else if prev != 0 {
      list.Extend(prev, size, pre[..|pre| - 1], pre[|pre| - 1], post);
    } else if next != 0 {
      LinkedParts(list.blocks, list.head, pre, [post[0]], post[1..]);
      list.Replace(next, addr, list.blocks[next].size + size, pre, post[0], post[1..]);
    } else {
      list.Insert(closest, addr, size, pre, post);
    }
  }

  lemma EndPieces(pre: seq<(nat, nat)>, post: seq<(nat, nat)>)
    ensures pre != [] ==> pre + post == pre[..|pre| - 1] + [pre[|pre| - 1]] + post
    ensures post != [] ==> pre + post == pre + [post[0]] + post[1..]
    ensures pre != [] && post != [] ==> pre + post == pre[..|pre| - 1] + [pre[|pre| - 1], post[0]] + post[1..]
  {
  }

  /** The free list before and after tile `i` becomes free, by the free blocks it touches. */
  lemma Coalesces(tiles: Tiles, from: nat, to: nat, i: nat)
    requires Tiled(tiles, from, to) && i < |tiles| && tiles[i].UsedTile?
    ensures var (addr, size, list) := (tiles[i].start, tiles[i].size, FreeList(GiveBack(tiles, i)));
      var (pre, post) := (FreeList(tiles[..i]), FreeList(tiles[i + 1..]));
      && FreeList(tiles) == pre + post && Distinct(pre + post) && Distinct(list) && SidesOf(addr, size, pre, post)
      && (pre != [] ==> Last(pre) != 0) && (post != [] ==> First(post) != 0)
      && list == Coalesced(pre, post, addr, size)
  {
    hide Tiled, FreeList, Sorted, Within, Distinct, GiveBack, SidesOf, Coalesced;
    FreeSides(tiles, from, to, i);
    CoalescedTiles(tiles, from, to, i);
    GiveBackTiled(tiles, from, to, i);
    FreeListSorted(tiles, from, to);
    FreeListSorted(GiveBack(tiles, i), from, to);
    SortedIsDistinct(FreeList(tiles));
    SortedIsDistinct(FreeList(GiveBack(tiles, i)));
    TileSides(tiles, from, to, i);
  }

  /** The free blocks `pre` and `post` with `size` bytes between them at `addr`. */
  function Coalesced(pre: seq<(nat, nat)>, post: seq<(nat, nat)>, addr: nat, size: nat): seq<(nat, nat)> {
    if Touches(pre, addr) then
      if TouchedBy(post, addr + size)
      then pre[..|pre| - 1] + [(pre[|pre| - 1].0, pre[|pre| - 1].1 + size + post[0].1)] + post[1..]
      else pre[..|pre| - 1] + [(pre[|pre| - 1].0, pre[|pre| - 1].1 + size)] + post
    else
      if TouchedBy(post, addr + size) then pre + [(addr, size + post[0].1)] + post[1..]
      else pre + [(addr, size)] + post
  }

  lemma CoalescedTiles(tiles: Tiles, from: nat, to: nat, i: nat)
    requires Tiled(tiles, from, to) && i < |tiles| && tiles[i].UsedTile?
    ensures FreeList(GiveBack(tiles, i))
         == Coalesced(FreeList(tiles[..i]), FreeList(tiles[i + 1..]), tiles[i].start, tiles[i].size)
  {
    hide Tiled, FreeList, Sorted, Within, GiveBack, SidesOf, Coalesced;
    FreeSides(tiles, from, to, i);
    TileSides(tiles, from, to, i);
    FreeListGiveBack(tiles, from, to, i);
    CoalescedIs(FreeList(tiles[..i]), FreeList(tiles[i + 1..]), tiles[i].start, tiles[i].size,
                (Joined(tiles, i).start, Joined(tiles, i).size), FreeBefore(tiles, i), FreeAfter(tiles, i));
  }

  lemma CoalescedIs(pre: seq<(nat, nat)>, post: seq<(nat, nat)>, addr: nat, size: nat, joined: (nat, nat),
                    before: bool, after: bool)
    requires before == Touches(pre, addr) && after == TouchedBy(post, addr + size)
    requires joined.0 == if before then pre[|pre| - 1].0 else addr
    requires joined.1 == (if before then pre[|pre| - 1].1 else 0) + size + (if after then post[0].1 else 0)
    ensures Coalesced(pre, post, addr, size)
         == (if before then pre[..|pre| - 1] else pre) + [joined] + (if after then post[1..] else post)
  {
  }

  /** The last block before `addr` ends there. */
  predicate Touches(pre: seq<(nat, nat)>, addr: nat) {
    pre != [] && EndOf(pre[|pre| - 1]) == addr
  }

  /** The first block behind `end` starts there. */
  predicate TouchedBy(post: seq<(nat, nat)>, end: nat) {
    post != [] && post[0].0 == end
  }

  lemma TileSides(tiles: Tiles, from: nat, to: nat, i: nat)
    requires Tiled(tiles, from, to) && i < |tiles| && tiles[i].UsedTile?
    ensures SidesOf(tiles[i].start, tiles[i].size, FreeList(tiles[..i]), FreeList(tiles[i + 1..]))
    ensures var (pre, post) := (FreeList(tiles[..i]), FreeList(tiles[i + 1..]));
      && (pre != [] ==> Last(pre) != 0) && (post != [] ==> First(post) != 0)
      && (FreeBefore(tiles, i) <==> pre != [] && EndOf(pre[|pre| - 1]) == tiles[i].start)
      && (FreeAfter(tiles, i) <==> post != [] && post[0].0 == tiles[i].End())
  {
    hide Tiled, FreeList;
    FreeSides(tiles, from, to, i);
    TileFacts(tiles, from, to, i);
    if i > 0 {
      TileFacts(tiles, from, to, i - 1);
    }
  }

  lemma GrownTiled(tiles: Tiles, from: nat, end: nat, bytes: nat)
    requires Tiled(tiles, from, end) && TileOk(UsedTile(end, bytes, 0))
    ensures Tiled(tiles + [UsedTile(end, bytes, 0)], from, end + bytes)
    ensures Tiled(Grown(tiles, end, bytes), from, end + bytes)
    ensures FreeList(tiles + [UsedTile(end, bytes, 0)]) == FreeList(tiles)
    ensures FreeBytes(Grown(tiles, end, bytes)) == FreeBytes(tiles) + bytes
    ensures UsedBytes(Grown(tiles, end, bytes)) == UsedBytes(tiles)
  {
    hide Tiled, GiveBack, TileOk;
    var added := UsedTile(end, bytes, 0);
    OneTiled(added);
    TiledJoin(tiles, [added], from, end, end + bytes);
    Concat(tiles, [added]);
    GiveBackTiled(tiles + [added], from, end + bytes, |tiles|);
  }

  /** Giving a tile back touches no other live allocation. */
  lemma GiveBackUsed(tiles: Tiles, i: nat)
    requires i < |tiles|
    ensures forall t :: t in GiveBack(tiles, i) && t.UsedTile? ==> t in tiles[..i] || t in tiles[i + 1..]
  {
  }

  lemma GrownInfos(infos: Infos, tiles: Tiles, end: nat, bytes: nat)
    requires InfosOk(infos, tiles)
    ensures InfosOk(infos, Grown(tiles, end, bytes))
  {
    hide GiveBack;
    var all := tiles + [UsedTile(end, bytes, 0)];
    GiveBackUsed(all, |tiles|);
    assert all[..|tiles|] == tiles && all[|tiles| + 1..] == [];
  }

  /** Distinct tiles have no byte in common. */
  lemma TilesDisjoint(tiles: Tiles, from: nat, to: nat, i: nat, j: nat)
    requires Tiled(tiles, from, to) && i < |tiles| && j < |tiles| && i != j
    ensures tiles[i].End() <= tiles[j].start || tiles[j].End() <= tiles[i].start
  {
    if i < j {
      Ordered(tiles, from, to, i, j);
    } else {
      Ordered(tiles, from, to, j, i);
    }
  }

  /** Writing the header of a new allocation leaves the others' headers. */
  lemma TakenInfos(infos: Infos, tiles: Tiles, from: nat, to: nat, i: nat, n: nat, ptr: nat)
    requires Tiled(tiles, from, to) && InfosOk(infos, tiles) && i < |tiles| && tiles[i].FreeTile? && n <= tiles[i].size
    requires tiles[i].start + INFO_SIZE <= ptr <= tiles[i].start + n
    ensures InfosOk(infos[ptr - INFO_SIZE := BlockInfo(HEAP_MAGIC, n, ptr - tiles[i].start)], Take(tiles, i, n, ptr))
  {
    var after := infos[ptr - INFO_SIZE := BlockInfo(HEAP_MAGIC, n, ptr - tiles[i].start)];
    forall t | t in Take(tiles, i, n, ptr) && t.UsedTile? ensures InfoOk(after, t) {
      if t != UsedTile(tiles[i].start, n, ptr) {
        assert t in tiles;
        var j :| 0 <= j < |tiles| && tiles[j] == t;
        TilesDisjoint(tiles, from, to, i, j);
        assert InfoOk(infos, t);
      }
    }
  }

  ghost predicate HasFit(list: seq<(nat, nat)>, size: nat) {
    exists j :: 0 <= j < |list| && list[j].1 >= size
  }

  /** If nothing fitted before growing by enough, the block at the new end is what fits now. */
  lemma GrownFit(tiles: Tiles, from: nat, end: nat, bytes: nat, size: nat)
    requires Tiled(tiles, from, end) && TileOk(UsedTile(end, bytes, 0))
    requires !HasFit(FreeList(tiles), size) && size <= bytes
    ensures var list := FreeList(Grown(tiles, end, bytes));
      list != [] && list[|list| - 1].1 >= bytes && forall j :: 0 <= j < |list| - 1 ==> list[j].1 < size
  {
    hide Tiled, GiveBack, TileOk, FreeList;
    var all := tiles + [UsedTile(end, bytes, 0)];
    GrownTiled(tiles, from, end, bytes);
    FreeListGiveBack(all, from, end + bytes, |tiles|);
    assert all[..|tiles|] == tiles && all[|tiles| + 1..] == [];
    EmptyList(all[|tiles| + 1..]);
  }

  /** What is best for the rounded size is best for the size itself, if nothing else fits. */
  lemma OnlyLastFits(list: seq<(nat, nat)>, size: nat, rounded: nat, best: nat, k: nat)
    requires list != [] && list[|list| - 1].1 >= rounded >= size && list[|list| - 1].0 != 0
    requires forall j :: 0 <= j < |list| - 1 ==> list[j].1 < size
    requires BestAmong(list, |list|, rounded, best, k)
    ensures best == list[|list| - 1].0 && k == |list| - 1 && BestAmong(list, |list|, size, best, k)
  {
  }

  class HeapAllocator {
    const pageSize: nat
    /** The page provider: where it maps pages, how many at most, and how many so far. */
    const base: nat
    const maxPages: nat
    var mappedPages: nat

    var heapStart: nat
    var totalHeapSize: nat
    var freeSize: nat
    var usedSize: nat
    const list: FreeBlocks
    var infos: Infos
    ghost var tiles: Tiles

    constructor (pageSize: nat, base: nat, maxPages: nat)
      requires pageSize >= MIN_BLOCK && pageSize % GRAIN == 0 && base > 0 && base % GRAIN == 0
      ensures Valid() && fresh(list) && tiles == [] && totalHeapSize == 0
    {
      this.pageSize, this.base, this.maxPages, mappedPages := pageSize, base, maxPages, 0;
      heapStart, totalHeapSize, freeSize, usedSize := 0, 0, 0, 0;
      list := new FreeBlocks();
      infos, tiles := map[], [];
    }

    ghost predicate ConfigOk()
      reads this`mappedPages
    {
      && pageSize >= MIN_BLOCK && pageSize % GRAIN == 0 && base > 0 && base % GRAIN == 0
    }

    ghost function End(): nat
      reads this`totalHeapSize
    {
      base + totalHeapSize
    }

    /**
     Free blocks and live allocations tile the heap exactly; the free list is the free tiles; the
     counters are their sums; every live allocation has its header.
     */
    ghost predicate Valid()
      reads this, list
    {
      && ConfigOk()
      && totalHeapSize == mappedPages * pageSize && (totalHeapSize > 0 ==> heapStart == base)
      && Tiled(tiles, base, End())
      && Linked(list.blocks, list.head, FreeList(tiles))
      && freeSize == FreeBytes(tiles) && usedSize == UsedBytes(tiles)
      && InfosOk(infos, tiles)
    }

    /** Maps `pages` more pages at the end of the heap and frees them; the provider may have no more. */
    method AllocateMorePages(pages: nat) returns (ok: bool)
      requires Valid() && pages > 0
      modifies this, list
      ensures Valid()
      ensures ok <==> old(mappedPages) + pages <= maxPages
      ensures ok ==> tiles == Grown(old(tiles), old(End()), pages * pageSize)
      ensures ok ==> totalHeapSize == old(totalHeapSize) + pages * pageSize
      ensures infos == old(infos)
      ensures !ok ==> tiles == old(tiles) && totalHeapSize == old(totalHeapSize)
    {
      hide Tiled, FreeList, Linked, FreeBytes, UsedBytes, InfosOk, GiveBack, Grown;
      if mappedPages + pages > maxPages {
        return false;
      }
      var bytes := pages * pageSize;
      var newHeapStart := base + mappedPages * pageSize;
      GrowthOk(pages, pageSize, newHeapStart, mappedPages, base);
      GrownTiled(tiles, base, End(), bytes);
      GrownInfos(infos, tiles, End(), bytes);
      mappedPages := mappedPages + pages;
      if totalHeapSize == 0 {
        heapStart := newHeapStart;
      }
      totalHeapSize := totalHeapSize + bytes;
      AddPages(newHeapStart, bytes, heapStart + totalHeapSize, base);
      tiles := Grown(tiles, newHeapStart, bytes);
      freeSize := freeSize + bytes;
      ok := true;
    }

    /** Adds new pages to the free list. */
    method AddPages(addr: nat, bytes: nat, to: nat, ghost from: nat)
      requires Tiled(tiles, from, addr) && TileOk(UsedTile(addr, bytes, 0)) && to == addr + bytes
      requires Linked(list.blocks, list.head, FreeList(tiles))
      modifies list
      ensures Linked(list.blocks, list.head, FreeList(Grown(tiles, addr, bytes)))
    {
      hide Tiled, FreeList, Linked, GiveBack, TileOk, Sorted, Distinct;
      ghost var all := tiles + [UsedTile(addr, bytes, 0)];
      GrownTiled(tiles, from, addr, bytes);
      FreeListSorted(Grown(tiles, addr, bytes), from, addr + bytes);
      SortedIsDistinct(FreeList(Grown(tiles, addr, bytes)));
      FreeListSorted(tiles, from, addr);
      HeadIsFirst(list.blocks, list.head, FreeList(tiles));
      if list.head == 0 {
        LoneBlock(tiles, from, addr, bytes);
        ghost var none: seq<(nat, nat)> := [];
        assert none + none == FreeList(tiles);
        list.Insert(0, addr, bytes, [], []);
      } else {
        FreeBlockAt(list, addr, bytes, to, all, from, |tiles|);
      }
    }

    /** `size` rounded up to whole pages. */
    function Rounded(size: nat): (r: nat)
      requires pageSize > 0
      ensures r >= size
    {
      AlignUpBounds(size, pageSize);
      AlignUp(size, pageSize)
    }

    /**
     `get_free_block`: a smallest block of at least `size` bytes.  The heap grows once, by the pages
     that hold `size` bytes, exactly when no block is large enough; 0 means that it cannot.
     */
    method GetFreeBlock(size: nat) returns (block: nat, ghost k: nat)
      requires Valid() && size > 0
      modifies this, list
      ensures Valid() && infos == old(infos)
      ensures var fits := HasFit(FreeList(old(tiles)), size);
        && (block == 0 <==> !fits && old(mappedPages) + Rounded(size) / pageSize > maxPages)
        && (fits || block == 0 ==> tiles == old(tiles))
        && (!fits && block != 0 ==> tiles == Grown(old(tiles), old(End()), Rounded(size)))
      ensures block != 0 ==> BestAmong(FreeList(tiles), |FreeList(tiles)|, size, block, k)
      decreases if totalHeapSize > 0 && HasFit(FreeList(tiles), size) then 0 else 1
    {
      hide Tiled, FreeList, Linked, FreeBytes, UsedBytes, InfosOk, GiveBack, Grown, Distinct, Sorted,
           HeapAllocator.Rounded, TileOk;
      block, k := 0, 0;
      FreeListSorted(tiles, base, End());
      SortedIsDistinct(FreeList(tiles));
      EmptyHeap();
      if totalHeapSize > 0 {
        block, k := list.FindBest(size, FreeList(tiles));
      }
      if block == 0 {
        PagesForOk(size);
        GrownFits(size);
        var rounded := Rounded(size);
        var ok := AllocateMorePages(rounded / pageSize);
        if !ok {
          return;
        }
        assert HasFit(FreeList(tiles), rounded);
        block, k := GetFreeBlock(rounded);
        OnlyLastFits(FreeList(tiles), size, rounded, block, k);
      }
    }

    lemma EmptyHeap()
      requires Valid()
      ensures totalHeapSize == 0 ==> FreeList(tiles) == []
    {
      if totalHeapSize == 0 && tiles != [] {
        FirstStart(tiles, base, End());
      }
    }

    lemma PagesForOk(size: nat)
      requires Valid() && size > 0
      ensures Rounded(size) / pageSize > 0 && Rounded(size) / pageSize * pageSize == Rounded(size)
    {
      AlignUpBounds(size, pageSize);
      DivBounds(Rounded(size), pageSize);
      var n := Rounded(size) / pageSize;
      if n <= 0 {
        MulMonotone(n, 0, pageSize);
      }
    }

    lemma GrownFits(size: nat)
      requires Valid() && size > 0 && !HasFit(FreeList(tiles), size)
      ensures var list' := FreeList(Grown(tiles, End(), Rounded(size)));
        && list' != [] && list'[|list'| - 1].1 >= Rounded(size) && list'[|list'| - 1].0 != 0
        && (forall j :: 0 <= j < |list'| - 1 ==> list'[j].1 < size)
    {
      hide Tiled, FreeList, Linked, FreeBytes, UsedBytes, InfosOk, GiveBack, HeapAllocator.Rounded, TileOk, Grown;
      PagesForOk(size);
      GrowthOk(Rounded(size) / pageSize, pageSize, End(), mappedPages, base);
      GrownFit(tiles, base, End(), Rounded(size), size);
      GrownTiled(tiles, base, End(), Rounded(size));
      FreeListSorted(Grown(tiles, End(), Rounded(size)), base, End() + Rounded(size));
    }

    /**
     `alloc`.  The pointer is aligned and its bytes lie, after the header, within a block taken from the
     first of the smallest free blocks that were large enough for the request; nothing else changes but
     the growth of the heap.  That block, which the heap before the call decides, turns out too small for
     the request exactly when it is shorter than what alignment at its address takes.
     */
    method Alloc(l: Layout) returns (r: AllocResult, ghost step: AllocStep)
      requires Valid() && PowerOfTwo(l.align)
      modifies this, list
      ensures Valid()
      ensures var fits := HasFit(FreeList(old(tiles)), Request(l));
        && (r.OutOfMemory? <==> !fits && old(mappedPages) + Rounded(Request(l)) / pageSize > maxPages)
        && (r.OutOfMemory? ==> tiles == old(tiles))
        && step.grown == (if fits || r.OutOfMemory? then old(tiles)
                          else Grown(old(tiles), old(End()), Rounded(Request(l))))
      ensures !r.OutOfMemory? ==> Chosen(step.grown, step.i, Request(l))
      ensures !r.OutOfMemory? ==> (r.BlockTooSmall? <==> TooSmall(step.grown, l))
      ensures r.BlockTooSmall? ==> tiles == step.grown
      ensures r.Allocated? ==> Placed(step, l, r.ptr)
      ensures r.Allocated? ==> tiles == Take(step.grown, step.i, step.n, r.ptr)
      ensures l.align <= INFO_ALIGN ==> !r.BlockTooSmall?
    {
      hide Tiled, FreeList, Linked, FreeBytes, UsedBytes, InfosOk, GiveBack, Grown, HeapAllocator.Rounded, Request,
           SizeFor, Chosen, TooSmall, Take, Placed, BestAmong, HasFit, PowerOfTwo;
      ghost var k;
      var block;
      block, k := GetFreeBlock(Request(l));
      step := AllocStep(tiles, 0, 0);
      if block == 0 {
        return OutOfMemory, step;
      }
      ghost var i := ChosenTile(tiles, Request(l), block, k);
      SmallAlignment(tiles, i, l);
      ChosenDecides(tiles, i, l);
      BlockOfTile(tiles, base, End(), i);
      r, step := AllocFrom(block, l, i);
    }

    /** Takes an allocation from the chosen block. */
    method AllocFrom(block: nat, l: Layout, ghost i: nat) returns (r: AllocResult, ghost step: AllocStep)
      requires Valid() && PowerOfTwo(l.align) && i < |tiles| && tiles[i].FreeTile? && block == tiles[i].start
      modifies this, list
      ensures Valid() && step.grown == old(tiles) && step.i == i && !r.OutOfMemory?
      ensures r.BlockTooSmall? <==> old(tiles)[i].size < SizeFor(block, l)
      ensures r.BlockTooSmall? ==> tiles == old(tiles)
      ensures r.Allocated? ==> Placed(step, l, r.ptr) && tiles == Take(old(tiles), i, step.n, r.ptr)
    {
      hide Tiled, FreeList, Linked, FreeBytes, UsedBytes, InfosOk, GiveBack, SizeFor, Take, PointerOffset, Placed,
           PowerOfTwo;
      BlockOfTile(tiles, base, End(), i);
      NodeOfTile(list.blocks, list.head, tiles, i);
      RoomFor(block, l);
      var offset := PointerOffset(block, l);
      var size := SizeFor(block, l);
      var blockSize := list.blocks[block].size;
      step := AllocStep(tiles, i, 0);
      if blockSize < size {
        return BlockTooSmall, step;
      }
      var n := TakeBlock(list, block, size, tiles, base, End(), i);
      var ptr := block + offset;
      TakeTiled(tiles, base, End(), i, n, ptr);
      TakeBytes(tiles, i, n, ptr);
      TakenInfos(infos, tiles, base, End(), i, n, ptr);
      freeSize := freeSize - n;
      usedSize := usedSize + n;
      tiles := Take(tiles, i, n, ptr);
      var issues := SelfCheck();
      assert !issues;
      infos := infos[ptr - INFO_SIZE := BlockInfo(HEAP_MAGIC, n, offset)];
      step := AllocStep(step.grown, i, n);
      IsPlaced(step, l, ptr);
      r := Allocated(ptr);
    }

    /** The self-check after every operation: it finds no issue with the list of a tiled heap. */
    method SelfCheck() returns (issues: bool)
      requires Tiled(tiles, base, End()) && Linked(list.blocks, list.head, FreeList(tiles))
      ensures !issues
    {
      hide Tiled, FreeList, Linked, Distinct, Follows, Endless, Closed;
      FreeListSorted(tiles, base, End());
      SortedIsDistinct(FreeList(tiles));
      NothingToFind(list.blocks, list.head, FreeList(tiles));
      issues := CheckIssues(list.blocks, list.head, set b | b in FreeList(tiles) :: b.0,
                            Addresses(FreeList(tiles)), AddressesBack(FreeList(tiles)));
    }

    /** `dealloc`: the header gives back the start and the size of the block, which becomes free and coalesces. */
    method Dealloc(ptr: nat, l: Layout, ghost i: nat)
      requires Valid() && PowerOfTwo(l.align)
      requires i < |tiles| && tiles[i].UsedTile? && tiles[i].ptr == ptr && Request(l) <= tiles[i].size
      modifies this, list
      ensures Valid() && tiles == GiveBack(old(tiles), i) && infos == old(infos) && totalHeapSize == old(totalHeapSize)
    {
      hide Tiled, FreeList, Linked, FreeBytes, UsedBytes, GiveBack, Request, PowerOfTwo;
      var info := infos[ptr - INFO_SIZE];
      assert tiles[i] in tiles;
      assert InfoOk(infos, tiles[i]);
      // the assertions of the source
      assert info.magic == HEAP_MAGIC && info.size >= Request(l) && info.prePadding >= INFO_SIZE;
      var freeingBlock := ptr - info.prePadding;
      NotEmpty(tiles, base, End());
      FreeBlockAt(list, freeingBlock, info.size, heapStart + totalHeapSize, tiles, base, i);
      GiveBackTiled(tiles, base, End(), i);
      GiveBackUsed(tiles, i);
      usedSize := usedSize - info.size;
      freeSize := freeSize + info.size;
      tiles := GiveBack(tiles, i);
      var issues := SelfCheck();
      assert !issues;
    }

    /** The counters account for the whole heap. */
    lemma CountersAddUp()
      requires Valid()
      ensures freeSize + usedSize == totalHeapSize
    {
      BytesAddUp(tiles, base, End());
    }

    /** The bytes of a live allocation, its header included, belong to no other tile and to no free block's node. */
    lemma LiveApart(i: nat, j: nat)
      requires Valid() && i < |tiles| && j < |tiles| && i != j && tiles[i].UsedTile?
      ensures base <= tiles[i].start <= tiles[i].ptr - INFO_SIZE && tiles[i].ptr <= tiles[i].End() <= End()
      ensures tiles[j].UsedTile? ==>
        tiles[i].End() <= tiles[j].ptr - INFO_SIZE || tiles[j].End() <= tiles[i].ptr - INFO_SIZE
      ensures tiles[j].FreeTile? ==>
        tiles[i].End() <= tiles[j].start || tiles[j].start + FREE_NODE_SIZE <= tiles[i].start
    {
      TilesDisjoint(tiles, base, End(), i, j);
      assert tiles[i] in tiles && tiles[j] in tiles;
      TiledSplit(tiles, base, End(), i);
      TiledSplit(tiles, base, End(), i + 1);
      FirstStart(tiles[i..], tiles[i].start, End());
      RowGrows(tiles[..i], base, tiles[i].start);
    }
  }

  lemma RowGrows(tiles: Tiles, from: nat, to: nat)
    requires Tiled(tiles, from, to)
    ensures from <= to
  {
    BytesAddUp(tiles, from, to);
  }

  datatype AllocResult = Allocated(ptr: nat) | OutOfMemory | BlockTooSmall

  /** The heap that an allocation is taken from, which tile, and how many bytes of it. */
  datatype AllocStep = AllocStep(grown: Tiles, i: nat, n: nat)

  /** Tile `i` is the first of the smallest free blocks of at least `size` bytes. */
  ghost predicate Chosen(tiles: Tiles, i: nat, size: nat) {
    && i < |tiles| && tiles[i].FreeTile? && tiles[i].size >= size
    && (forall j :: 0 <= j < |tiles| && tiles[j].FreeTile? && tiles[j].size >= size ==> tiles[i].size <= tiles[j].size)
    && (forall j :: 0 <= j < i && tiles[j].FreeTile? && tiles[j].size >= size ==> tiles[i].size < tiles[j].size)
  }

  /** The row of tiles decides which block is chosen. */
  lemma ChosenIsUnique(tiles: Tiles, i: nat, j: nat, size: nat)
    requires Chosen(tiles, i, size) && Chosen(tiles, j, size)
    ensures i == j
  {}

  /** The block that is chosen is shorter than what alignment at its address takes. */
  ghost predicate TooSmall(tiles: Tiles, l: Layout)
    requires PowerOfTwo(l.align)
  {
    exists i: nat :: Chosen(tiles, i, Request(l)) && tiles[i].size < SizeFor(tiles[i].start, l)
  }

  lemma ChosenDecides(tiles: Tiles, i: nat, l: Layout)
    requires PowerOfTwo(l.align) && Chosen(tiles, i, Request(l))
    ensures i < |tiles| && (TooSmall(tiles, l) <==> tiles[i].size < SizeFor(tiles[i].start, l))
  {
    hide Request, SizeFor;
    forall j: nat | Chosen(tiles, j, Request(l)) ensures i == j {
      ChosenIsUnique(tiles, i, j, Request(l));
    }
  }

  /** Beyond alignment 16 the chosen block can be too short for the request, as here a block of 64 bytes. */
  lemma LargeAlignmentExample()
    ensures var (l, tiles) := (Layout(32, 32),
                               [UsedTile(4096, 48, 4128), FreeTile(4144, 64), UsedTile(4208, 3984, 4240)]);
      && Tiled(tiles, 4096, 8192) && PowerOfTwo(l.align)
      && InfosOk(map[4096 := BlockInfo(HEAP_MAGIC, 48, 32), 4208 := BlockInfo(HEAP_MAGIC, 3984, 32)], tiles)
      && Chosen(tiles, 1, Request(l)) && TooSmall(tiles, l)
  {
    ShortBlock();
    hide PowerOfTwo, Request, SizeFor;
  }

  lemma ShortBlock()
    ensures PowerOfTwo(32) && Request(Layout(32, 32)) <= 64 < SizeFor(4144, Layout(32, 32))
  {
    assert PowerOfTwo(2) && PowerOfTwo(4) && PowerOfTwo(8) && PowerOfTwo(16);
  }

  /**
   The pointer is the first aligned one with room for the header before it, and the request fits between it and the end
   of what is taken: the whole block, unless more than a list node is left of it.
   */
  ghost predicate Placed(step: AllocStep, l: Layout, ptr: nat)
    requires step.i < |step.grown| && PowerOfTwo(l.align)
  {
    var t := step.grown[step.i];
    && SizeFor(t.start, l) <= step.n <= t.size
    && step.n == (if t.size > SizeFor(t.start, l) + 24 then SizeFor(t.start, l) else t.size)
    && ptr % l.align == 0
    && t.start + 32 <= ptr < t.start + 32 + l.align && ptr + l.size <= t.start + step.n
  }

  lemma RoomFor(block: nat, l: Layout)
    requires PowerOfTwo(l.align) && block % GRAIN == 0
    ensures l.align > 0 && INFO_SIZE <= PointerOffset(block, l) && PointerOffset(block, l) + l.size <= SizeFor(block, l)
    ensures SizeFor(block, l) % GRAIN == 0 && SizeFor(block, l) >= MIN_BLOCK
  {
    PointerOk(block, l);
    SizeForOk(block, l);
    hide PointerOffset, SizeFor;
  }

  lemma IsPlaced(step: AllocStep, l: Layout, ptr: nat)
    requires step.i < |step.grown| && PowerOfTwo(l.align) && step.grown[step.i].start % GRAIN == 0
    requires var t := step.grown[step.i];
      && ptr == t.start + PointerOffset(t.start, l) && SizeFor(t.start, l) <= step.n <= t.size
      && step.n == (if t.size > SizeFor(t.start, l) + 24 then SizeFor(t.start, l) else t.size)
    ensures Placed(step, l, ptr)
  {
    PointerOk(step.grown[step.i].start, l);
    SizeForOk(step.grown[step.i].start, l);
    hide PointerOffset, SizeFor, PowerOfTwo;
  }

  lemma {:induction false} FreeTileListed(tiles: Tiles, j: nat)
    requires j < |tiles| && tiles[j].FreeTile?
    ensures (tiles[j].start, tiles[j].size) in FreeList(tiles)
  {
    Around(tiles, j);
    OneFree(tiles[j]);
  }

  lemma ChosenTile(tiles: Tiles, size: nat, block: nat, k: nat) returns (i: nat)
    requires block != 0 && BestAmong(FreeList(tiles), |FreeList(tiles)|, size, block, k)
    ensures Chosen(tiles, i, size) && tiles[i].start == block
  {
    i := TileOfBlock(tiles, k);
    forall j | 0 <= j < |tiles| && tiles[j].FreeTile? && tiles[j].size >= size ensures tiles[i].size <= tiles[j].size {
      FreeTileListed(tiles, j);
    }
    forall j | 0 <= j < i && tiles[j].FreeTile? && tiles[j].size >= size ensures tiles[i].size < tiles[j].size {
      FreeTileListed(tiles[..i], j);
    }
  }

  lemma SmallAlignment(tiles: Tiles, i: nat, l: Layout)
    requires PowerOfTwo(l.align) && Chosen(tiles, i, Request(l))
    ensures i < |tiles| && tiles[i].FreeTile?
    ensures l.align <= INFO_ALIGN && tiles[i].start % GRAIN == 0 ==> tiles[i].size >= SizeFor(tiles[i].start, l)
  {
    if tiles[i].start % GRAIN == 0 {
      SizeOk(tiles[i].start, l);
    }
  }

  lemma BlockOfTile(tiles: Tiles, from: nat, to: nat, i: nat)
    requires Tiled(tiles, from, to) && i < |tiles|
    ensures TileOk(tiles[i])
  {
  }

  lemma SizeForOk(block: nat, l: Layout)
    requires PowerOfTwo(l.align) && block % GRAIN == 0
    ensures SizeFor(block, l) % GRAIN == 0 && SizeFor(block, l) >= MIN_BLOCK
    ensures PointerOffset(block, l) + l.size <= SizeFor(block, l)
  {
    SizeOk(block, l);
  }

  lemma NodeOfTile(blocks: Blocks, head: nat, tiles: Tiles, i: nat)
    requires Linked(blocks, head, FreeList(tiles)) && i < |tiles| && tiles[i].FreeTile?
    ensures tiles[i].start in blocks && blocks[tiles[i].start].size == tiles[i].size
    ensures FreeList(tiles) == FreeList(tiles[..i]) + [(tiles[i].start, tiles[i].size)] + FreeList(tiles[i + 1..])
  {
    Around(tiles, i);
    OneFree(tiles[i]);
    LinkedParts(blocks, head, FreeList(tiles[..i]), [(tiles[i].start, tiles[i].size)], FreeList(tiles[i + 1..]));
  }

  /**
   Takes `size` bytes from the front of a free block, or the whole block when too little would be left
   for a node.
   */
  method TakeBlock(list: FreeBlocks, block: nat, size: nat, ghost tiles: Tiles, ghost from: nat, ghost to: nat,
                   ghost i: nat)
    returns (n: nat)
    requires Tiled(tiles, from, to) && i < |tiles| && tiles[i].FreeTile? && block == tiles[i].start
    requires size % GRAIN == 0 && MIN_BLOCK <= size <= tiles[i].size
    requires Linked(list.blocks, list.head, FreeList(tiles))
    modifies list
    ensures n == tiles[i].size || (n == size && n + MIN_BLOCK <= tiles[i].size)
    ensures n == if tiles[i].size > size + 24 then size else tiles[i].size
    ensures n >= size && n % GRAIN == 0
    ensures forall ptr :: Linked(list.blocks, list.head, FreeList(Take(tiles, i, n, ptr)))
  {
    hide Tiled, FreeList, Linked, Take, Sorted, Distinct, TakenTiles;
    ghost var (pre, post) := (FreeList(tiles[..i]), FreeList(tiles[i + 1..]));
    ghost var t := tiles[i];
    BlockOfTile(tiles, from, to, i);
    NodeOfTile(list.blocks, list.head, tiles, i);
    FreeListSorted(tiles, from, to);
    SortedIsDistinct(FreeList(tiles));
    var blockSize := list.blocks[block].size;
    if blockSize > size + FREE_NODE_SIZE {
      n := size;
      SplitDistinct(tiles, from, to, i, n);
      list.Replace(block, block + size, blockSize - size, pre, (t.start, t.size), post);
    } else {
      n := blockSize;
      list.Remove(block, pre, (t.start, t.size), post);
      ghost var none: seq<(nat, nat)> := [];
      assert pre + none + post == pre + post;
    }
    forall ptr: nat ensures Linked(list.blocks, list.head, FreeList(Take(tiles, i, n, ptr))) {
      TakeBytes(tiles, i, n, ptr);
    }
  }

  lemma SplitDistinct(tiles: Tiles, from: nat, to: nat, i: nat, n: nat)
    requires Tiled(tiles, from, to) && i < |tiles| && tiles[i].FreeTile?
    requires n % GRAIN == 0 && MIN_BLOCK <= n && n + MIN_BLOCK <= tiles[i].size
    ensures Distinct(FreeList(tiles[..i]) + [(tiles[i].start + n, tiles[i].size - n)] + FreeList(tiles[i + 1..]))
  {
    hide Tiled, FreeList, Take, Sorted, Distinct, TakenTiles;
    BlockOfTile(tiles, from, to, i);
    TakeTiled(tiles, from, to, i, n, 0);
    TakeBytes(tiles, i, n, 0);
    FreeListSorted(Take(tiles, i, n, 0), from, to);
    SortedIsDistinct(FreeList(Take(tiles, i, n, 0)));
  }

  lemma HeadIsFirst(blocks: Blocks, head: nat, list: seq<(nat, nat)>)
    requires Linked(blocks, head, list) && Sorted(list)
    ensures head == 0 <==> list == []
  {
  }

  /** New pages on a heap without free blocks are the only block. */
  lemma LoneBlock(tiles: Tiles, from: nat, addr: nat, bytes: nat)
    requires Tiled(tiles, from, addr) && TileOk(UsedTile(addr, bytes, 0)) && FreeList(tiles) == []
    ensures FreeList(Grown(tiles, addr, bytes)) == [] + [(addr, bytes)] + []
  {
    hide Tiled, TileOk, FreeList;
    var all := tiles + [UsedTile(addr, bytes, 0)];
    GrownTiled(tiles, from, addr, bytes);
    FreeListGiveBack(all, from, addr + bytes, |tiles|);
    assert all[..|tiles|] == tiles && all[|tiles| + 1..] == [];
    EmptyList(all[|tiles| + 1..]);
  }

  lemma GrowthOk(pages: nat, pageSize: nat, end: nat, mapped: nat, base: nat)
    requires pages > 0 && pageSize >= MIN_BLOCK && pageSize % GRAIN == 0 && base > 0 && base % GRAIN == 0
    requires end == base + mapped * pageSize
    ensures TileOk(UsedTile(end, pages * pageSize, 0))
    ensures (mapped + pages) * pageSize == mapped * pageSize + pages * pageSize
  {
    ModSelf(pageSize);
    Multiple(pages, pageSize);
    Multiple(mapped, pageSize);
    ModSum(base, mapped * pageSize, GRAIN);
    MulMonotone(1, pages, pageSize);
  }

  lemma Multiple(n: nat, a: nat)
    requires a > 0 && a % GRAIN == 0
    ensures n * a % GRAIN == 0
  {
    DivModOfSum(n, a, 0);
    MultipleOfGrain(n * a, a);
  }
}
