/**
 The heap as a row of tiles: free blocks and live allocations that follow each other without a
 gap.  The free list is what the row says it is: its free tiles in address order.
 */
module HeapTiles {

  datatype Tile =
    | FreeTile(start: nat, size: nat)
    | UsedTile(start: nat, size: nat, ptr: nat)
  {
    function End(): nat {
      start + size
    }
  }

  type Tiles = seq<Tile>

  /** Blocks are aligned to the info header, and large enough for one. */
  const GRAIN: nat := 16
  const MIN_BLOCK: nat := 32

  predicate TileOk(t: Tile) {
    && t.start > 0 && t.start % GRAIN == 0 && t.size % GRAIN == 0 && t.size >= MIN_BLOCK
  }

  /** The tiles cover `[from, to)` exactly, and no two neighbours are both free. */
  ghost predicate Tiled(tiles: Tiles, from: nat, to: nat) {
    && (forall i :: 0 <= i < |tiles| ==> TileOk(tiles[i]))
    && (forall i :: 0 <= i < |tiles| - 1 ==> tiles[i].End() == tiles[i + 1].start)
    && (forall i :: 0 <= i < |tiles| - 1 ==> tiles[i].UsedTile? || tiles[i + 1].UsedTile?)
    && (if tiles == [] then from == to else tiles[0].start == from && tiles[|tiles| - 1].End() == to)
  }

  /** The free blocks, as address and size. */
  function FreeList(tiles: Tiles): seq<(nat, nat)> {
    if tiles == [] then [] else FreePart(tiles[0]) + FreeList(tiles[1..])
  }

  function FreePart(t: Tile): seq<(nat, nat)> {
    if t.FreeTile? then [(t.start, t.size)] else []
  }

  function FreeBytes(tiles: Tiles): nat {
    if tiles == [] then 0 else (if tiles[0].FreeTile? then tiles[0].size else 0) + FreeBytes(tiles[1..])
  }

  function UsedBytes(tiles: Tiles): nat {
    if tiles == [] then 0 else (if tiles[0].UsedTile? then tiles[0].size else 0) + UsedBytes(tiles[1..])
  }

  lemma {:induction false} FreeListConcat(a: Tiles, b: Tiles)
    ensures FreeList(a + b) == FreeList(a) + FreeList(b)
  {
    hide FreePart;
    if a == [] {
      assert a + b == b;
    } else {
      assert (a + b)[1..] == a[1..] + b;
      FreeListConcat(a[1..], b);
      assert FreePart(a[0]) + (FreeList(a[1..]) + FreeList(b)) == (FreePart(a[0]) + FreeList(a[1..])) + FreeList(b);
    }
  }

  lemma {:induction false} BytesConcat(a: Tiles, b: Tiles)
    ensures FreeBytes(a + b) == FreeBytes(a) + FreeBytes(b)
    ensures UsedBytes(a + b) == UsedBytes(a) + UsedBytes(b)
  {
    if a == [] {
      assert a + b == b;
    } else {
      assert (a + b)[1..] == a[1..] + b;
      BytesConcat(a[1..], b);
    }
  }

  lemma Concat(a: Tiles, b: Tiles)
    ensures FreeList(a + b) == FreeList(a) + FreeList(b)
    ensures FreeBytes(a + b) == FreeBytes(a) + FreeBytes(b)
    ensures UsedBytes(a + b) == UsedBytes(a) + UsedBytes(b)
  {
    FreeListConcat(a, b);
    BytesConcat(a, b);
  }

  lemma Around(tiles: Tiles, i: nat)
    requires i < |tiles|
    ensures tiles == tiles[..i] + [tiles[i]] + tiles[i + 1..]
    ensures FreeList(tiles) == FreeList(tiles[..i]) + FreeList([tiles[i]]) + FreeList(tiles[i + 1..])
    ensures FreeBytes(tiles) == FreeBytes(tiles[..i]) + FreeBytes([tiles[i]]) + FreeBytes(tiles[i + 1..])
    ensures UsedBytes(tiles) == UsedBytes(tiles[..i]) + UsedBytes([tiles[i]]) + UsedBytes(tiles[i + 1..])
  {
    hide FreeList, FreeBytes, UsedBytes;
    Pieces(tiles, i);
    var (before, one, after) := (tiles[..i], [tiles[i]], tiles[i + 1..]);
    Concat(before, one);
    Concat(before + one, after);
  }

  lemma Pieces(tiles: Tiles, i: nat)
    requires i < |tiles|
    ensures tiles == tiles[..i] + [tiles[i]] + tiles[i + 1..]
  {
  }

  lemma {:induction false} Ordered(tiles: Tiles, from: nat, to: nat, i: nat, j: nat)
    requires Tiled(tiles, from, to) && i < j < |tiles|
    ensures tiles[i].End() <= tiles[j].start
    ensures tiles[i].FreeTile? && tiles[j].FreeTile? ==> tiles[i].End() < tiles[j].start
    decreases j - i
  {
    if i + 1 < j {
      Ordered(tiles, from, to, i + 1, j);
    }
  }

  /** The two kinds of tile add up to the whole heap. */
  lemma {:induction false} BytesAddUp(tiles: Tiles, from: nat, to: nat)
    requires Tiled(tiles, from, to)
    ensures FreeBytes(tiles) + UsedBytes(tiles) == to - from
  {
    if tiles != [] {
      var rest := tiles[1..];
      assert Tiled(rest, tiles[0].End(), to);
      BytesAddUp(rest, tiles[0].End(), to);
    }
  }

  // ---------------------------------------------------------------------------
  // Taking and giving back

  function TakenTiles(t: Tile, n: nat, ptr: nat): Tiles
    requires n <= t.size
  {
    [UsedTile(t.start, n, ptr)] + (if n < t.size then [FreeTile(t.start + n, t.size - n)] else [])
  }

  /** Tile `i`, free, gives its first `n` bytes to an allocation. */
  function Take(tiles: Tiles, i: nat, n: nat, ptr: nat): Tiles
    requires i < |tiles| && n <= tiles[i].size
  {
    tiles[..i] + TakenTiles(tiles[i], n, ptr) + tiles[i + 1..]
  }

  predicate FreeBefore(tiles: Tiles, i: nat)
    requires i < |tiles|
  {
    i > 0 && tiles[i - 1].FreeTile?
  }

  predicate FreeAfter(tiles: Tiles, i: nat)
    requires i < |tiles|
  {
    i + 1 < |tiles| && tiles[i + 1].FreeTile?
  }

  /** Tile `i` joined with its free neighbours. */
  function Joined(tiles: Tiles, i: nat): Tile
    requires i < |tiles|
  {
    FreeTile(
      if FreeBefore(tiles, i) then tiles[i - 1].start else tiles[i].start,
      (if FreeBefore(tiles, i) then tiles[i - 1].size else 0) + tiles[i].size
      + (if FreeAfter(tiles, i) then tiles[i + 1].size else 0))
  }

  /** Tile `i` becomes free and coalesces. */
  function GiveBack(tiles: Tiles, i: nat): Tiles
    requires i < |tiles|
  {
    var lo := if FreeBefore(tiles, i) then i - 1 else i;
    var hi := if FreeAfter(tiles, i) then i + 2 else i + 1;
    tiles[..lo] + [Joined(tiles, i)] + tiles[hi..]
  }

  /** Giving back what was just taken restores the heap, tile by tile. */
  lemma TakeGiveBack(tiles: Tiles, from: nat, to: nat, i: nat, n: nat, ptr: nat)
    requires Tiled(tiles, from, to) && i < |tiles| && tiles[i].FreeTile? && n <= tiles[i].size
    ensures GiveBack(Take(tiles, i, n, ptr), i) == tiles
  {
    var taken := Take(tiles, i, n, ptr);
    assert taken[i] == UsedTile(tiles[i].start, n, ptr);
    if n < tiles[i].size {
      assert taken[i + 1] == FreeTile(tiles[i].start + n, tiles[i].size - n);
      assert taken[i + 2..] == tiles[i + 1..];
    } else {
      assert taken[i + 1..] == tiles[i + 1..];
    }
    if i > 0 {
      assert taken[i - 1] == tiles[i - 1];
    }
    assert taken[..i] == tiles[..i];
  }

  /** Where tile `i` would start; the end of the row for the index past the last. */
  function StartAt(tiles: Tiles, i: nat, to: nat): nat
    requires i <= |tiles|
  {
    if i < |tiles| then tiles[i].start else to
  }

  lemma TiledSplit(tiles: Tiles, from: nat, to: nat, i: nat)
    requires Tiled(tiles, from, to) && i <= |tiles|
    ensures Tiled(tiles[..i], from, StartAt(tiles, i, to))
    ensures Tiled(tiles[i..], StartAt(tiles, i, to), to)
  {
  }

  lemma TiledJoin(a: Tiles, b: Tiles, from: nat, middle: nat, to: nat)
    requires Tiled(a, from, middle) && Tiled(b, middle, to)
    requires a == [] || b == [] || a[|a| - 1].UsedTile? || b[0].UsedTile?
    ensures Tiled(a + b, from, to)
  {
  }

  /** Replacing a run of tiles by others that cover the same bytes. */
  lemma TiledReplace(tiles: Tiles, from: nat, to: nat, lo: nat, hi: nat, middle: Tiles)
    requires Tiled(tiles, from, to) && lo <= hi <= |tiles| && middle != []
    requires Tiled(middle, StartAt(tiles, lo, to), StartAt(tiles, hi, to))
    requires lo > 0 ==> tiles[lo - 1].UsedTile? || middle[0].UsedTile?
    requires hi < |tiles| ==> tiles[hi].UsedTile? || middle[|middle| - 1].UsedTile?
    ensures Tiled(tiles[..lo] + middle + tiles[hi..], from, to)
  {
    TiledSplit(tiles, from, to, lo);
    TiledSplit(tiles, from, to, hi);
    TiledJoin(tiles[..lo], middle, from, StartAt(tiles, lo, to), StartAt(tiles, hi, to));
    TiledJoin(tiles[..lo] + middle, tiles[hi..], from, StartAt(tiles, hi, to), to);
  }

  lemma Replaced(tiles: Tiles, lo: nat, hi: nat, middle: Tiles)
    requires lo <= hi <= |tiles|
    ensures var after := tiles[..lo] + middle + tiles[hi..];
      && FreeBytes(after) - FreeBytes(middle) == FreeBytes(tiles) - FreeBytes(tiles[lo..hi])
      && UsedBytes(after) - UsedBytes(middle) == UsedBytes(tiles) - UsedBytes(tiles[lo..hi])
      && FreeList(after) == FreeList(tiles[..lo]) + FreeList(middle) + FreeList(tiles[hi..])
      && FreeList(tiles) == FreeList(tiles[..lo]) + FreeList(tiles[lo..hi]) + FreeList(tiles[hi..])
  {
    hide FreeList, FreeBytes, UsedBytes;
    Concat(tiles[..lo], middle);
    Concat(tiles[..lo] + middle, tiles[hi..]);
    Concat(tiles[..lo], tiles[lo..hi]);
    Concat(tiles[..lo] + tiles[lo..hi], tiles[hi..]);
    assert tiles == tiles[..lo] + tiles[lo..hi] + tiles[hi..];
  }

  /** What is left of a tile once `n` bytes are taken, as part of the free list. */
  function LeftOver(t: Tile, n: nat): seq<(nat, nat)> {
    if n < t.size then [(t.start + n, t.size - n)] else []
  }

  lemma TakenTilesOk(t: Tile, n: nat, ptr: nat)
    requires TileOk(t) && n % GRAIN == 0 && MIN_BLOCK <= n && (n == t.size || n + MIN_BLOCK <= t.size)
    ensures Tiled(TakenTiles(t, n, ptr), t.start, t.End())
    ensures FreeBytes(TakenTiles(t, n, ptr)) == t.size - n && UsedBytes(TakenTiles(t, n, ptr)) == n
    ensures FreeList(TakenTiles(t, n, ptr)) == LeftOver(t, n)
  {
    TakenTiled(t, n, ptr);
    hide Tiled, TileOk;
    OneUsed(UsedTile(t.start, n, ptr));
    if n < t.size {
      OneFree(FreeTile(t.start + n, t.size - n));
      hide FreeList, FreeBytes, UsedBytes;
      Concat([UsedTile(t.start, n, ptr)], [FreeTile(t.start + n, t.size - n)]);
    }
  }

  lemma TakenTiled(t: Tile, n: nat, ptr: nat)
    requires TileOk(t) && n % GRAIN == 0 && MIN_BLOCK <= n && (n == t.size || n + MIN_BLOCK <= t.size)
    ensures Tiled(TakenTiles(t, n, ptr), t.start, t.End())
  {
    PartsOk(t, n, ptr);
    hide TileOk;
  }

  lemma PartsOk(t: Tile, n: nat, ptr: nat)
    requires TileOk(t) && n % GRAIN == 0 && MIN_BLOCK <= n <= t.size
    ensures TileOk(UsedTile(t.start, n, ptr)) && (n + MIN_BLOCK <= t.size ==> TileOk(FreeTile(t.start + n, t.size - n)))
  {
    Grains(t.start, t.size, n);
  }

  lemma SumOfGrains(a: nat, b: nat, c: nat)
    requires a % GRAIN == 0 && b % GRAIN == 0 && c % GRAIN == 0
    ensures (a + b + c) % GRAIN == 0
  {
    MoreGrains(a, b);
    MoreGrains(a + b, c);
  }

  lemma Grains(start: nat, size: nat, n: nat)
    requires start % GRAIN == 0 && size % GRAIN == 0 && n % GRAIN == 0 && n <= size
    ensures (start + n) % GRAIN == 0 && (size - n) % GRAIN == 0
  {
    MoreGrains(start, n);
    MoreGrains(size, n);
  }

  lemma MoreGrains(a: nat, b: nat)
    requires a % GRAIN == 0 && b % GRAIN == 0
    ensures (a + b) % GRAIN == 0 && (a - b) % GRAIN == 0
  {
    var (p, q) := (a / GRAIN, b / GRAIN);
    WholeGrains(p + q);
    WholeGrains(p - q);
  }

  lemma WholeGrains(m: int)
    ensures GRAIN * m % GRAIN == 0
  {
  }

  lemma OneUsed(t: Tile)
    requires t.UsedTile?
    ensures FreeBytes([t]) == 0 && UsedBytes([t]) == t.size && FreeList([t]) == []
  {
  }

  lemma TakenEnds(t: Tile, n: nat, ptr: nat)
    requires n <= t.size
    ensures TakenTiles(t, n, ptr) != [] && TakenTiles(t, n, ptr)[0].UsedTile?
    ensures n < t.size ==> TakenTiles(t, n, ptr)[|TakenTiles(t, n, ptr)| - 1].FreeTile?
    ensures n == t.size ==> TakenTiles(t, n, ptr)[|TakenTiles(t, n, ptr)| - 1].UsedTile?
  {
  }

  lemma OneFree(t: Tile)
    requires t.FreeTile?
    ensures FreeBytes([t]) == t.size && UsedBytes([t]) == 0 && FreeList([t]) == [(t.start, t.size)]
  {
  }

  lemma TakeTiled(tiles: Tiles, from: nat, to: nat, i: nat, n: nat, ptr: nat)
    requires Tiled(tiles, from, to) && i < |tiles| && tiles[i].FreeTile?
    requires n % GRAIN == 0 && MIN_BLOCK <= n && (n == tiles[i].size || n + MIN_BLOCK <= tiles[i].size)
    ensures Tiled(Take(tiles, i, n, ptr), from, to)
  {
    hide Tiled, TileOk, TakenTiles;
    TakenEnds(tiles[i], n, ptr);
    TileFacts(tiles, from, to, i);
    TakenTilesOk(tiles[i], n, ptr);
    TiledReplace(tiles, from, to, i, i + 1, TakenTiles(tiles[i], n, ptr));
  }

  lemma TakeIs(tiles: Tiles, i: nat, n: nat, ptr: nat)
    requires i < |tiles| && n <= tiles[i].size
    ensures Take(tiles, i, n, ptr) == tiles[..i] + TakenTiles(tiles[i], n, ptr) + tiles[i + 1..]
  {
  }

  lemma TakeBytes(tiles: Tiles, i: nat, n: nat, ptr: nat)
    requires i < |tiles| && tiles[i].FreeTile? && TileOk(tiles[i])
    requires n % GRAIN == 0 && MIN_BLOCK <= n && (n == tiles[i].size || n + MIN_BLOCK <= tiles[i].size)
    ensures FreeBytes(Take(tiles, i, n, ptr)) == FreeBytes(tiles) - n
    ensures UsedBytes(Take(tiles, i, n, ptr)) == UsedBytes(tiles) + n
    ensures FreeList(tiles) == FreeList(tiles[..i]) + [(tiles[i].start, tiles[i].size)] + FreeList(tiles[i + 1..])
    ensures FreeList(Take(tiles, i, n, ptr)) == FreeList(tiles[..i]) + LeftOver(tiles[i], n) + FreeList(tiles[i + 1..])
  {
    hide LeftOver, FreeList, FreeBytes, UsedBytes, Tiled, TileOk, TakenTiles, Take;
    TakenTilesOk(tiles[i], n, ptr);
    OneFree(tiles[i]);
    TakeIs(tiles, i, n, ptr);
    ReplacedOne(tiles, i, TakenTiles(tiles[i], n, ptr), Take(tiles, i, n, ptr));
  }

  lemma ReplacedOne(tiles: Tiles, i: nat, middle: Tiles, after: Tiles)
    requires i < |tiles| && after == tiles[..i] + middle + tiles[i + 1..]
    ensures FreeBytes(after) - FreeBytes(middle) == FreeBytes(tiles) - FreeBytes([tiles[i]])
    ensures UsedBytes(after) - UsedBytes(middle) == UsedBytes(tiles) - UsedBytes([tiles[i]])
    ensures FreeList(after) == FreeList(tiles[..i]) + FreeList(middle) + FreeList(tiles[i + 1..])
    ensures FreeList(tiles) == FreeList(tiles[..i]) + FreeList([tiles[i]]) + FreeList(tiles[i + 1..])
  {
    hide *;
    assert tiles[i..i + 1] == [tiles[i]];
    Replaced(tiles, i, i + 1, middle);
  }

  lemma TileFacts(tiles: Tiles, from: nat, to: nat, i: nat)
    requires Tiled(tiles, from, to) && i < |tiles|
    ensures TileOk(tiles[i]) && tiles[i].start == StartAt(tiles, i, to) && tiles[i].End() == StartAt(tiles, i + 1, to)
    ensures i > 0 && tiles[i].FreeTile? ==> tiles[i - 1].UsedTile?
    ensures i + 1 < |tiles| && tiles[i].FreeTile? ==> tiles[i + 1].UsedTile?
  {
  }

  /** No tile reaches past the end of the heap. */
  lemma {:induction false} EndsWithin(tiles: Tiles, from: nat, to: nat, i: nat)
    requires Tiled(tiles, from, to) && i < |tiles|
    ensures tiles[i].End() <= to
    decreases |tiles| - i
  {
    if i + 1 < |tiles| {
      EndsWithin(tiles, from, to, i + 1);
    }
  }

  lemma NotEmpty(tiles: Tiles, from: nat, to: nat)
    requires Tiled(tiles, from, to) && tiles != []
    ensures from < to
  {
    EndsWithin(tiles, from, to, 0);
  }

  lemma OneTiled(t: Tile)
    requires TileOk(t)
    ensures Tiled([t], t.start, t.End())
  {
  }

  lemma JoinedOk(tiles: Tiles, from: nat, to: nat, i: nat)
    requires Tiled(tiles, from, to) && i < |tiles| && tiles[i].UsedTile?
    ensures TileOk(Joined(tiles, i))
    ensures Joined(tiles, i).start == StartAt(tiles, if FreeBefore(tiles, i) then i - 1 else i, to)
    ensures Joined(tiles, i).End() == StartAt(tiles, if FreeAfter(tiles, i) then i + 2 else i + 1, to)
  {
    hide Tiled, StartAt;
    TileFacts(tiles, from, to, i);
    var (a, b) := (if FreeBefore(tiles, i) then tiles[i - 1].size else 0,
                   if FreeAfter(tiles, i) then tiles[i + 1].size else 0);
    if FreeBefore(tiles, i) {
      TileFacts(tiles, from, to, i - 1);
    }
    if FreeAfter(tiles, i) {
      TileFacts(tiles, from, to, i + 1);
    }
    SumOfGrains(a, tiles[i].size, b);
  }

  lemma JoinedTiled(tiles: Tiles, from: nat, to: nat, i: nat)
    requires Tiled(tiles, from, to) && i < |tiles| && tiles[i].UsedTile?
    ensures Tiled(GiveBack(tiles, i), from, to)
  {
    hide Tiled, StartAt, TileOk, Joined;
    var lo := if FreeBefore(tiles, i) then i - 1 else i;
    var hi := if FreeAfter(tiles, i) then i + 2 else i + 1;
    TileFacts(tiles, from, to, i);
    if lo < i {
      TileFacts(tiles, from, to, i - 1);
    }
    if hi > i + 1 {
      TileFacts(tiles, from, to, i + 1);
    }
    JoinedOk(tiles, from, to, i);
    OneTiled(Joined(tiles, i));
    TiledReplace(tiles, from, to, lo, hi, [Joined(tiles, i)]);
  }

  lemma GiveBackTiled(tiles: Tiles, from: nat, to: nat, i: nat)
    requires Tiled(tiles, from, to) && i < |tiles| && tiles[i].UsedTile?
    ensures Tiled(GiveBack(tiles, i), from, to)
    ensures FreeBytes(GiveBack(tiles, i)) == FreeBytes(tiles) + tiles[i].size
    ensures UsedBytes(GiveBack(tiles, i)) == UsedBytes(tiles) - tiles[i].size
  {
    hide Tiled, FreeList, FreeBytes, UsedBytes, Joined;
    JoinedTiled(tiles, from, to, i);
    var lo := if FreeBefore(tiles, i) then i - 1 else i;
    var hi := if FreeAfter(tiles, i) then i + 2 else i + 1;
    Replaced(tiles, lo, hi, [Joined(tiles, i)]);
    RunBytes(tiles, i, lo, hi);
    JoinedIsFree(tiles, i);
    OneFree(Joined(tiles, i));
  }

  lemma JoinedIsFree(tiles: Tiles, i: nat)
    requires i < |tiles|
    ensures Joined(tiles, i).FreeTile?
  {
  }

  lemma RunBytes(tiles: Tiles, i: nat, lo: nat, hi: nat)
    requires i < |tiles| && tiles[i].UsedTile?
    requires lo == if FreeBefore(tiles, i) then i - 1 else i
    requires hi == if FreeAfter(tiles, i) then i + 2 else i + 1
    ensures FreeBytes(tiles[lo..hi]) + tiles[i].size == Joined(tiles, i).size
    ensures UsedBytes(tiles[lo..hi]) == tiles[i].size
    ensures FreeList(tiles[lo..hi]) == (if FreeBefore(tiles, i) then [(tiles[i - 1].start, tiles[i - 1].size)] else [])
      + (if FreeAfter(tiles, i) then [(tiles[i + 1].start, tiles[i + 1].size)] else [])
  {
    hide FreeList, FreeBytes, UsedBytes;
    var (before, one, after) := (tiles[lo..i], [tiles[i]], tiles[i + 1..hi]);
    RunIs(tiles, i, lo, hi, before, after);
    OneUsed(tiles[i]);
    NoTiles();
    if FreeBefore(tiles, i) {
      OneFree(tiles[i - 1]);
      assert before == [tiles[i - 1]];
    }
    if FreeAfter(tiles, i) {
      OneFree(tiles[i + 1]);
      assert after == [tiles[i + 1]];
    }
    Concat(before, one);
    Concat(before + one, after);
  }

  lemma RunIs(tiles: Tiles, i: nat, lo: nat, hi: nat, before: Tiles, after: Tiles)
    requires lo <= i < hi <= |tiles| && before == tiles[lo..i] && after == tiles[i + 1..hi]
    ensures tiles[lo..hi] == before + [tiles[i]] + after
  {
  }

  lemma NoTiles()
    ensures FreeList([]) == [] && FreeBytes([]) == 0 && UsedBytes([]) == 0
  {
  }

  // ---------------------------------------------------------------------------
  // The free list of a row of tiles

  function EndOf(b: (nat, nat)): nat {
    b.0 + b.1
  }

  predicate BlockOk(b: (nat, nat)) {
    b.0 > 0 && b.0 % GRAIN == 0 && b.1 % GRAIN == 0 && b.1 >= MIN_BLOCK
  }

  /** Address order, with something in use between any two blocks. */
  ghost predicate Sorted(list: seq<(nat, nat)>) {
    && (forall j :: 0 <= j < |list| ==> BlockOk(list[j]))
    && (forall j, k :: 0 <= j < k < |list| ==> EndOf(list[j]) < list[k].0)
  }

  ghost predicate Within(list: seq<(nat, nat)>, from: nat, to: nat) {
    forall j :: 0 <= j < |list| ==> from <= list[j].0 && EndOf(list[j]) <= to
  }

  /** The free list is sorted, lies within the heap, and touches its ends only with the end tiles. */
  lemma {:induction false} FreeListSorted(tiles: Tiles, from: nat, to: nat)
    requires Tiled(tiles, from, to)
    ensures Sorted(FreeList(tiles)) && Within(FreeList(tiles), from, to)
    ensures tiles != [] && tiles[0].UsedTile? ==> forall j :: 0 <= j < |FreeList(tiles)| ==> from < FreeList(tiles)[j].0
  {
    hide Tiled, Sorted, Within, TileOk;
    if tiles == [] {
      SortedEmpty(from, to);
    } else {
      TiledSplit(tiles, from, to, 1);
      TileFacts(tiles, from, to, 0);
      FirstStart(tiles, from, to);
      var rest := tiles[1..];
      FreeListSorted(rest, tiles[0].End(), to);
      WithinTo(rest, tiles[0], from, to);
      if tiles[0].FreeTile? {
        SortedCons((tiles[0].start, tiles[0].size), FreeList(rest), from, to);
      } else {
        assert FreeList(tiles) == FreeList(rest);
      }
    }
  }

  lemma FirstStart(tiles: Tiles, from: nat, to: nat)
    requires Tiled(tiles, from, to) && tiles != []
    ensures tiles[0].start == from && tiles[0].End() <= to
    ensures tiles[0].size > 0 && BlockOk((tiles[0].start, tiles[0].size))
  {
    if |tiles| > 1 {
      Ordered(tiles, from, to, 0, |tiles| - 1);
    }
  }

  lemma SortedEmpty(from: nat, to: nat)
    ensures Sorted([]) && Within([], from, to)
  {
  }

  lemma WithinTo(tiles: Tiles, t: Tile, from: nat, to: nat)
    requires Within(FreeList(tiles), t.End(), to) && from <= t.start && t.size > 0
    ensures Within(FreeList(tiles), from, to)
    ensures forall j :: 0 <= j < |FreeList(tiles)| ==> from < FreeList(tiles)[j].0
    ensures tiles != [] && tiles[0].FreeTile? ==> FreeList(tiles) != [] && FreeList(tiles)[0].0 == tiles[0].start
    ensures tiles == [] ==> FreeList(tiles) == []
  {
  }

  lemma SortedCons(b: (nat, nat), rest: seq<(nat, nat)>, from: nat, to: nat)
    requires BlockOk(b) && Sorted(rest) && Within(rest, from, to)
    requires from <= b.0 && EndOf(b) <= to
    requires forall j :: 0 <= j < |rest| ==> EndOf(b) < rest[j].0
    ensures Sorted([b] + rest) && Within([b] + rest, from, to)
  {
  }

  lemma {:induction false} FreeListLast(tiles: Tiles, from: nat, to: nat)
    requires Tiled(tiles, from, to) && tiles != []
    ensures tiles[|tiles| - 1].UsedTile? ==>
      forall j :: 0 <= j < |FreeList(tiles)| ==> EndOf(FreeList(tiles)[j]) < to
  {
    var n := |tiles| - 1;
    if tiles[n].UsedTile? {
      TiledSplit(tiles, from, to, n);
      FreeListSorted(tiles[..n], from, tiles[n].start);
      Around(tiles, n);
      assert tiles[n + 1..] == [];
    }
  }

  /** The free blocks on either side of tile `i`, and which of them touch it. */
  lemma FreeSides(tiles: Tiles, from: nat, to: nat, i: nat)
    requires Tiled(tiles, from, to) && i < |tiles| && tiles[i].UsedTile?
    ensures var (before, after) := (FreeList(tiles[..i]), FreeList(tiles[i + 1..]));
      && FreeList(tiles) == before + after
      && Sorted(before) && Sorted(after)
      && Within(before, from, tiles[i].start) && Within(after, tiles[i].End(), to)
      && (FreeBefore(tiles, i) ==> before != [] && before[|before| - 1] == (tiles[i - 1].start, tiles[i - 1].size))
      && (!FreeBefore(tiles, i) ==> forall j :: 0 <= j < |before| ==> EndOf(before[j]) < tiles[i].start)
      && (FreeAfter(tiles, i) ==> after != [] && after[0] == (tiles[i + 1].start, tiles[i + 1].size))
      && (!FreeAfter(tiles, i) ==> forall j :: 0 <= j < |after| ==> tiles[i].End() < after[j].0)
  {
    hide Tiled, Sorted, Within, FreeList, TileOk;
    UsedSplit(tiles, i);
    SideBefore(tiles, from, to, i);
    SideAfter(tiles, from, to, i);
  }

  lemma SideBefore(tiles: Tiles, from: nat, to: nat, i: nat)
    requires Tiled(tiles, from, to) && i < |tiles| && tiles[i].UsedTile?
    ensures var before := FreeList(tiles[..i]);
      && Sorted(before) && Within(before, from, tiles[i].start)
      && (FreeBefore(tiles, i) ==> before != [] && before[|before| - 1] == (tiles[i - 1].start, tiles[i - 1].size))
      && (!FreeBefore(tiles, i) ==> forall j :: 0 <= j < |before| ==> EndOf(before[j]) < tiles[i].start)
  {
    hide Tiled, Sorted, Within, FreeList, TileOk;
    TiledSplit(tiles, from, to, i);
    TileFacts(tiles, from, to, i);
    FreeListSorted(tiles[..i], from, tiles[i].start);
    if i > 0 {
      FreeListLast(tiles[..i], from, tiles[i].start);
      if FreeBefore(tiles, i) {
        LastOf(tiles[..i]);
      }
    } else {
      EmptyList(tiles[..i]);
    }
  }

  lemma SideAfter(tiles: Tiles, from: nat, to: nat, i: nat)
    requires Tiled(tiles, from, to) && i < |tiles| && tiles[i].UsedTile?
    ensures var after := FreeList(tiles[i + 1..]);
      && Sorted(after) && Within(after, tiles[i].End(), to)
      && (FreeAfter(tiles, i) ==> after != [] && after[0] == (tiles[i + 1].start, tiles[i + 1].size))
      && (!FreeAfter(tiles, i) ==> forall j :: 0 <= j < |after| ==> tiles[i].End() < after[j].0)
  {
    hide Tiled, Sorted, Within, FreeList, TileOk;
    TiledSplit(tiles, from, to, i + 1);
    TileFacts(tiles, from, to, i);
    FreeListSorted(tiles[i + 1..], tiles[i].End(), to);
    if i + 1 < |tiles| {
      FirstOf(tiles[i + 1..]);
    } else {
      EmptyList(tiles[i + 1..]);
    }
  }

  lemma UsedSplit(tiles: Tiles, i: nat)
    requires i < |tiles| && tiles[i].UsedTile?
    ensures FreeList(tiles) == FreeList(tiles[..i]) + FreeList(tiles[i + 1..])
  {
    Around(tiles, i);
  }

  lemma EmptyList(tiles: Tiles)
    ensures tiles == [] ==> FreeList(tiles) == []
  {
  }

  lemma FirstOf(tiles: Tiles)
    requires tiles != []
    ensures tiles[0].FreeTile? ==> FreeList(tiles) == [(tiles[0].start, tiles[0].size)] + FreeList(tiles[1..])
  {
  }

  /** The free list after tile `i` is given back. */
  lemma FreeListGiveBack(tiles: Tiles, from: nat, to: nat, i: nat)
    requires Tiled(tiles, from, to) && i < |tiles| && tiles[i].UsedTile?
    ensures var (before, after) := (FreeList(tiles[..i]), FreeList(tiles[i + 1..]));
      var joined := (Joined(tiles, i).start, Joined(tiles, i).size);
      && (FreeBefore(tiles, i) ==> before != []) && (FreeAfter(tiles, i) ==> after != [])
      && FreeList(GiveBack(tiles, i)) ==
           (if FreeBefore(tiles, i) then before[..|before| - 1] else before) + [joined]
           + (if FreeAfter(tiles, i) then after[1..] else after)
  {
    hide Tiled, FreeList, FreeBytes, UsedBytes;
    var lo := if FreeBefore(tiles, i) then i - 1 else i;
    var hi := if FreeAfter(tiles, i) then i + 2 else i + 1;
    Replaced(tiles, lo, hi, [Joined(tiles, i)]);
    OneFree(Joined(tiles, i));
    if lo < i {
      LastOf(tiles[..i]);
      assert tiles[..i][..i - 1] == tiles[..lo];
    }
    if hi > i + 1 {
      FirstOf(tiles[i + 1..]);
      assert tiles[i + 1..][1..] == tiles[hi..];
    }
  }

  lemma LastOf(tiles: Tiles)
    requires tiles != [] && tiles[|tiles| - 1].FreeTile?
    ensures FreeList(tiles) == FreeList(tiles[..|tiles| - 1]) + [(tiles[|tiles| - 1].start, tiles[|tiles| - 1].size)]
  {
    Around(tiles, |tiles| - 1);
    assert tiles[|tiles|..] == [];
    OneFree(tiles[|tiles| - 1]);
  }

  /** Which tile the `k`-th free block is. */
  lemma {:induction false} TileOfBlock(tiles: Tiles, k: nat) returns (i: nat)
    requires k < |FreeList(tiles)|
    ensures i < |tiles| && tiles[i].FreeTile? && FreeList(tiles)[k] == (tiles[i].start, tiles[i].size)
    ensures FreeList(tiles[..i]) == FreeList(tiles)[..k] && FreeList(tiles[i + 1..]) == FreeList(tiles)[k + 1..]
  {
    hide FreeList;
    Unfold(tiles);
    var (rest, first) := (tiles[1..], FreePart(tiles[0]));
    if tiles[0].FreeTile? && k == 0 {
      i := 0;
      EmptyList(tiles[..0]);
    } else {
      var m := k - |first|;
      var j := TileOfBlock(rest, m);
      i := j + 1;
      ShiftedParts(tiles, j);
      Unfold(tiles[..i]);
      SplitConcat(first, FreeList(rest), m);
    }
  }

  lemma Unfold(tiles: Tiles)
    ensures tiles == [] ==> FreeList(tiles) == []
    ensures tiles != [] ==> FreeList(tiles) == FreePart(tiles[0]) + FreeList(tiles[1..])
  {
  }

  lemma ShiftedParts(tiles: Tiles, j: nat)
    requires j + 1 < |tiles|
    ensures tiles[..j + 1][1..] == tiles[1..][..j] && tiles[j + 2..] == tiles[1..][j + 1..]
  {
  }

  lemma SplitConcat(first: seq<(nat, nat)>, all: seq<(nat, nat)>, m: nat)
    requires m < |all|
    ensures (first + all)[|first| + m] == all[m]
    ensures (first + all)[..|first| + m] == first + all[..m] && (first + all)[|first| + m + 1..] == all[m + 1..]
  {
  }
}
