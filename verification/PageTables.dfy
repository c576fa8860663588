/**
 The virtual memory mapper: it writes table entries in place, and refines a map from pages to frames.
 */
module PageTables {
  import opened Options
  import opened PhysicalPages
  import opened PageWalk
  import opened PageAccess
  import opened PageRanges

  class VirtualMemoryMapper {
    const root: nat
    const frames: PageAllocator
    var isUser: bool
    var tables: Tables
    ghost var place: Places

    ghost predicate Valid()
      reads this, frames
    {
      && TreeOk(tables, place, root)
      && frames.Valid() && frames.end <= KERNEL_MAPPED_SIZE
      && (forall p :: p in frames.pages ==> p !in tables)
    }

    /** An address space that maps nothing; its root table is a frame of its own. */
    constructor (frames: PageAllocator, isUser: bool)
      requires frames.Valid() && frames.end <= KERNEL_MAPPED_SIZE && frames.pages != []
      modifies frames
      ensures Valid() && this.frames == frames && this.isUser == isUser
      ensures old(frames.pages) == [root] + frames.pages
      ensures forall n :: Frame(n) == None
    {
      var page := frames.Alloc();
      root, this.frames, this.isUser := page, frames, isUser;
      tables, place := map[page := NoEntries()], map[page := []];
    }

    /** The frame behind a page. */
    ghost function Frame(n: nat): Option<nat>
      reads this
    {
      FrameAt(tables, root, n)
    }

    /** Hangs a new, empty table below the absent entry `i` of table `f`. */
    method AddTable(f: nat, i: nat) returns (ok: bool)
      requires Valid() && f in tables && |place[f]| < 3 && i < |tables[f]| && !tables[f][i].Present()
      modifies this`tables, this`place, frames
      ensures Valid() && Extended(old(tables), tables, root)
      ensures ok <==> old(frames.pages) != []
      ensures !ok ==> tables == old(tables) && place == old(place) && frames.pages == old(frames.pages)
      ensures ok ==> f in place && place[f] == old(place[f])
      ensures ok ==> f in tables && |tables[f]| == ENTRIES && tables[f][i].Present()
      ensures ok ==> place.Values == old(place.Values) + {old(place[f]) + [i]}
      ensures ok ==> |frames.pages| + |place.Values| == old(|frames.pages| + |place.Values|)
      ensures ok ==> frames.pages == old(frames.pages)[1..]
      ensures TakenFrom(tables, old(tables), old(frames.pages))
    {
      hide TreeOk, Extended, Resolve, LeafOf, Access, PageAllocator.Valid, PageAllocator.InRange, Masked, Hung,
           NoEntries, Differs;

      TreeShape(tables, place, root, f);
      PlaceTaken(tables, place, root, f, i);
      var page := frames.Alloc();
      ok := page != 0;
      if ok {
        MaskedPage(page);
        HungKeepsAll(tables, place, root, f, i, page);
        NewPlace(place, page, place[f] + [i]);
        tables := Hung(tables, f, i, Masked(page));
        place := place[page := place[f] + [i]];
      } else {
        ExtendedItself(tables, root);
      }
    }

    /** Follows entry `i` of table `f`, hanging a new table below it if there is none; adds flags. */
    method EnsureChild(f: nat, i: nat, flags: set<nat>) returns (ok: bool, child: nat)
      requires Valid() && f in tables && |place[f]| < 3 && i < ENTRIES
      requires Grants(tables, root, place[f], flags + {PTE_PRESENT})
      modifies this`tables, this`place, frames
      ensures Valid() && Extended(old(tables), tables, root)
      ensures ok ==> Grants(tables, root, old(place[f]) + [i], flags + {PTE_PRESENT})
      ensures ok <==> old(place[f] + [i] in place.Values || frames.pages != [])
      ensures ok ==> child in tables && place[child] == old(place[f]) + [i]
      ensures ok ==> place.Values == old(place.Values) + {old(place[f]) + [i]}
      ensures ok ==> |frames.pages| + |place.Values| == old(|frames.pages| + |place.Values|)
      ensures IsSuffix(frames.pages, old(frames.pages))
      ensures TakenFrom(tables, old(tables), old(frames.pages))
    {
      hide TreeOk, Extended, Resolve, LeafOf, Access, PageAllocator.Valid, Written;
      TreeShape(tables, place, root, f);
      PlaceTaken(tables, place, root, f, i);
      ExtendedItself(tables, root);
      ok, child := true, 0;
      if !tables[f][i].Present() {
        ok := AddTable(f, i);
        if !ok {
          return;
        }
      }
      var e := tables[f][i];
      ChildIsThere(tables, place, root, f, i);
      FlagsAddAll(tables, place, root, f, i, flags);
      ExtendedTwice(old(tables), tables, Written(tables, f, i, e.(flags := e.flags + flags)), root);
      tables := Written(tables, f, i, e.(flags := e.flags + flags));
      ExtendedGrants(old(tables), tables, root, place[f], flags + {PTE_PRESENT});
      GrantsNext(tables, place, root, f, i, flags + {PTE_PRESENT});
      child := e.addr;
      assert place.Values == old(place.Values) + {old(place[f]) + [i]};
    }

    /** Makes the tables above the page's entry, from the root down. */
    method EnsureTables(v: nat, flags: set<nat>) returns (ok: bool, table: nat)
      requires Valid()
      modifies this`tables, this`place, frames
      ensures Valid() && Extended(old(tables), tables, root)
      ensures ok <==> old(|frames.pages|) >= |Above(PathOf(PageOf(v))) - old(place.Values)|
      ensures ok ==> table in tables && place[table] == PathOf(PageOf(v))[..3]
      ensures ok ==> Grants(tables, root, PathOf(PageOf(v))[..3], flags + {PTE_PRESENT})
      ensures ok ==> place.Values == old(place.Values) + Above(PathOf(PageOf(v)))
      ensures ok ==> |frames.pages| + |place.Values| == old(|frames.pages| + |place.Values|)
      ensures IsSuffix(frames.pages, old(frames.pages))
      ensures TakenFrom(tables, old(tables), old(frames.pages))
    {
      hide *;
      IndexesArePath(v);
      ghost var (path, P, pages) := (PathOf(PageOf(v)), place.Values, frames.pages);
      ExtendedItself(tables, root);
      AboveStep(path, P);
      ValidShape();
      GrantsNothing(tables, root, flags + {PTE_PRESENT});
      assert [] + [path[0]] == path[..1] && path[..1] + [path[1]] == path[..2] && path[..2] + [path[2]] == path[..3];
      ok, table := EnsureChild(root, GetL4(v), flags);
      if !ok {
        Shortage(P, {}, path[..1], Above(path));
        return;
      }
      ghost var (tables1, pages1) := (tables, frames.pages);
      ok, table := EnsureChild(table, GetL3(v), flags);
      ExtendedTwice(old(tables), tables1, tables, root);
      Chained(tables, tables1, old(tables), frames.pages, pages1, pages);
      if !ok {
        Shortage(P, {path[..1]}, path[..2], Above(path));
        return;
      }
      ghost var (tables2, pages2) := (tables, frames.pages);
      ok, table := EnsureChild(table, GetL2(v), flags);
      ExtendedTwice(old(tables), tables2, tables, root);
      Chained(tables, tables2, old(tables), frames.pages, pages2, pages);
      if !ok {
        Shortage(P, {path[..1], path[..2]}, path[..3], Above(path));
      }
    }

    /** The frame for a page: the one asked for, or one from the free list. */
    method TakeFrame(physical: Option<nat>) returns (ok: bool, target: nat)
      requires Valid()
      modifies frames
      ensures Valid()
      ensures ok <==> old(|frames.pages|) >= Own(physical, 1)
      ensures ok && physical.Some? ==> target == physical.value && frames.pages == old(frames.pages)
      ensures ok && physical.None? ==>
        && old(frames.pages) == [target] + frames.pages && Masked(target) == target
        && target !in frames.pages && target !in tables && frames.InRange(target)
    {
      hide TreeOk, PageAllocator.Valid;
      match physical {
        case Some(p) =>
          ok, target := true, p;
        case None =>
          target := frames.Alloc();
          ok := target != 0;
          if ok {
            MaskedPage(target);
          }
      }
    }

    /** Writes the page's entry in its last-level table. */
    method SetLeaf(table: nat, i: nat, e: Entry)
      requires Valid() && table in tables && |place[table]| == 3 && i < ENTRIES
      modifies this`tables
      ensures Valid() && tables.Keys == old(tables.Keys)
      ensures Retargeted(old(tables), tables, root, place[table] + [i], if e.Present() then Some(e) else None)
      ensures AccessSameBut(old(tables), tables, root, place[table] + [i])
      ensures e.Present() && Grants(old(tables), root, place[table], e.flags) ==>
        Grants(tables, root, place[table] + [i], e.flags)
      ensures !e.Present() ==> Access(tables, root, place[table] + [i]) == None
    {
      hide TreeOk, Retargeted, AccessSameBut, Access, Grants, PageAllocator.Valid, Written;
      TreeShape(tables, place, root, table);
      LeafKeepsTree(tables, place, root, table, i, e);
      LeafRetargets(tables, place, root, table, i, e);
      LeafKeepsAccess(tables, place, root, table, i, e);
      tables := Written(tables, table, i, e);
    }

    ghost function Now(): (m: Memory)
      reads this, frames
      ensures m.tables == tables && m.pages == frames.pages && m.places == place.Values
    {
      Memory(tables, frames.pages, place.Values)
    }

    /** Puts one page behind a given frame, or behind a frame of its own. */
    method MapOne(v: nat, physical: Option<nat>, flags: set<nat>) returns (ok: bool, ghost frame: nat)
      requires Valid()
      modifies this`tables, this`place, frames
      ensures Valid()
      ensures ok <==> old(|frames.pages|) >= Own(physical, 1) + |Above(PathOf(PageOf(v))) - old(place.Values)|
      ensures ok ==> OneMapped(old(Now()), Now(), root, PathOf(PageOf(v)), physical, frame,
                               flags + {PTE_PRESENT}, frames)
    {
      hide *;
      var target, table;
      ghost var (before, path) := (Now(), PathOf(PageOf(v)));
      FewerNeeded(|before.pages|, physical, |Above(path) - before.places|);
      ok, target := TakeFrame(physical);
      if !ok {
        return false, 0;
      }
      frame := Masked(target);
      ghost var taken := Now();
      ok, table := EnsureTables(v, flags);
      if ok {
        IndexesArePath(v);
        ValidTable(table);
        ghost var walked := Now();
        assert path[3] == GetL1(v) && path == place[table] + [path[3]];
        var e := Entry(Masked(target), flags + {PTE_PRESENT});
        assert e.Present() by { PresentFlag(e); }
        SetLeaf(table, GetL1(v), e);
        SameIsKept(walked.tables, tables, root, path);
        MappedBy(before, taken, walked, Now(), root, path, physical, target, e.flags, frames);
      }
    }

    /**
     Puts a whole range of pages behind consecutive given frames, or behind frames of their own.  It
     fails exactly when the free list is too short for the frames and the tables that are missing.
     */
    method Map(entry: MapEntry) returns (ok: bool, ghost given: seq<nat>)
      requires Valid() && entry.Ok() && (isUser ==> entry.OkForUser())
      modifies this`tables, this`place, frames
      ensures Valid()
      ensures ok <==> old(|frames.pages|) >= Need(entry.Physical(), entry.First(), entry.Count(), old(place.Values))
      ensures ok ==> AllMapped(old(Now()), Now(), root, entry.First(), entry.Count(), entry.Physical(), given,
                               entry.flags + {PTE_PRESENT}, frames)
      ensures ok ==> MapsRequest(tables, root, entry)
    {
      hide VirtualMemoryMapper.Valid, OneMapped, AllMapped, Need, AlignRange, PageOf, PathOf, Above, Nth, Shifted,
           NextPage, Own;
      hide MapEntry.Ok, MapEntry.OkForUser, MapEntry.First, MapEntry.Count, MapEntry.Physical;
      entry.Shape();
      var (v, size) := AlignRange(entry.address, entry.size);
      var physical := entry.Physical();
      ghost var (i, first, count, before) := (0, entry.First(), entry.Count(), Now());
      ghost var (start, flags) := (v, entry.flags + {PTE_PRESENT});
      MapStart(before, root, first, physical, flags, frames);
      ShiftedStart(physical);
      given, ok := [], true;
      while size > 0
        invariant 0 <= i < count && size == (count - i) * 0x1000 && v == start + i * 0x1000
        invariant physical == Shifted(entry.Physical(), i)
        invariant Valid() && AllMapped(before, Now(), root, first, i, entry.Physical(), given, flags, frames)
        decreases size
      {
        ghost var (now, frame) := (Now(), 0);
        PageAt(start, i);
        assert PageOf(v) == Nth(first, i);
        MapNeed(before, now, root, first, i, count, entry.Physical(), given, flags, frames);
        ok, frame := MapOne(v, physical, entry.flags);
        if !ok {
          assert |before.pages| < Need(entry.Physical(), first, count, before.places);
          return;
        }
        MapStep(before, now, Now(), root, first, i, entry.Physical(), given, frame, flags, frames);
        ShiftedNext(entry.Physical(), i);
        given, i := given + [frame], i + 1;
        size := size - PAGE_4K;
        if size == 0 {
          break;
        }
        v := v + PAGE_4K;
        physical := NextPage(physical);
      }
      MapNeed(before, Now(), root, first, i, count, entry.Physical(), given, flags, frames);
      MappedRequest(before, Now(), root, entry, given, frames);
      hide MapsRequest;
    }

    /** Follows entry `i` of table `f` if it is present, and removes flags from it. */
    method Descend(f: nat, i: nat, flags: set<nat>) returns (ok: bool, child: nat)
      requires Valid() && f in tables && |place[f]| < 3 && i < ENTRIES && PTE_PRESENT !in flags
      modifies this`tables
      ensures Valid() && tables.Keys == old(tables.Keys)
      ensures ok ==> child in tables && place[child] == place[f] + [i]
      ensures ok ==> Reduced(old(tables), tables, root, place[f] + [i], flags)
      ensures !ok ==> tables == old(tables) && NothingBelow(tables, root, place[f] + [i])
    {
      hide TreeOk, Reduced, NothingBelow, Resolve, PageAllocator.Valid, Written;
      TreeShape(tables, place, root, f);
      var e := tables[f][i];
      ok, child := e.Present(), 0;
      if !ok {
        AbsentEntry(tables, place, root, f, i);
        return;
      }
      ChildIsThere(tables, place, root, f, i);
      FlagsRemoveAll(tables, place, root, f, i, flags);
      tables := Written(tables, f, i, e.(flags := e.flags - flags));
      child := e.addr;
    }

    /** Follows the three upper levels of a page's walk. */
    method DescendTables(v: nat, flags: set<nat>) returns (ok: bool, table: nat)
      requires Valid() && PTE_PRESENT !in flags
      modifies this`tables
      ensures Valid() && tables.Keys == old(tables.Keys)
      ensures ok ==> table in tables && place[table] == PathOf(PageOf(v))[..3]
      ensures ok ==> Reduced(old(tables), tables, root, PathOf(PageOf(v))[..1], flags)
      ensures !ok ==> LeafOf(old(tables), root, PathOf(PageOf(v))) == None
    {
      hide *;
      IndexesArePath(v);
      ghost var path := PathOf(PageOf(v));
      assert [] + [path[0]] == path[..1] && path[..1] + [path[1]] == path[..2] && path[..2] + [path[2]] == path[..3];
      ValidShape();
      SameWalksItself(tables, root);
      ok, table := Descend(root, GetL4(v), flags);
      if !ok {
        FoundNothing(old(tables), tables, root, path, 1);
        return;
      }
      ReducedParts(old(tables), tables, root, path[..1], flags);
      ghost var tables1 := tables;
      ok, table := Descend(table, GetL3(v), flags);
      if !ok {
        FoundNothing(old(tables), tables, root, path, 2);
        return;
      }
      ReducedTwice(old(tables), tables1, tables, root, path[..1], path[..2], flags);
      ReducedParts(old(tables), tables, root, path[..1], flags);
      ghost var tables2 := tables;
      ok, table := Descend(table, GetL2(v), flags);
      if !ok {
        FoundNothing(old(tables), tables, root, path, 3);
        return;
      }
      ReducedTwice(old(tables), tables2, tables, root, path[..1], path[..3], flags);
    }

    /** Removes one page, and frees its frame if the mapper allocated it. */
    method UnmapOne(v: nat, flags: set<nat>, isAllocated: bool) returns (ok: bool, ghost frame: nat)
      requires Valid() && PTE_PRESENT !in flags
      requires isAllocated ==> CanFree(Frame(PageOf(v)), frames.pages, tables)
      modifies this`tables, frames
      ensures ok ==> Valid() && tables.Keys == old(tables.Keys)
      ensures ok <==> CanUnmap(old(Frame(PageOf(v))), isAllocated, frames)
      ensures ok ==> old(Frame(PageOf(v))) == Some(frame)
      ensures ok ==> Retargeted(old(tables), tables, root, PathOf(PageOf(v)), None)
      ensures ok ==> AccessTaken(old(tables), tables, root, PathOf(PageOf(v)), flags)
      ensures ok ==> frames.pages == (if isAllocated then [frame] else []) + old(frames.pages)
    {
      hide TreeOk, Reduced, Stripped, AccessSameBut, AccessTaken, Access, Retargeted, Resolve, LeafOf, PathOf, PageOf,
           PageAllocator.Valid, Written;
      var table;
      ghost var path := PathOf(PageOf(v));
      ok, table := DescendTables(v, flags);
      if !ok {
        return false, 0;
      }
      IndexesArePath(v);
      TreeShape(tables, place, root, table);
      assert path[3] == GetL1(v) && path == place[table] + [path[3]];
      var i := GetL1(v);
      ReducedParts(old(tables), tables, root, path[..1], flags);
      LeafFound(old(tables), tables, place, root, table, i);
      var e := tables[table][i];
      frame := e.addr;
      if !e.Present() {
        return false, 0;
      }
      if isAllocated {
        ok := frames.Free(e.addr);
        if !ok {
          return;
        }
      }
      ghost var walked := tables;
      SetLeaf(table, i, EMPTY);
      RetargetedLater(old(tables), walked, tables, root, path, None);
      TakenBy(old(tables), walked, tables, root, path, flags);
    }

    /**
     Removes a whole range of pages; the frames go back to the free list if the mapper allocated
     them.  It fails exactly when some page of the range is not mapped, or its frame cannot be freed.
     */
    method Unmap(entry: MapEntry, isAllocated: bool) returns (ok: bool, ghost freed: seq<nat>)
      requires Valid() && entry.Ok() && entry.physical.None? && PTE_PRESENT !in entry.flags
      requires isAllocated ==> OwnFrames(tables, root, frames.pages, entry.First(), entry.Count())
      modifies this`tables, frames
      ensures ok ==> Valid() && tables.Keys == old(tables.Keys)
      ensures ok <==> AllUnmappable(old(tables), root, entry.First(), entry.Count(), isAllocated, frames)
      ensures ok ==> RangeCleared(old(tables), tables, root, entry.First(), entry.Count(), freed)
      ensures ok ==> frames.pages == if isAllocated then FreedOnto(freed, old(frames.pages)) else old(frames.pages)
      ensures ok ==> RangeTaken(old(tables), tables, root, entry.First(), entry.Count(), entry.flags)
      ensures ok ==> NothingMapped(tables, root, entry.address, entry.size)
    {
      hide VirtualMemoryMapper.Valid, RangeCleared, AllUnmappable, OwnFrames, FreedOnto, AlignRange, PageOf, PathOf,
           Nth;
      hide MapEntry.Ok, MapEntry.First, MapEntry.Count, Retargeted, Resolve, AccessTaken, RangeTaken;
      entry.Shape();
      var (v, size) := AlignRange(entry.address, entry.size);
      ghost var (i, first, count) := (0, entry.First(), entry.Count());
      ghost var (start, pages) := (v, frames.pages);
      ClearStart(tables, root, first, pages);
      freed, ok := [], true;
      while size > 0
        invariant 0 <= i < count && size == (count - i) * 0x1000 && v == start + i * 0x1000
        invariant Valid() && tables.Keys == old(tables.Keys)
        invariant RangeCleared(old(tables), tables, root, first, i, freed)
        invariant frames.pages == if isAllocated then FreedOnto(freed, pages) else pages
        invariant AllUnmappable(old(tables), root, first, i, isAllocated, frames)
        invariant RangeTaken(old(tables), tables, root, first, i, entry.flags)
        decreases size
      {
        ghost var (tables1, frame) := (tables, 0);
        PageAt(start, i);
        assert PageOf(v) == Nth(first, i);
        StillMapped(old(tables), tables, root, first, i, freed);
        if isAllocated {
          StillOwn(old(tables), tables, root, first, i, count, freed, pages);
        }
        ok, frame := UnmapOne(v, entry.flags, isAllocated);
        UnmappableStep(old(tables), root, first, i, count, isAllocated, frames);
        if !ok {
          return;
        }
        ClearStep(old(tables), tables1, tables, root, first, i, freed, frame, pages);
        TakenStep(old(tables), tables1, tables, root, first, i, entry.flags);
        freed, i := freed + [frame], i + 1;
        size := size - PAGE_4K;
        if size == 0 {
          break;
        }
        v := v + PAGE_4K;
      }
      RequestCleared(old(tables), tables, root, entry, freed);
      hide NothingMapped;
    }

    /** Whether a page has a frame, or lies below an entry that was given the flag of a 2 MB page. */
    method IsAddressMapped(v: nat) returns (b: bool)
      requires Valid()
      ensures b <==> Frame(PageOf(v)).Some? || HugeAbove(tables, root, PathOf(PageOf(v)))
    {
      IndexesArePath(v);
      hide TreeOk, Resolve, HugeAbove, PathOf, PageOf, PageAllocator.Valid;
      ghost var path := PathOf(PageOf(v));
      assert [] + [path[0]] == path[..1] && path[..1] + [path[1]] == path[..2] && path[..2] + [path[2]] == path[..3];
      ValidShape();
      assert place[root] == path[..0];
      FollowEntry(tables, place, root, root, path);
      var l4 := tables[root][GetL4(v)];
      if !l4.Present() {
        return false;
      }
      var l3 := tables[l4.addr][GetL3(v)];
      FollowEntry(tables, place, root, l4.addr, path);
      if !l3.Present() {
        return false;
      }
      var l2 := tables[l3.addr][GetL2(v)];
      FollowEntry(tables, place, root, l3.addr, path);
      if !l2.Present() {
        return false;
      }
      if PTE_HUGE_PAGE in l2.flags {
        return true;
      }
      SameWalksItself(tables, root);
      LeafFound(tables, tables, place, root, l2.addr, path[3]);
      assert path == path[..3] + [path[3]];
      b := tables[l2.addr][GetL1(v)].Present();
    }

    lemma ValidTable(table: nat)
      requires Valid() && table in tables
      ensures table in place && |tables[table]| == ENTRIES
    {}

    lemma ValidShape()
      requires Valid()
      ensures root in tables && root in place && place[root] == []
    {}
  }
}
