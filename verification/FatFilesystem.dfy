/**
 The FAT driver: files are chains of clusters read and written through the cluster cache.
 */
module FatDriver {
  import opened Arithmetic
  import opened Options
  import opened FatTable
  import opened Disk
  import opened ClusterCache
  import opened FatChains
  import opened OpenFiles
  import opened FileTransfers

  /** The table as it is on a disk. */
  ghost function LoadedTable(g: Geometry, ty: FatType, disk: Sectors): (r: seq<FatEntry>)
    requires g.Valid() && g.Covers(disk)
    ensures |r| == EntryCount(ty, g.fatSectors * g.bytesPerSector)
  {
    EntriesOf(ty, ReadSectors(disk, g.bytesPerSector, g.fatStart, g.fatSectors))
  }

  class FatFilesystem {
    const g: Geometry
    const fat: Fat
    var disk: Sectors
    var cache: Cache
    /** The `file_size` cell of each file's directory entry. */
    var sizeCells: map<nat, nat>
    /** The files open on this volume. */
    var handles: Handles
    /** The chains of the files and directories on this volume, and those that nothing links to any more. */
    ghost var chains: Chains
    /** The first clusters of the latter. */
    ghost var lost: set<nat>
    /** The handles that may be parked off the chain of their file. */
    ghost var astray: set<nat>

    /** Mounts a volume: the table is read from the disk and nothing is cached. */
    constructor (g: Geometry, ty: FatType, disk: Sectors, sizeCells: map<nat, nat>, ghost chains: Chains,
                 ghost lost: set<nat>)
      requires g.Valid() && g.Covers(disk)
      requires g.clusterEnd <= EntryCount(ty, g.fatSectors * g.bytesPerSector) && g.clusterEnd <= BadMark(ty)
      requires NoneFreePast(LoadedTable(g, ty, disk), g.clusterEnd)
      requires ChainsOk(LoadedTable(g, ty, disk)[..g.clusterEnd], chains) && lost <= chains.Keys
      ensures this.g == g && this.disk == disk && this.sizeCells == sizeCells && fresh(fat) && fat.ty == ty
      ensures Valid() && cache == map[] && handles == map[] && astray == {} && !fat.dirty
      ensures this.chains == chains && this.lost == lost
      ensures fat.Entries() == LoadedTable(g, ty, disk)
    {
      BytesPerClusterPositive(g);
      this.g, this.disk, this.cache, this.sizeCells := g, disk, map[], sizeCells;
      this.handles, this.chains, this.lost, this.astray := map[], chains, lost, {};
      var table := ReadSectors(disk, g.bytesPerSector, g.fatStart, g.fatSectors);
      fat := new Fat(ty, g.bytesPerSector, g.fatSectors, table);
      new;
      hide ReadSectors, LoadedTable, ChainsOk, NoneFreePast, SectorDirty, Geometry.BytesPerCluster, Fat.Valid,
           Fat.Entries, FatFilesystem.Valid;
      TableMounted();
      NothingOpen();
    }

    /** A table just read is in step with the disk. */
    lemma TableMounted()
      requires g.Valid() && g.Covers(disk)
      requires fat.Valid() && fat.sectorSize == g.bytesPerSector && fat.sectors == g.fatSectors
      requires fat.buffer == ReadSectors(disk, g.bytesPerSector, g.fatStart, g.fatSectors)
      requires forall s: nat :: s < fat.sectors ==> !SectorDirty(fat.bitmap, s)
      ensures fat.Entries() == LoadedTable(g, fat.ty, disk) && fat.Tracks(FatOnDisk(g, disk))
    {
      hide ReadSectors, EntriesOf, SectorDirty, TableSector;
      forall s: nat | s < g.fatSectors
        ensures disk[g.fatStart + s] == TableSector(fat.buffer, g.bytesPerSector, g.fatSectors, s)
      {
        LoadedSector(disk, g.bytesPerSector, g.fatStart, g.fatSectors, s);
      }
    }

    lemma NothingOpen()
      requires VolumeOk() && cache == map[] && handles == map[] && astray == {}
      ensures Valid()
    {
      hide FatFilesystem.VolumeOk, Geometry.BytesPerCluster;
      forall c: nat | c != 0 ensures Parked(handles, c) == {} {
      }
    }

    /** The table's entries for the data clusters. */
    ghost function Table(): seq<FatEntry>
      requires g.clusterEnd <= |fat.Entries()|
      reads fat
    {
      fat.Entries()[..g.clusterEnd]
    }

    /**
     The layout and the table in step with the disk.  The table may be longer than the data
     region, and its surplus entries are never free.
     */
    ghost predicate LayoutOk()
      reads this`disk, fat
      ensures LayoutOk() ==> g.clusterEnd <= |fat.Entries()|
    {
      && g.Valid() && fat.Valid()
      && fat.sectorSize == g.bytesPerSector && fat.sectors == g.fatSectors
      && g.clusterEnd <= |fat.Entries()| && g.clusterEnd <= BadMark(fat.ty)
      && NoneFreePast(fat.Entries(), g.clusterEnd)
      && g.Covers(disk)
      && fat.Tracks(FatOnDisk(g, disk))
    }

    ghost predicate StoreOk()
      reads this`disk, this`cache, fat
      ensures StoreOk() ==> LayoutOk()
    {
      LayoutOk() && CacheOk(g, disk, cache)
    }

    ghost predicate VolumeOk()
      reads this`disk, this`cache, this`chains, this`lost, fat
      ensures VolumeOk() ==> StoreOk()
    {
      && StoreOk()
      && ChainsOk(Table(), chains) && lost <= chains.Keys
      && g.BytesPerCluster() > 0
    }

    /** The state between operations, but for where the handles are parked. */
    ghost predicate Usable()
      reads this`disk, this`cache, this`chains, this`lost, this`handles, fat
      ensures Usable() ==> VolumeOk()
    {
      && VolumeOk()
      && AllSized(chains, lost, g.BytesPerCluster(), handles)
      && CountsOk(cache, handles)
    }

    /** The state between operations, but for where one more handle is parked. */
    ghost predicate ValidBut(h: nat)
      reads this, fat
      ensures ValidBut(h) ==> Usable()
    {
      Usable() && astray <= handles.Keys && AllParked(chains, g.BytesPerCluster(), handles, astray + {h})
    }

    /** The state between operations: every handle that is not astray is on its file. */
    ghost predicate Valid()
      reads this, fat
      ensures Valid() ==> Usable()
      ensures forall h :: Valid() ==> ValidBut(h)
    {
      Usable() && astray <= handles.Keys && AllParked(chains, g.BytesPerCluster(), handles, astray)
    }

    lemma ParkedIsValid(h: nat)
      requires ValidBut(h) && h in handles && HandleParked(chains, g.BytesPerCluster(), handles[h])
      ensures Valid()
    {
      hide FatFilesystem.Usable, HandleParked;
    }

    lemma ValidIsBut(h: nat)
      requires Valid()
      ensures g.BytesPerCluster() > 0 && AllParked(chains, g.BytesPerCluster(), handles, astray + {h})
    {
      hide FatFilesystem.Usable, HandleParked;
    }

    /** The size that a handle knows is recorded in the file's directory entry. */
    ghost predicate Recorded(h: nat)
      requires h in handles
      reads this`handles, this`sizeCells
    {
      handles[h].inode.startCluster in sizeCells && sizeCells[handles[h].inode.startCluster] == handles[h].inode.size
    }

    /** It is recorded, or will be when the handle gives up its cluster. */
    ghost predicate SizeKept(h: nat)
      requires h in handles
      reads this`handles, this`sizeCells, this`cache
    {
      var c := handles[h].helper.currentCluster;
      Recorded(h) || (c != 0 && c in cache && cache[c].dirtyRange.Some?)
    }

    ghost function CurrentView(): View
      requires StoreOk()
      reads this`disk, this`cache, fat
    {
      ViewOf(g, disk, cache)
    }

    method LockCluster(cluster: nat)
      requires StoreOk() && g.IsCluster(cluster)
      modifies this`cache
      ensures StoreOk() && CurrentView() == old(CurrentView())
      ensures cluster in cache
      ensures forall d :: References(cache, d) == References(old(cache), d) + if d == cluster then 1 else 0
    {
      if cluster !in cache {
        var data := ReadSectors(disk, g.bytesPerSector, g.FirstSector(cluster), g.sectorsPerCluster);
        cache := cache[cluster := CacheEntry(cluster, 1, None, data)];
      } else {
        cache := cache[cluster := cache[cluster].(referenceCount := cache[cluster].referenceCount + 1)];
      }
    }

    /** Writes every dirty table sector; the disk's table is then the buffer and nothing is dirty. */
    method FlushFat()
      requires LayoutOk()
      modifies this`disk, fat`dirty, fat`bitmap
      ensures LayoutOk() && SameClusters(g, old(disk), disk, {})
      ensures !fat.dirty
      ensures forall s: nat :: s < fat.sectors ==> !SectorDirty(fat.bitmap, s)
      ensures forall s: nat :: s < fat.sectors ==>
        FatOnDisk(g, disk)[s] == TableSector(fat.buffer, fat.sectorSize, fat.sectors, s)
    {
      hide CacheOk, ViewOf, ClusterOnDisk;
      var dirtySectors := fat.DirtySectors();
      WriteTableSectors(dirtySectors);
      SameDataSectors(g, old(disk), disk);
      fat.ClearDirty();
    }

    method WriteTableSectors(sectors: seq<nat>)
      requires g.Valid() && g.Covers(disk)
      requires fat.sectorSize == g.bytesPerSector && fat.sectors == g.fatSectors
      requires |fat.buffer| == fat.sectors * fat.sectorSize
      requires forall k :: 0 <= k < |sectors| ==> sectors[k] < fat.sectors
      modifies this`disk
      ensures g.Covers(disk)
      ensures disk == OverlayTable(g, old(disk), fat.buffer, sectors)
    {
      ghost var table := fat.buffer;
      for k := 0 to |sectors|
        invariant disk == OverlayTable(g, old(disk), table, sectors[..k])
      {
        var sector := sectors[k];
        MulMonotone(sector + 1, fat.sectors, fat.sectorSize);
        OverlayStep(g, old(disk), table, sectors[..k], sector);
        assert sectors[..k + 1] == sectors[..k] + [sector];
        disk := disk[g.fatStart + sector := SectorOf(fat.buffer, fat.sectorSize, sector)];
      }
      assert sectors[..|sectors|] == sectors;
      OverlayCovers(g, old(disk), table, sectors);
    }

    /** Writes back the sectors of a cluster that its dirty range touches: disk and data then agree. */
    method FlushClusterDirtyRange(data: seq<Byte>, cluster: nat, range: (nat, nat))
      requires LayoutOk() && g.IsCluster(cluster)
      requires |data| == g.BytesPerCluster() && range.0 < range.1 <= |data|
      requires forall j :: 0 <= j < |data| && !InRange(Some(range), j) ==> data[j] == ClusterOnDisk(g, disk, cluster)[j]
      modifies this`disk
      ensures LayoutOk() && SameClusters(g, old(disk), disk, {cluster})
      ensures ClusterOnDisk(g, disk, cluster) == data
      ensures FatOnDisk(g, disk) == old(FatOnDisk(g, disk))
    {
      hide Fat.Valid, Fat.Tracks, ClusterOnDisk, Geometry.Covers, WriteSectors;
      FlushFrame(g, disk, cluster, data, range.0, range.1);
      FlushComplete(g, disk, cluster, data, range.0, range.1);
      RangeSectors(range.0, range.1, g.bytesPerSector, g.sectorsPerCluster);
      var from := SectorFrom(range.0, g.bytesPerSector);
      var to := SectorTo(range.1, g.bytesPerSector);
      disk := WriteSectors(disk, g.bytesPerSector, g.FirstSector(cluster) + from,
                           data[from * g.bytesPerSector..to * g.bytesPerSector], to - from);
    }

    /** The same, after the table and the file's recorded size. */
    method FlushClusterDirtyRangeFile(inode: FileNode, data: seq<Byte>, cluster: nat, range: (nat, nat))
      requires LayoutOk() && g.IsCluster(cluster)
      requires |data| == g.BytesPerCluster() && range.0 < range.1 <= |data|
      requires forall j :: 0 <= j < |data| && !InRange(Some(range), j) ==> data[j] == ClusterOnDisk(g, disk, cluster)[j]
      modifies this`disk, this`sizeCells, fat`dirty, fat`bitmap
      ensures LayoutOk() && SameClusters(g, old(disk), disk, {cluster})
      ensures ClusterOnDisk(g, disk, cluster) == data
      ensures sizeCells == old(sizeCells)[inode.startCluster := inode.size % U32]
    {
      FlushFat();
      sizeCells := sizeCells[inode.startCluster := inode.size % U32];
      FlushClusterDirtyRange(data, cluster, range);
    }

    /**
     Gives up one use of a cluster.  The last one writes its dirty range back, after which the
     disk alone holds the cluster's content.
     */
    method ReleaseCluster(inode: FileNode, cluster: nat)
      requires StoreOk()
      modifies this`disk, this`cache, this`sizeCells, fat`dirty, fat`bitmap
      ensures StoreOk() && CurrentView() == old(CurrentView())
      ensures forall d :: References(cache, d) ==
                References(old(cache), d) - if d == cluster && d in old(cache) then 1 else 0
      ensures cluster in old(cache) && cluster !in cache ==> ClusterOnDisk(g, disk, cluster) == old(cache[cluster].data)
      ensures sizeCells ==
        if cluster in old(cache) && old(cache[cluster].referenceCount) == 1 && old(cache[cluster].dirtyRange.Some?)
        then old(sizeCells)[inode.startCluster := inode.size % U32] else old(sizeCells)
    {
      hide Geometry.Covers, Fat.Valid, Fat.Tracks, ClusterOnDisk;
      if cluster !in cache {
        return;
      }
      var entry := cache[cluster].(referenceCount := cache[cluster].referenceCount - 1);
      if entry.referenceCount > 0 {
        cache := cache[cluster := entry];
        return;
      }
      cache := cache - {cluster};
      if entry.dirtyRange.Some? {
        FlushClusterDirtyRangeFile(inode, entry.data, entry.cluster, entry.dirtyRange.value);
      } else {
        CleanIsOnDisk(g, disk, old(cache), cluster);
      }
      DropCached(g, old(disk), disk, old(cache), cluster);
    }

    /** Writes a cluster's dirty range back and keeps it cached, now clean. */
    method FlushCluster(inode: FileNode, cluster: nat)
      requires StoreOk()
      modifies this`disk, this`cache, this`sizeCells, fat`dirty, fat`bitmap
      ensures StoreOk() && CurrentView() == old(CurrentView())
      ensures forall d :: References(cache, d) == References(old(cache), d)
      ensures cluster in cache ==> cache[cluster].dirtyRange.None?
      ensures cluster in cache ==> ClusterOnDisk(g, disk, cluster) == cache[cluster].data
      ensures sizeCells == if cluster in old(cache) && old(cache[cluster].dirtyRange.Some?)
                           then old(sizeCells)[inode.startCluster := inode.size % U32] else old(sizeCells)
    {
      if cluster in cache && cache[cluster].dirtyRange.Some? {
        var entry := cache[cluster];
        cache := cache - {cluster};
        FlushClusterDirtyRangeFile(inode, entry.data, entry.cluster, entry.dirtyRange.value);
        CacheStable(g, old(disk), disk, cache, {cluster});
        cache := cache[cluster := entry.(dirtyRange := None)];
      }
    }

    /** Copies bytes into a locked cluster and widens its dirty range. */
    method WriteLocked(cluster: nat, at: nat, bytes: seq<Byte>)
      requires StoreOk() && cluster in cache
      requires |bytes| > 0 && at + |bytes| <= g.BytesPerCluster()
      modifies this`cache
      ensures StoreOk()
      ensures CurrentView() == old(CurrentView())[cluster := Splice(old(CurrentView())[cluster], at, bytes)]
      ensures forall d :: References(cache, d) == References(old(cache), d)
      ensures cluster in cache && cache[cluster].dirtyRange.Some?
    {
      hide Geometry.Covers, Fat.Valid, Fat.Tracks, ClusterOnDisk;
      var entry := cache[cluster];
      cache := cache[cluster := entry.(
        dirtyRange := Widen(entry.dirtyRange, at, at + |bytes|),
        data := Splice(entry.data, at, bytes))];
    }

    // -------------------------------------------------------------------------
    // File access

    /** Follows `n` links of the table, or says why that is not possible. */
    method WalkChain(cluster: nat, n: nat) returns (r: WalkResult)
      ensures r == Walk(fat.Entries(), cluster, n)
    {
      var current: nat := cluster;
      for i := 0 to n
        invariant Walk(fat.Entries(), cluster, n) == Walk(fat.Entries(), current, n - i)
      {
        if current >= EntryCount(fat.ty, |fat.buffer|) {
          return OutOfTable;
        }
        var next := fat.NextCluster(current);
        if next == UnexpectedFatEntry || next.next.None? {
          return UnexpectedEntry;
        }
        current := next.next.value;
      }
      r := At(current);
    }

    /** A handle at the index of a position within its file is parked on the file's chain. */
    ghost predicate Settled(h: nat, position: nat)
      requires h in handles && g.BytesPerCluster() > 0
      reads this`handles, this`chains
    {
      handles[h].helper.currentCluster != 0 && handles[h].helper.clusterIndex == position / g.BytesPerCluster() ==>
        StandsOn(chains, handles[h], handles[h].inode.startCluster, 0)
    }

    /** An access at `position` finds the file, or nothing to access. */
    ghost predicate FindsFile(h: nat, position: nat)
      requires h in handles && g.BytesPerCluster() > 0
      reads this`handles, this`chains
    {
      position < handles[h].inode.size ==> Settled(h, position)
    }

    /**
     Moves a handle that is not parked on `clusterIndex` there, by walking from the first cluster.  One that
     is stays where it is, be that on the chain of its file or on another chain `t`.
     */
    method Seek(h: nat, clusterIndex: nat, ghost t: nat, ghost base: int)
      requires ValidBut(h) && h in handles
      requires if handles[h].helper.currentCluster != 0 && handles[h].helper.clusterIndex == clusterIndex
               then StandsOn(chains, handles[h], t, base)
               else t == handles[h].inode.startCluster && t in chains && base == 0 && clusterIndex < |chains[t]|
      modifies this`disk, this`cache, this`sizeCells, this`handles, fat`dirty, fat`bitmap
      ensures ValidBut(h) && CurrentView() == old(CurrentView()) && OnlyMoved(old(handles), handles, h)
      ensures StandsOn(chains, handles[h], t, base) && handles[h].helper.clusterIndex == clusterIndex
      ensures CellsKept(old(sizeCells), sizeCells, handles[h].inode)
    {
      hide FatFilesystem.ValidBut, FatFilesystem.Valid, FatFilesystem.Usable, FatFilesystem.VolumeOk,
           FatFilesystem.CurrentView, Fat.Entries, CellsKept, Walk, IsChain, FatFilesystem.SizeKept,
           FatFilesystem.Recorded, Parked;
      var inode := handles[h].inode;
      CellsUnchanged(sizeCells, inode);
      if handles[h].helper.clusterIndex != clusterIndex {
        Unpark(h);
      }
      if handles[h].helper.currentCluster == 0 {
        WalksTo(h, clusterIndex);
        var walked := WalkChain(inode.startCluster, clusterIndex);
        UnparkedIsValid(h);
        Park(h, walked.cluster, clusterIndex, t, base);
      }
    }

    lemma UnparkedIsValid(h: nat)
      requires ValidBut(h) && h in handles && handles[h].helper.currentCluster == 0
      ensures Valid()
    {
      hide FatFilesystem.Usable, ClustersFor, AllParked;
      FileInView(h);
      ParkedIsValid(h);
    }

    lemma WalksTo(h: nat, clusterIndex: nat)
      requires Usable() && h in handles
      requires handles[h].inode.startCluster in chains && clusterIndex < |chains[handles[h].inode.startCluster]|
      ensures var s := handles[h].inode.startCluster;
        Walk(fat.Entries(), s, clusterIndex) == At(chains[s][clusterIndex])
    {
      hide FatFilesystem.Usable, IsChain, Walk;
      FileInView(h);
      WalkOnChain(fat.Entries(), chains[handles[h].inode.startCluster], 0, clusterIndex);
    }

    /** Gives up the cluster a handle is parked on; the handle is then well parked, wherever it was. */
    method Unpark(h: nat)
      requires ValidBut(h) && h in handles
      modifies this`disk, this`cache, this`sizeCells, this`handles, fat`dirty, fat`bitmap
      ensures Valid() && CurrentView() == old(CurrentView())
      ensures handles == old(handles)[h := OpenFile(old(handles)[h].inode,
                AccessHelper(0, old(handles)[h].helper.clusterIndex))]
      ensures CellsKept(old(sizeCells), sizeCells, handles[h].inode)
      ensures old(SizeKept(h)) && Parked(old(handles), old(handles[h].helper.currentCluster)) == {h} ==> Recorded(h)
    {
      hide Geometry.Covers, Geometry.BytesPerCluster, CacheOk, ViewOf, ChainsOk, CountsOk, Fat.Valid, Fat.Tracks,
           ClustersFor, Parked, AllSized, AllParked;
      var o := handles[h];
      HandleMoved(chains, lost, g.BytesPerCluster(), handles, astray, h, AccessHelper(0, o.helper.clusterIndex));
      if o.helper.currentCluster != 0 {
        ParkedIsCached(cache, handles, h);
        ReferencesAre(cache, handles, o.helper.currentCluster);
        ReleaseCluster(o.inode, o.helper.currentCluster);
      }
      var o' := o.(helper := o.helper.(currentCluster := 0));
      Repark(old(cache), cache, handles, h, o');
      handles := handles[h := o'];
    }

    method Park(h: nat, cluster: nat, clusterIndex: nat, ghost t: nat, ghost base: int)
      requires Valid() && h in handles && handles[h].helper.currentCluster == 0
      requires t in chains && 0 <= clusterIndex - base < |chains[t]| && cluster == chains[t][clusterIndex - base]
      modifies this`cache, this`handles
      ensures ValidBut(h) && CurrentView() == old(CurrentView())
      ensures handles == old(handles)[h := OpenFile(old(handles)[h].inode, AccessHelper(cluster, clusterIndex))]
      ensures StandsOn(chains, handles[h], t, base)
    {
      hide Geometry.Covers, Geometry.BytesPerCluster, CacheOk, ViewOf, ChainsOk, CountsOk, Fat.Valid, Fat.Tracks,
           HandleParked, AllSized, AllParked;
      ValidIsBut(h);
      HandleMoved(chains, lost, g.BytesPerCluster(), handles, astray, h, AccessHelper(cluster, clusterIndex));
      ChainInView(t);
      LockCluster(cluster);
      var o := OpenFile(handles[h].inode, AccessHelper(cluster, clusterIndex));
      Repark(old(cache), cache, handles, h, o);
      handles := handles[h := o];
    }

    /** Moves a parked handle to the next cluster of its chain. */
    method Advance(h: nat, next: nat, ghost t: nat, ghost base: int)
      requires ValidBut(h) && h in handles && StandsOn(chains, handles[h], t, base)
      requires handles[h].helper.clusterIndex - base + 1 < |chains[t]|
      requires next == chains[t][handles[h].helper.clusterIndex - base + 1]
      modifies this`disk, this`cache, this`sizeCells, this`handles, fat`dirty, fat`bitmap
      ensures ValidBut(h) && CurrentView() == old(CurrentView()) && OnlyMoved(old(handles), handles, h)
      ensures StandsOn(chains, handles[h], t, base)
      ensures handles[h].helper.clusterIndex == old(handles[h].helper.clusterIndex) + 1
      ensures CellsKept(old(sizeCells), sizeCells, handles[h].inode)
      ensures old(SizeKept(h)) && AloneOn(old(handles), chains[t], h) ==> SizeKept(h)
    {
      hide FatFilesystem.ValidBut, FatFilesystem.Valid, FatFilesystem.Usable, FatFilesystem.CurrentView,
           FatFilesystem.VolumeOk;
      var clusterIndex := handles[h].helper.clusterIndex;
      if AloneOn(handles, chains[t], h) {
        AloneParked(h, t, base);
      }
      Unpark(h);
      Park(h, next, clusterIndex + 1, t, base);
    }

    lemma AloneParked(h: nat, t: nat, base: int)
      requires h in handles && StandsOn(chains, handles[h], t, base) && AloneOn(handles, chains[t], h)
      ensures Parked(handles, handles[h].helper.currentCluster) == {h}
    {
    }

    ghost function BytesOf(s: nat): seq<Byte>
      requires VolumeOk() && s in chains
      reads this`disk, this`cache, this`chains, this`lost, fat
    {
      assert IsChain(Table(), chains[s]);
      ChainBytes(CurrentView(), g.BytesPerCluster(), chains[s])
    }

    /** The chain of the file a handle has open. */
    ghost function FileChain(h: nat): (chain: seq<nat>)
      requires Usable() && h in handles
      reads this`disk, this`cache, this`chains, this`lost, this`handles, fat
    {
      FileInView(h);
      chains[handles[h].inode.startCluster]
    }

    /** The bytes of that chain. */
    ghost function FileBytes(h: nat): (r: seq<Byte>)
      requires Usable() && h in handles
      reads this`disk, this`cache, this`chains, this`lost, this`handles, fat
      ensures handles[h].inode.size <= |r|
    {
      HandleInChains(h);
      BytesOf(handles[h].inode.startCluster)
    }

    /** Reads from the cluster a handle is parked on. */
    method ReadStep(h: nat, at: nat, n: nat, ghost t: nat, ghost base: int) returns (r: seq<Byte>)
      requires Usable() && h in handles && StandsOn(chains, handles[h], t, base)
      requires n > 0 && at + n <= g.BytesPerCluster()
      ensures StartIn(handles[h], base, g.BytesPerCluster()) + at + n <= |BytesOf(t)|
      ensures r == Slice(BytesOf(t), StartIn(handles[h], base, g.BytesPerCluster()) + at, n)
    {
      hide Geometry.Covers, ChainsOk, Fat.Valid, Fat.Tracks, CacheOk, ViewOf, ClusterOnDisk, IsChain, ChainBytes;
      ParkedIsCached(cache, handles, h);
      var o := handles[h];
      ChainInView(t);
      CachedView(o.helper.currentCluster);
      r := cache[o.helper.currentCluster].data[at..at + n];
      ChainBytesSlice(CurrentView(), g.BytesPerCluster(), chains[t], o.helper.clusterIndex - base, at, n);
    }

    lemma CachedView(c: nat)
      requires StoreOk() && c in cache && g.IsCluster(c)
      ensures c in CurrentView() && CurrentView()[c] == cache[c].data && |cache[c].data| == g.BytesPerCluster()
    {
    }

    lemma ChainInView(s: nat)
      requires VolumeOk() && s in chains
      ensures IsChain(Table(), chains[s]) && IsChain(fat.Entries(), chains[s]) && chains[s][0] == s
      ensures forall k :: 0 <= k < |chains[s]| ==> g.IsCluster(chains[s][k])
      ensures ViewCovers(CurrentView(), g.BytesPerCluster(), chains[s])
    {
    }

    /** The file of a handle, in all its aspects. */
    lemma FileInView(h: nat)
      requires Usable() && h in handles
      ensures g.BytesPerCluster() > 0 && handles[h].inode.startCluster in chains && handles[h].inode.size < U32
      ensures var s := handles[h].inode.startCluster;
        && s !in lost && IsChain(Table(), chains[s]) && IsChain(fat.Entries(), chains[s]) && chains[s][0] == s
    {
      assert HandleSized(chains, lost, g.BytesPerCluster(), handles[h]);
      ChainInView(handles[h].inode.startCluster);
    }

    /** Writes into the cluster a handle is parked on. */
    method WriteStep(h: nat, at: nat, bytes: seq<Byte>, ghost t: nat, ghost base: int)
      requires ValidBut(h) && h in handles && StandsOn(chains, handles[h], t, base)
      requires |bytes| > 0 && at + |bytes| <= g.BytesPerCluster()
      modifies this`cache
      ensures ValidBut(h) && SizeKept(h)
      ensures StartIn(handles[h], base, g.BytesPerCluster()) + at + |bytes| <= |old(BytesOf(t))|
      ensures BytesOf(t) == Splice(old(BytesOf(t)), StartIn(handles[h], base, g.BytesPerCluster()) + at, bytes)
      ensures SameElsewhere(old(CurrentView()), CurrentView(), chains[t])
    {
      hide Geometry.Covers, ChainsOk, Fat.Valid, Fat.Tracks, CacheOk, ViewOf, ClusterOnDisk, IsChain, ChainBytes,
           Splice, AllParked, AllSized;
      ParkedIsCached(cache, handles, h);
      var o := handles[h];
      ChainInView(t);
      ChainDistinct(fat.Entries(), chains[t], o.helper.clusterIndex - base);
      ChainBytesSplice(CurrentView(), g.BytesPerCluster(), chains[t], o.helper.clusterIndex - base, at, bytes);
      WriteLocked(o.helper.currentCluster, at, bytes);
    }

    /** One piece of a transfer, within the cluster a handle is parked on. */
    method TransferStep(h: nat, at: nat, n: nat, buf: FileAccessBuffer, accessed: nat, ghost t: nat, ghost base: int)
      returns (piece: seq<Byte>)
      requires ValidBut(h) && h in handles && StandsOn(chains, handles[h], t, base)
      requires n > 0 && at + n <= g.BytesPerCluster() && accessed + n <= buf.Length()
      modifies this`cache
      ensures ValidBut(h) && (buf.Write? ==> SizeKept(h))
      ensures StartIn(handles[h], base, g.BytesPerCluster()) + at + n <= |old(BytesOf(t))|
      ensures StepOf(old(BytesOf(t)), BytesOf(t), buf, StartIn(handles[h], base, g.BytesPerCluster()) + at, accessed,
                     n, piece)
      ensures buf.Read? ==> CurrentView() == old(CurrentView())
      ensures SameElsewhere(old(CurrentView()), CurrentView(), chains[t])
    {
      hide FatFilesystem.ValidBut, FatFilesystem.Usable, FatFilesystem.VolumeOk, FatFilesystem.SizeKept,
           Geometry.BytesPerCluster, FatFilesystem.CurrentView, FatFilesystem.BytesOf, Splice, Slice, StartIn;
      match buf {
        case Read(_) =>
          piece := ReadStep(h, at, n, t, base);
        case Write(bytes) =>
          piece := [];
          WriteStep(h, at, bytes[accessed..accessed + n], t, base);
      }
    }

    /** At the end of a cluster: moves on to the next one unless the chain ends here. */
    method CrossBoundary(h: nat, ghost t: nat, ghost base: int) returns (more: bool)
      requires ValidBut(h) && h in handles && StandsOn(chains, handles[h], t, base)
      modifies this`disk, this`cache, this`sizeCells, this`handles, fat`dirty, fat`bitmap
      ensures ValidBut(h) && CurrentView() == old(CurrentView()) && OnlyMoved(old(handles), handles, h)
      ensures StandsOn(chains, handles[h], t, base)
      ensures StartIn(old(handles[h]), base, g.BytesPerCluster()) + g.BytesPerCluster() ==
        if more then StartIn(handles[h], base, g.BytesPerCluster()) else |BytesOf(t)|
      ensures !more ==> handles == old(handles)
      ensures CellsKept(old(sizeCells), sizeCells, handles[h].inode)
      ensures old(SizeKept(h)) && AloneOn(old(handles), chains[t], h) ==> SizeKept(h)
    {
      hide FatFilesystem.ValidBut, FatFilesystem.Usable, FatFilesystem.VolumeOk, FatFilesystem.SizeKept, AloneOn,
           Geometry.BytesPerCluster, FatFilesystem.CurrentView, CellsKept, ChainsOk, Fat.Entries;
      var o := handles[h];
      ChainInView(t);
      ghost var j := o.helper.clusterIndex - base;
      ChainEntryUsed(fat.Entries(), chains[t], j);
      var next := fat.NextCluster(o.helper.currentCluster);
      more := next.next.Some?;
      NextStart(o, base, g.BytesPerCluster(), |chains[t]|);
      CellsUnchanged(sizeCells, o.inode);
      if more {
        Advance(h, next.next.value, t, base);
      }
    }

    lemma HandleInChains(h: nat)
      requires Usable() && h in handles
      ensures g.BytesPerCluster() > 0 && handles[h].inode.startCluster in chains
        && handles[h].inode.startCluster !in lost
      ensures ClustersFor(handles[h].inode.size, g.BytesPerCluster()) <= |chains[handles[h].inode.startCluster]|
      ensures handles[h].inode.size <= |BytesOf(handles[h].inode.startCluster)|
    {
      var (size, b) := (handles[h].inode.size, g.BytesPerCluster());
      assert HandleSized(chains, lost, b, handles[h]);
      if size > 0 {
        PositionInChain(0, size, b);
        MulMonotone(ClustersFor(size, b), |chains[handles[h].inode.startCluster]|, b);
      }
    }

    /**
     The loop of a transfer, from `off` on in the bytes of the chain `t` that the handle is parked on.  It ends
     with the request or with the chain.
     */
    method Transfer(h: nat, at: nat, buf: FileAccessBuffer, max: nat, ghost t: nat, ghost base: int, ghost off: nat)
      returns (accessed: nat, data: seq<Byte>)
      requires ValidBut(h) && h in handles && StandsOn(chains, handles[h], t, base) && max <= buf.Length()
      requires at < g.BytesPerCluster() && StartIn(handles[h], base, g.BytesPerCluster()) + at == off
      modifies this`disk, this`cache, this`sizeCells, this`handles, fat`dirty, fat`bitmap
      ensures ValidBut(h) && OnlyMoved(old(handles), handles, h) && StandsOn(chains, handles[h], t, base)
      ensures off <= |old(BytesOf(t))| && accessed == AtMost(max, |old(BytesOf(t))| - off)
      ensures Transferred(old(BytesOf(t)), BytesOf(t), buf, off, accessed, data)
      ensures EndsAt(handles[h], base, g.BytesPerCluster(), off + accessed, |BytesOf(t)|)
      ensures buf.Read? ==> CurrentView() == old(CurrentView())
      ensures SameElsewhere(old(CurrentView()), CurrentView(), chains[t])
      ensures CellsKept(old(sizeCells), sizeCells, handles[h].inode)
      ensures buf.Write? && accessed > 0 && AloneOn(old(handles), chains[t], h) ==> SizeKept(h)
    {
      hide FatFilesystem.ValidBut, FatFilesystem.Usable, FatFilesystem.VolumeOk, FatFilesystem.SizeKept, AloneOn,
           Geometry.BytesPerCluster, FatFilesystem.CurrentView, FatFilesystem.BytesOf, CellsKept, StartIn,
           Transferred, StepOf, SameElsewhere, EndsAt;
      ghost var (inode, before, view) := (handles[h].inode, BytesOf(t), CurrentView());
      accessed, data := 0, [];
      NothingTransferred(before, buf, off);
      CellsUnchanged(sizeCells, inode);
      SameElsewhereRefl(view, chains[t]);
      WithinChain(h, t, base);
      EndsInside(handles[h], base, g.BytesPerCluster(), off, |before|);
      var bytesPerCluster := g.BytesPerCluster();
      var positionInCluster: nat := at;
      while accessed < max
        invariant ValidBut(h) && OnlyMoved(old(handles), handles, h) && StandsOn(chains, handles[h], t, base)
          && accessed <= max
        invariant positionInCluster < bytesPerCluster
        invariant StartIn(handles[h], base, g.BytesPerCluster()) + positionInCluster == off + accessed
        invariant off + accessed < |before| && Transferred(before, BytesOf(t), buf, off, accessed, data)
        invariant EndsAt(handles[h], base, g.BytesPerCluster(), off + accessed, |before|)
        invariant buf.Read? ==> CurrentView() == view
        invariant SameElsewhere(view, CurrentView(), chains[t])
        invariant CellsKept(old(sizeCells), sizeCells, inode)
        invariant buf.Write? && accessed > 0 && AloneOn(old(handles), chains[t], h) ==> SizeKept(h)
      {
        var left := max - accessed;
        var toAccess :=
          if bytesPerCluster - positionInCluster < left then bytesPerCluster - positionInCluster else left;
        ghost var (now, seen, cells) := (BytesOf(t), CurrentView(), sizeCells);
        AloneMoved(old(handles), handles, chains[t], h);
        TransferredLength(before, now, buf, off, accessed, data);
        var piece, more;
        piece, positionInCluster, more := TransferPiece(h, positionInCluster, toAccess, buf, accessed, t, base);
        TransferOneMore(before, now, BytesOf(t), buf, off, accessed, data, toAccess, piece);
        TransferredLength(before, BytesOf(t), buf, off, accessed + toAccess, data + piece);
        SameElsewhereTrans(view, seen, CurrentView(), chains[t]);
        CellsTwice(old(sizeCells), cells, sizeCells, inode);
        accessed, data := accessed + toAccess, data + piece;
        if !more {
          break;
        }
      }
      TransferredLength(before, BytesOf(t), buf, off, accessed, data);
    }

    /** One piece of a transfer, and the move to the next cluster if it reaches the end of one and there is a next. */
    method TransferPiece(h: nat, at: nat, n: nat, buf: FileAccessBuffer, accessed: nat, ghost t: nat, ghost base: int)
      returns (piece: seq<Byte>, next: nat, more: bool)
      requires ValidBut(h) && h in handles && StandsOn(chains, handles[h], t, base)
      requires n > 0 && at + n <= g.BytesPerCluster() && accessed + n <= buf.Length()
      modifies this`disk, this`cache, this`sizeCells, this`handles, fat`dirty, fat`bitmap
      ensures ValidBut(h) && OnlyMoved(old(handles), handles, h) && StandsOn(chains, handles[h], t, base)
      ensures StepOf(old(BytesOf(t)), BytesOf(t), buf, StartIn(old(handles[h]), base, g.BytesPerCluster()) + at,
                     accessed, n, piece)
      ensures more ==>
        && next < g.BytesPerCluster()
        && StartIn(handles[h], base, g.BytesPerCluster()) + next
           == StartIn(old(handles[h]), base, g.BytesPerCluster()) + at + n
        && StartIn(handles[h], base, g.BytesPerCluster()) + next < |BytesOf(t)|
      ensures EndsAt(handles[h], base, g.BytesPerCluster(),
                     StartIn(old(handles[h]), base, g.BytesPerCluster()) + at + n, |BytesOf(t)|)
      ensures !more ==> StartIn(old(handles[h]), base, g.BytesPerCluster()) + at + n == |BytesOf(t)|
      ensures buf.Read? ==> CurrentView() == old(CurrentView())
      ensures SameElsewhere(old(CurrentView()), CurrentView(), chains[t])
      ensures CellsKept(old(sizeCells), sizeCells, handles[h].inode)
      ensures buf.Write? && AloneOn(old(handles), chains[t], h) ==> SizeKept(h)
    {
      hide FatFilesystem.ValidBut, FatFilesystem.Usable, FatFilesystem.VolumeOk, FatFilesystem.SizeKept, AloneOn,
           Geometry.BytesPerCluster, FatFilesystem.CurrentView, FatFilesystem.BytesOf, CellsKept, StartIn, StepOf,
           SameElsewhere;
      piece := TransferStep(h, at, n, buf, accessed, t, base);
      CellsUnchanged(sizeCells, handles[h].inode);
      WithinChain(h, t, base);
      more, next := true, at + n;
      if next >= g.BytesPerCluster() {
        label Stepped:
        more := CrossBoundary(h, t, base);
        SameBytes@Stepped(t);
        if more {
          WithinChain(h, t, base);
        }
        next := 0;
      }
    }

    lemma WithinChain(h: nat, t: nat, base: int)
      requires Usable() && h in handles && StandsOn(chains, handles[h], t, base)
      ensures g.BytesPerCluster() > 0
      ensures StartIn(handles[h], base, g.BytesPerCluster()) + g.BytesPerCluster() <= |BytesOf(t)|
    {
      hide FatFilesystem.Usable, FatFilesystem.VolumeOk, FatFilesystem.CurrentView, Geometry.BytesPerCluster, StartIn;
      Opened(h);
      ChainInView(t);
      NextStart(handles[h], base, g.BytesPerCluster(), |chains[t]|);
    }

    /**
     Where a transfer at `position` takes place: in the chain of the file, or, if the handle is parked on a
     chain `t` at just this index, in that chain.
     */
    ghost predicate Arrives(h: nat, position: nat, t: nat, base: int, off: nat)
      requires h in handles && g.BytesPerCluster() > 0
      reads this`handles, this`chains
    {
      var o := handles[h];
      || (t == o.inode.startCluster && base == 0 && off == position && Settled(h, position))
      || (&& StandsOn(chains, o, t, base) && o.helper.clusterIndex == position / g.BytesPerCluster()
          && StartIn(o, base, g.BytesPerCluster()) + position % g.BytesPerCluster() == off)
    }

    /**
     `read_write_file`: transfers the bytes that lie between `position` and the end of the file, walking from
     cluster to cluster of a chain.  A read returns exactly those bytes of the chain, a write replaces exactly
     those; nothing outside the chain changes.  On the chain of the file all of the bytes are transferred.
     */
    method ReadWriteFile(h: nat, position: nat, buf: FileAccessBuffer, ghost t: nat, ghost base: int, ghost off: nat)
      returns (accessed: nat, data: seq<Byte>)
      requires ValidBut(h) && h in handles && g.BytesPerCluster() > 0
      requires t in chains && (position < handles[h].inode.size ==> Arrives(h, position, t, base, off))
      modifies this`disk, this`cache, this`sizeCells, this`handles, fat`dirty, fat`bitmap
      ensures ValidBut(h) && OnlyMoved(old(handles), handles, h)
      ensures position >= handles[h].inode.size ==> handles == old(handles) && accessed == 0
      ensures position < handles[h].inode.size ==>
        && StandsOn(chains, handles[h], t, base) && off <= |old(BytesOf(t))|
        && EndsAt(handles[h], base, g.BytesPerCluster(), off + accessed, |BytesOf(t)|)
      ensures position < handles[h].inode.size ==>
        accessed == AtMost(Accessible(handles[h].inode.size, position, buf.Length()), |old(BytesOf(t))| - off)
      ensures Transferred(old(BytesOf(t)), BytesOf(t), buf, off, accessed, data)
      ensures buf.Read? ==> CurrentView() == old(CurrentView())
      ensures SameElsewhere(old(CurrentView()), CurrentView(), chains[t])
      ensures CellsKept(old(sizeCells), sizeCells, handles[h].inode)
      ensures buf.Write? && accessed > 0 && AloneOn(old(handles), chains[t], h) ==> SizeKept(h)
    {
      hide FatFilesystem.ValidBut, FatFilesystem.Usable, FatFilesystem.VolumeOk, FatFilesystem.SizeKept, AloneOn,
           Geometry.BytesPerCluster, FatFilesystem.CurrentView, FatFilesystem.BytesOf, CellsKept, StartIn,
           Transferred, SameElsewhere, ClustersFor, EndsAt;
      var inode := handles[h].inode;
      ghost var (before, view, cells) := (BytesOf(t), CurrentView(), sizeCells);
      HandleInChains(h);
      accessed, data := 0, [];
      NothingTransferred(before, buf, off);
      CellsUnchanged(cells, inode);
      SameElsewhereRefl(view, chains[t]);
      if position >= inode.size {
        return;
      }
      var remainingFile := inode.size - position;
      var maxToAccess := if buf.Length() < remainingFile then buf.Length() else remainingFile;
      PositionInChain(position, inode.size, g.BytesPerCluster());
      ArrivesAt(h, position, t, base, off);
      Seek(h, position / g.BytesPerCluster(), t, base);
      SameBytes(t);
      SoughtAt(handles[h], position, g.BytesPerCluster(), base);
      AloneMoved(old(handles), handles, chains[t], h);
      ghost var sought := sizeCells;
      accessed, data := Transfer(h, position % g.BytesPerCluster(), buf, maxToAccess, t, base, off);
      CellsTwice(cells, sought, sizeCells, inode);
    }

    /** The bytes of a chain are in the view. */
    twostate lemma SameBytes(t: nat)
      requires old(VolumeOk()) && VolumeOk() && CurrentView() == old(CurrentView()) && chains == old(chains)
        && t in chains
      ensures BytesOf(t) == old(BytesOf(t))
    {
      hide FatFilesystem.VolumeOk, FatFilesystem.CurrentView;
    }

    lemma ArrivesAt(h: nat, position: nat, t: nat, base: int, off: nat)
      requires h in handles && g.BytesPerCluster() > 0 && Arrives(h, position, t, base, off)
      requires Usable() && position < handles[h].inode.size
      ensures var (o, i) := (handles[h], position / g.BytesPerCluster());
        && (if o.helper.currentCluster != 0 && o.helper.clusterIndex == i then StandsOn(chains, o, t, base)
            else t == o.inode.startCluster && t in chains && base == 0 && i < |chains[t]|)
        && base <= i && (i - base) * g.BytesPerCluster() + position % g.BytesPerCluster() == off
    {
      hide Geometry.BytesPerCluster, ClustersFor, FatFilesystem.Usable, FatFilesystem.VolumeOk, FatFilesystem.BytesOf;
      HandleInChains(h);
      PositionInChain(position, handles[h].inode.size, g.BytesPerCluster());
      DivBounds(position, g.BytesPerCluster());
    }

    // -------------------------------------------------------------------------
    // Resizing

    /** Stores one table entry. */
    method SetEntry(cluster: nat, e: FatEntry)
      requires StoreOk() && g.IsCluster(cluster) && Encodable(e, fat.ty)
      modifies fat
      ensures StoreOk() && CurrentView() == old(CurrentView())
      ensures Table() == old(Table())[cluster := e]
    {
      hide Geometry.Covers, Fat.Valid, Fat.Tracks, CacheOk, ViewOf;
      fat.WriteFatEntry(cluster, e, FatOnDisk(g, disk));
    }

    /** Links the lowest free cluster after the `k`-th cluster of a chain, if there is one. */
    method GrowOne(ghost s: nat, ghost k: nat, last: nat) returns (r: Option<nat>)
      requires VolumeOk() && s in chains && 0 < k <= |chains[s]| && last == chains[s][k - 1]
      modifies fat, this`chains, this`lost
      ensures VolumeOk() && CurrentView() == old(CurrentView())
      ensures r.None? ==> FreeClusters(old(Table())) == {} && Table() == old(Table())
      ensures r.None? ==> chains == old(chains) && lost == old(lost)
      ensures r.Some? ==> r.value in FreeClusters(old(Table()))
      ensures r.Some? ==> chains == Relinked(old(chains), s, k, k, [r.value])
      ensures r.Some? ==> lost == LostWith(old(lost), old(chains)[s], k)
      ensures r.Some? ==> FreeClusters(Table()) == FreeClusters(old(Table())) - {r.value}
    {
      hide Geometry.Covers, Geometry.BytesPerCluster, Fat.Valid, Fat.Tracks, CacheOk, ViewOf, ChainsOk, Relinked,
           LostWith;
      ChainInView(s);
      r := fat.FindFreeCluster();
      FreeInTable();
      if r.Some? {
        GrowChains(Table(), chains, s, k, r.value);
        FreeIsNew(Table(), chains, r.value);
        RelinkedLost(Table(), chains, lost, s, k, k, [r.value]);
        SetEntry(last, Next(r.value));
        SetEntry(r.value, EndOfChain);
        chains, lost := Relinked(chains, s, k, k, [r.value]), LostWith(lost, chains[s], k);
      }
    }

    lemma HeadIsFirst(s: nat, k: nat)
      requires VolumeOk() && s in chains && 0 < k <= |chains[s]|
      ensures k < |chains[s]| ==> chains[s][k] != s
    {
      hide ViewOf, CacheOk, ChainsOk;
      if k < |chains[s]| {
        TailIsNew(Table(), chains, s, k);
      }
    }

    lemma FreeInTable()
      requires LayoutOk()
      ensures FreeClusters(Table()) == FreeClusters(fat.Entries())
    {
    }

    /**
     Adds `toAdd` clusters after the `k`-th of a chain.  It succeeds exactly when that many are
     free; otherwise every free cluster has been linked to the chain.
     */
    method Grow(ghost s: nat, ghost k: nat, last: nat, toAdd: nat) returns (ok: bool, ghost added: seq<nat>)
      requires VolumeOk() && s in chains && 0 < k <= |chains[s]| && last == chains[s][k - 1]
      modifies fat, this`chains, this`lost
      ensures VolumeOk() && CurrentView() == old(CurrentView())
      ensures ok <==> |FreeClusters(old(Table()))| >= toAdd
      ensures |added| == if ok then toAdd else |FreeClusters(old(Table()))|
      ensures Elements(added) <= FreeClusters(old(Table()))
      ensures FreeClusters(Table()) == FreeClusters(old(Table())) - Elements(added)
      ensures |FreeClusters(Table())| == |FreeClusters(old(Table()))| - |added|
      ensures GrownBy(old(chains), old(lost), chains, lost, s, k, added)
    {
      hide Geometry.BytesPerCluster, FatFilesystem.VolumeOk, FatFilesystem.StoreOk, FatFilesystem.LayoutOk,
           FatFilesystem.Table, ChainsOk, ViewOf, CacheOk, FreeClusters, Relinked, LostWith, GrownBy,
           FatFilesystem.CurrentView, Elements;
      added := [];
      var lastCluster := last;
      HeadIsFirst(s, k);
      GrownByNone(chains, lost, s, k);
      ghost var (free, chains0, lost0) := (FreeClusters(Table()), chains, lost);
      NoneTaken(free);
      for i := 0 to toAdd
        invariant VolumeOk() && CurrentView() == old(CurrentView())
        invariant |added| == i && Elements(added) <= free
        invariant FreeClusters(Table()) == free - Elements(added)
        invariant |FreeClusters(Table())| == |free| - i
        invariant GrownBy(chains0, lost0, chains, lost, s, k, added)
        invariant s in chains && k + i <= |chains[s]| && lastCluster == chains[s][k + i - 1]
      {
        ghost var (chains1, lost1, freeNow) := (chains, lost, FreeClusters(Table()));
        var c := GrowOne(s, k + i, lastCluster);
        if c.None? {
          return false, added;
        }
        GrownMore(chains0, lost0, chains1, lost1, s, k, added, c.value);
        TakenFree(free, freeNow, FreeClusters(Table()), added, c.value);
        lastCluster, added := c.value, added + [c.value];
      }
      ok := true;
    }

    /** The `n` clusters that follow the `k`-th cluster of a chain. */
    method Following(ghost s: nat, ghost k: nat, last: nat, n: nat) returns (clusters: seq<nat>)
      requires VolumeOk() && s in chains && 0 < k && k + n <= |chains[s]| && last == chains[s][k - 1]
      ensures clusters == chains[s][k..k + n]
    {
      hide *;
      ChainInView(s);
      clusters := [];
      var current := last;
      for i := 0 to n
        invariant clusters == chains[s][k..k + i] && current == chains[s][k + i - 1]
      {
        ChainEntryUsed(fat.Entries(), chains[s], k + i - 1);
        var next := fat.NextCluster(current);
        clusters := clusters + [next.next.value];
        current := next.next.value;
      }
    }

    /** Marks clusters free, the last one first. */
    method FreeBackwards(clusters: seq<nat>)
      requires StoreOk() && forall k :: 0 <= k < |clusters| ==> g.IsCluster(clusters[k])
      modifies fat
      ensures StoreOk() && CurrentView() == old(CurrentView())
      ensures Table() == FreeAll(old(Table()), clusters)
    {
      hide FatFilesystem.StoreOk, FatFilesystem.LayoutOk, ViewOf;
      var j := |clusters|;
      while j > 0
        invariant 0 <= j <= |clusters|
        invariant StoreOk() && CurrentView() == old(CurrentView())
        invariant Table() == FreeAll(old(Table()), clusters[j..])
      {
        j := j - 1;
        SetEntry(clusters[j], Free);
        assert clusters[j..] == [clusters[j]] + clusters[j + 1..];
      }
    }

    /** Frees the `toDelete` clusters after the `k`-th of a chain and ends the chain there. */
    method Shrink(ghost s: nat, ghost k: nat, last: nat, toDelete: nat)
      requires VolumeOk() && s in chains && 0 < k && k + toDelete <= |chains[s]| && last == chains[s][k - 1]
      modifies fat, this`chains, this`lost
      ensures VolumeOk() && CurrentView() == old(CurrentView())
      ensures chains == Relinked(old(chains), s, k, k + toDelete, [])
        && lost == LostWith(old(lost), old(chains)[s], k + toDelete)
      ensures FreeClusters(Table()) == FreeClusters(old(Table())) + Elements(old(chains)[s][k..k + toDelete])
      ensures |FreeClusters(Table())| == |FreeClusters(old(Table()))| + toDelete
    {
      hide FatFilesystem.StoreOk, FatFilesystem.LayoutOk, FatFilesystem.Table, Geometry.BytesPerCluster, ViewOf,
           ChainsOk, FreeClusters, IsChain, FreeAll, Elements, ViewCovers, Relinked, LostWith;
      ChainInView(s);
      CutChains(Table(), chains, s, k, k + toDelete);
      CutCount(Table(), chains[s], k, k + toDelete);
      RelinkedLost(Table(), chains, lost, s, k, k + toDelete, []);
      var clusters := Following(s, k, last, toDelete);
      FreeBackwards(clusters);
      SetEntry(last, EndOfChain);
      chains, lost := Relinked(chains, s, k, k + toDelete, []), LostWith(lost, chains[s], k + toDelete);
    }

    /** Gives a chain of at least `current` clusters `wanted` ones. */
    method ResizeChain(s: nat, current: nat, wanted: nat) returns (ok: bool, ghost added: seq<nat>)
      requires VolumeOk() && s in chains && 0 < current <= |chains[s]| && 0 < wanted
      modifies fat, this`chains, this`lost
      ensures VolumeOk() && CurrentView() == old(CurrentView())
      ensures Resized(old(Layout()), Layout(), s, current, wanted, ok, added)
    {
      hide FatFilesystem.VolumeOk, FatFilesystem.StoreOk, FatFilesystem.LayoutOk, FatFilesystem.Table,
           Geometry.BytesPerCluster, FreeClusters, ViewOf, IsChain, Resized, Elements, ViewCovers, Relinked, LostWith,
           GrownBy, Walk;
      added := [];
      ghost var before := Layout();
      if wanted != current {
        var toKeep := if wanted < current then wanted else current;
        ChainInView(s);
        WalkOnChain(fat.Entries(), chains[s], 0, toKeep - 1);
        var walked := WalkChain(s, toKeep - 1);
        if current > wanted {
          Shrink(s, toKeep, walked.cluster, current - wanted);
          ok := true;
          ResizedByCut(before, Layout(), s, current, wanted);
        } else {
          ok, added := Grow(s, toKeep, walked.cluster, wanted - current);
          ResizedByGrowth(before, Layout(), s, current, wanted, ok, added);
        }
      } else {
        ok := true;
        NotResized(before, s, current);
      }
    }

    /** What a resize changes. */
    ghost function Layout(): (v: VolumeLayout)
      requires VolumeOk()
      reads this`disk, this`cache, this`chains, this`lost, fat
      ensures v.chains == chains && v.lost == lost && v.free == FreeClusters(Table())
    {
      VolumeLayout(chains, lost, FreeClusters(Table()))
    }

    /**
     `set_file_size`: a file has one cluster for every started cluster of its size, and at least one.
     Growing fails exactly when too few clusters are free; then the size stays, and so does what
     the clusters of every file hold.  The handle keeps its cluster, and may be left behind with it.
     */
    method SetFileSize(h: nat, size: nat) returns (ok: bool, ghost added: seq<nat>)
      requires ValidBut(h) && h in handles && size < U32
      requires g.BytesPerCluster() > 0 && MayResize(handles, h, size, g.BytesPerCluster())
      modifies fat, this`chains, this`lost, this`handles
      ensures ValidBut(h) && CurrentView() == old(CurrentView())
      ensures old(Valid()) && h !in astray ==>
        !(ok && LeftBehind(old(handles[h]), size, g.BytesPerCluster())) ==> Valid()
      ensures handles == old(handles)[h := old(handles[h]).(inode := FileNode(old(handles[h].inode.startCluster),
                if ok then size else old(handles[h].inode.size)))]
      ensures Resized(old(Layout()), Layout(), old(handles[h].inode.startCluster),
                      ClustersFor(old(handles[h].inode.size), g.BytesPerCluster()),
                      ClustersFor(size, g.BytesPerCluster()), ok, added)
    {
      hide FatFilesystem.VolumeOk, Geometry.BytesPerCluster, FreeClusters, ViewOf, CountsOk, ClustersFor, AllSized,
           AllParked, HandleParked, MayResize, Resized, ChainsOk, LeftBehind;
      var inode := handles[h].inode;
      var bytesPerCluster := g.BytesPerCluster();
      var currentClusters := ClustersFor(inode.size, bytesPerCluster);
      var newClusters := ClustersFor(size, bytesPerCluster);
      HandleInChains(h);
      ghost var (before, entries) := (Layout(), Table());
      ChainsAre();
      if Valid() && h !in astray {
        ValidParked(h);
      }
      ok, added := ResizeChain(inode.startCluster, currentClusters, newClusters);
      ResizedHandles(entries, before, Layout(), handles, h, astray + {h}, size, ok, added, bytesPerCluster);
      if ok {
        Repark(cache, cache, handles, h, handles[h].(inode := inode.(size := size)));
        handles := handles[h := handles[h].(inode := inode.(size := size))];
      } else {
        assert handles[h := handles[h].(inode := inode.(size := inode.size))] == handles;
      }
      OwnParked(h, before, old(handles[h]), ok, size);
    }

    lemma ValidParked(h: nat)
      requires Valid() && h in handles && h !in astray
      ensures g.BytesPerCluster() > 0 && HandleParked(chains, g.BytesPerCluster(), handles[h])
    {
      hide HandleParked, AllSized;
    }

    lemma ChainsAre()
      requires VolumeOk()
      ensures ChainsOk(Table(), chains) && lost <= chains.Keys
    {
    }

    /** If the handle was well parked and is not left behind, all handles are. */
    lemma OwnParked(h: nat, before: VolumeLayout, o: OpenFile, ok: bool, size: nat)
      requires ValidBut(h) && h in handles && g.BytesPerCluster() > 0
      requires ResizedParks(before, Layout(), o, size, ok, g.BytesPerCluster())
      requires handles[h] == o.(inode := FileNode(o.inode.startCluster, if ok then size else o.inode.size))
      ensures HandleParked(before.chains, g.BytesPerCluster(), o) ==>
        !(ok && LeftBehind(o, size, g.BytesPerCluster())) ==> Valid()
    {
      hide FatFilesystem.Usable, FatFilesystem.VolumeOk, HandleParked, LeftBehind, ClustersFor, AllParked;
      if HandleParked(before.chains, g.BytesPerCluster(), o) && !(ok && LeftBehind(o, size, g.BytesPerCluster())) {
        ParkedIsValid(h);
      }
    }

    // -------------------------------------------------------------------------
    // The file operations

    /** The contents of the file a handle has open. */
    ghost function Contents(h: nat): (r: seq<Byte>)
      requires Usable() && h in handles
      reads this`disk, this`cache, this`chains, this`lost, this`handles, fat
      ensures |r| == handles[h].inode.size
    {
      HandleInChains(h);
      BytesOf(handles[h].inode.startCluster)[..handles[h].inode.size]
    }

    /** Opens a file with its recorded size; nothing is cached for it yet. */
    method Open(h: nat, startCluster: nat)
      requires Valid() && h !in handles && startCluster in chains && startCluster !in lost && startCluster in sizeCells
      requires g.BytesPerCluster() > 0 && sizeCells[startCluster] < U32
      requires ClustersFor(sizeCells[startCluster], g.BytesPerCluster()) <= |chains[startCluster]|
      modifies this`handles
      ensures Valid()
      ensures handles == old(handles)[h := OpenFile(FileNode(startCluster, sizeCells[startCluster]),
                                                    AccessHelper(0, 0))]
    {
      hide FatFilesystem.VolumeOk, ClustersFor;
      var o := OpenFile(FileNode(startCluster, sizeCells[startCluster]), AccessHelper(0, 0));
      forall c: nat | c != 0 ensures Parked(handles[h := o], c) == Parked(handles, c) {
      }
      handles := handles[h := o];
    }

    /** A well parked handle stands on its file at every position of it. */
    lemma ValidSettled(h: nat, position: nat)
      requires Valid() && h in handles && h !in astray && g.BytesPerCluster() > 0 && position < handles[h].inode.size
      ensures Settled(h, position)
    {
      hide FatFilesystem.Usable, ClustersFor;
      PositionInChain(position, handles[h].inode.size, g.BytesPerCluster());
      assert HandleParked(chains, g.BytesPerCluster(), handles[h]);
    }

    lemma StandsIsValid(h: nat)
      requires ValidBut(h) && h in handles && StandsOn(chains, handles[h], handles[h].inode.startCluster, 0)
      ensures Valid()
    {
      hide FatFilesystem.Usable, ClustersFor, AllParked, StandsOn;
      FileInView(h);
      ParkedIsValid(h);
    }

    /**
     `read_file`, also while other handles are astray.  A handle that is astray reads its file wherever it is not
     parked already, and is then back on it.
     */
    method ReadFile(h: nat, position: nat, length: nat) returns (accessed: nat, data: seq<Byte>)
      requires Valid() && h in handles && position < U32
      requires g.BytesPerCluster() > 0 && (h in astray ==> FindsFile(h, position))
      modifies this`disk, this`cache, this`sizeCells, this`handles, this`astray, fat`dirty, fat`bitmap
      ensures astray == if position < old(handles[h].inode.size) then old(astray) - {h} else old(astray)
      ensures Valid() && CurrentView() == old(CurrentView()) && OnlyMoved(old(handles), handles, h)
      ensures IsRead(old(Contents(h)), position, length, accessed, data)
      ensures CellsKept(old(sizeCells), sizeCells, handles[h].inode)
    {
      hide FatFilesystem.ValidBut, FatFilesystem.Valid, FatFilesystem.Usable, FatFilesystem.VolumeOk,
           FatFilesystem.CurrentView, FatFilesystem.BytesOf, CellsKept, Geometry.BytesPerCluster, StandsOn, EndsAt,
           SameElsewhere, ClustersFor, FatFilesystem.Settled, FatFilesystem.SizeKept, AloneOn;
      HandleInChains(h);
      ghost var (s, b, size) := (handles[h].inode.startCluster, g.BytesPerCluster(), handles[h].inode.size);
      if position < size && h !in astray {
        ValidSettled(h, position);
      }
      ghost var before := BytesOf(s);
      accessed, data := ReadWriteFile(h, position, Read(length), s, 0, position);
      ReadsContents(before, size, position, length, accessed, data);
      ReadBytes(before[..size], position, length);
      if position < size {
        BackOnFile(h);
      } else {
        StillValid();
      }
    }

    ghost method BackOnFile(h: nat)
      requires ValidBut(h) && h in handles && StandsOn(chains, handles[h], handles[h].inode.startCluster, 0)
      modifies this`astray
      ensures Valid() && astray == old(astray) - {h}
    {
      hide FatFilesystem.VolumeOk, AllSized, CountsOk, ClustersFor, StandsOn;
      FileInView(h);
      assert HandleParked(chains, g.BytesPerCluster(), handles[h]);
      astray := astray - {h};
    }

    /** Validity does not depend on the recorded sizes or the disk, as long as what is cached agrees with it. */
    twostate lemma StillValid()
      requires old(Valid()) && Usable() && handles == old(handles) && chains == old(chains) && astray == old(astray)
      ensures Valid()
    {
      hide FatFilesystem.Usable, FatFilesystem.VolumeOk, HandleParked;
    }

    /** What transfers may change. */
    ghost function Now(): (r: Reach)
      requires StoreOk()
      reads this`disk, this`cache, this`handles, this`sizeCells, fat
      ensures r.view == CurrentView() && r.handles == handles && r.cells == sizeCells
    {
      Reach(CurrentView(), handles, sizeCells)
    }

    /** A handle is parked on a lost chain, at the index of a position that comes before its end at `edge`. */
    ghost predicate Astray(h: nat, position: nat, t: nat, base: int, edge: nat)
      requires h in handles && g.BytesPerCluster() > 0
      reads this`handles, this`chains, this`lost
    {
      && t in lost && StandsOn(chains, handles[h], t, base) && edge == (base + |chains[t]|) * g.BytesPerCluster()
      && handles[h].helper.clusterIndex == position / g.BytesPerCluster() && position < edge
    }

    /** A handle is ready for a write at `position`: before `edge` it is astray, from there on it is on its file. */
    ghost predicate Ready(h: nat, position: nat, t: nat, base: int, edge: nat)
      requires h in handles && g.BytesPerCluster() > 0
      reads this`handles, this`chains, this`lost
    {
      if position < edge then Astray(h, position, t, base, edge) else Settled(h, position)
    }

    /**
     A write within the size of the file.  One that is astray changes no byte of the file and ends with the
     lost chain; any other is complete.
     */
    method Put(h: nat, position: nat, bytes: seq<Byte>, ghost t: nat, ghost base: int, ghost edge: nat)
      returns (accessed: nat)
      requires ValidBut(h) && h in handles && g.BytesPerCluster() > 0 && t in chains
      requires position + |bytes| <= handles[h].inode.size
      requires position < handles[h].inode.size ==> Ready(h, position, t, base, edge)
      modifies this`disk, this`cache, this`sizeCells, this`handles, fat`dirty, fat`bitmap
      ensures ValidBut(h) && h in handles && Within(old(Now()), Now(), h, FileChain(h) + chains[t])
      ensures position < handles[h].inode.size && edge <= position ==>
        Valid() && StandsOn(chains, handles[h], handles[h].inode.startCluster, 0)
      ensures position >= handles[h].inode.size ==> handles == old(handles)
      ensures accessed == Landed(|bytes|, position, edge)
      ensures position < edge ==> FileBytes(h) == old(FileBytes(h))
      ensures position < edge && position < handles[h].inode.size ==> Ready(h, position + accessed, t, base, edge)
      ensures edge <= position ==> FileBytes(h) == Splice(old(FileBytes(h)), position, bytes)
      ensures edge <= position && bytes != [] && AloneOn(old(handles), FileChain(h), h) ==> SizeKept(h)
    {
      hide FatFilesystem.ValidBut, FatFilesystem.Valid, FatFilesystem.Usable, FatFilesystem.VolumeOk,
           FatFilesystem.CurrentView, FatFilesystem.BytesOf, CellsKept, Geometry.BytesPerCluster, StandsOn, EndsAt,
           SameElsewhere, ClustersFor, FatFilesystem.Settled, FatFilesystem.SizeKept, AloneOn, Splice, Transferred,
           FatFilesystem.Astray, StartIn, FatFilesystem.Ready, FatFilesystem.Arrives, ChainBytes, ViewCovers;
      HandleInChains(h);
      ghost var s := handles[h].inode.startCluster;
      ghost var chain, from, off := PutPlace(h, position, t, base, edge);
      ghost var (before, view, bytesBefore) := (BytesOf(chain), CurrentView(), BytesOf(s));
      BytesAre(s);
      var data;
      accessed, data := ReadWriteFile(h, position, Write(bytes), chain, from, off);
      HandleInChains(h);
      SameElsewhereWider(old(CurrentView()), CurrentView(), chains[s], chains[t],
                         position < edge && position < handles[h].inode.size);
      if position < edge && position < handles[h].inode.size {
        AstrayAfter(h, position, accessed, t, base, edge, off);
        OtherBytes(t, s, view, bytesBefore);
      } else {
        WrittenWhole(before, BytesOf(s), position, bytes, accessed, data);
        if position < handles[h].inode.size {
          StandsIsValid(h);
        }
      }
    }

    lemma PutPlace(h: nat, position: nat, t: nat, base: int, edge: nat) returns (chain: nat, from: int, off: nat)
      requires Usable() && h in handles && g.BytesPerCluster() > 0 && t in chains
      requires position < handles[h].inode.size ==> Ready(h, position, t, base, edge)
      ensures chain in chains && (position < handles[h].inode.size ==> Arrives(h, position, chain, from, off))
      ensures if position < edge && position < handles[h].inode.size
              then chain == t && from == base && off + base * g.BytesPerCluster() == position
              else chain == handles[h].inode.startCluster && from == 0 && off == position
      ensures position < edge && position < handles[h].inode.size ==>
        |BytesOf(t)| - off == edge - position && t in lost && edge == (base + |chains[t]|) * g.BytesPerCluster()
    {
      hide FatFilesystem.VolumeOk, FatFilesystem.Usable, Geometry.BytesPerCluster, FatFilesystem.BytesOf;
      HandleInChains(h);
      chain, from, off := handles[h].inode.startCluster, 0, position;
      if position < edge && position < handles[h].inode.size {
        off := AstrayArrives(h, position, t, base, edge);
        chain, from := t, base;
      }
    }

    lemma AstrayArrives(h: nat, position: nat, t: nat, base: int, edge: nat) returns (off: nat)
      requires Usable() && h in handles && g.BytesPerCluster() > 0 && Astray(h, position, t, base, edge)
      ensures t in chains && Arrives(h, position, t, base, off) && off + base * g.BytesPerCluster() == position
      ensures |BytesOf(t)| - off == edge - position
    {
      hide Geometry.BytesPerCluster, FatFilesystem.VolumeOk, FatFilesystem.CurrentView;
      var b := g.BytesPerCluster();
      var i := handles[h].helper.clusterIndex;
      DivBounds(position, b);
      assert (i - base) * b == i * b - base * b;
      assert (base + |chains[t]|) * b == base * b + |chains[t]| * b;
      off := StartIn(handles[h], base, b) + position % b;
    }

    lemma AstrayAfter(h: nat, position: nat, accessed: nat, t: nat, base: int, edge: nat, off: nat)
      requires Usable() && h in handles && g.BytesPerCluster() > 0 && t in lost && position + accessed <= edge
      requires StandsOn(chains, handles[h], t, base) && edge == (base + |chains[t]|) * g.BytesPerCluster()
      requires off + base * g.BytesPerCluster() == position
      requires EndsAt(handles[h], base, g.BytesPerCluster(), off + accessed, |BytesOf(t)|)
      ensures Ready(h, position + accessed, t, base, edge)
    {
      hide Geometry.BytesPerCluster, FatFilesystem.VolumeOk, FatFilesystem.Usable, FatFilesystem.CurrentView;
      var b := g.BytesPerCluster();
      BytesLength(t);
      IndexAfter(handles[h], base, b, |chains[t]|, position, off, accessed);
    }

    lemma BytesLength(t: nat)
      requires VolumeOk() && t in chains
      ensures |BytesOf(t)| == |chains[t]| * g.BytesPerCluster()
    {
      hide FatFilesystem.StoreOk, ChainsOk;
    }

    /** Writing into one chain leaves the bytes of another. */
    lemma OtherBytes(t: nat, s: nat, before: View, bytes: seq<Byte>)
      requires VolumeOk() && t in chains && s in chains && s != t && SameElsewhere(before, CurrentView(), chains[t])
      requires ViewCovers(before, g.BytesPerCluster(), chains[s]) ==>
        bytes == ChainBytes(before, g.BytesPerCluster(), chains[s])
      ensures BytesOf(s) == bytes
    {
      hide ViewOf, ChainBytes, IsChain, ViewCovers, SameElsewhere, FatFilesystem.StoreOk;
      ChainInView(s);
      OtherChainBytes(Table(), chains, t, s, before, CurrentView(), g.BytesPerCluster());
    }

    lemma BytesAre(s: nat)
      requires VolumeOk() && s in chains
      ensures ViewCovers(CurrentView(), g.BytesPerCluster(), chains[s])
      ensures BytesOf(s) == ChainBytes(CurrentView(), g.BytesPerCluster(), chains[s])
    {
      hide FatFilesystem.VolumeOk, FatFilesystem.CurrentView;
      ChainInView(s);
    }

    /** A chunk of `n` zeros at `at`. */
    method FillChunk(h: nat, at: nat, n: nat, ghost t: nat, ghost base: int, ghost edge: nat, ghost before: seq<Byte>)
      requires ValidBut(h) && h in handles && g.BytesPerCluster() > 0 && t in chains && n > 0
        && at + n <= handles[h].inode.size
      requires if edge < at then Valid() && h !in astray else Ready(h, at, t, base, edge)
      requires at < edge ==> at + n <= edge
      requires at + n <= |before| && FileBytes(h) == ZeroedPast(before, edge, at)
      modifies this`disk, this`cache, this`sizeCells, this`handles, fat`dirty, fat`bitmap
      ensures ValidBut(h) && h in handles && Within(old(Now()), Now(), h, FileChain(h) + chains[t])
      ensures handles[h].inode == old(handles[h].inode) && FileChain(h) == old(FileChain(h))
      ensures if edge < at + n then Valid() else Ready(h, at + n, t, base, edge)
      ensures FileBytes(h) == ZeroedPast(before, edge, at + n)
    {
      hide FatFilesystem.ValidBut, FatFilesystem.Valid, FatFilesystem.Usable, FatFilesystem.VolumeOk,
           FatFilesystem.FileBytes, FatFilesystem.FileChain, FatFilesystem.Now, Geometry.BytesPerCluster, Zeros,
           ZeroedPast, Within, Landed, FatFilesystem.SizeKept, AloneOn, Splice, FatFilesystem.Ready,
           FatFilesystem.BytesOf, StandsOn;
      ghost var (now, bytes) := (Now(), FileBytes(h));
      if edge < at {
        ValidReady(h, at, t, base, edge);
      }
      FileIs(h);
      var accessed := Put(h, at, Zeros(n), t, base, edge);
      WithinHandles(now, Now(), h, FileChain(h) + chains[t]);
      FileIs(h);
      LandsWhole(n, at, edge);
      ZeroedMore(before, edge, at, n, bytes, FileBytes(h));
    }

    /** Fills `[from, to)` of a file with zeros, a sector's worth at a time; before `edge` they go astray. */
    method ZeroFill(h: nat, from: nat, to: nat, ghost t: nat, ghost base: int, ghost edge: nat)
      requires ValidBut(h) && h in handles && g.BytesPerCluster() > 0 && t in chains
        && from < to <= handles[h].inode.size
      requires Ready(h, from, t, base, edge) && from <= edge && h !in astray
      requires from < edge ==> from % g.BytesPerCluster() == 0
      modifies this`disk, this`cache, this`sizeCells, this`handles, fat`dirty, fat`bitmap
      ensures ValidBut(h) && h in handles && Within(old(Now()), Now(), h, FileChain(h) + chains[t])
      ensures if edge < to then Valid() else Ready(h, to, t, base, edge)
      ensures to <= |FileBytes(h)| && FileBytes(h) == ZeroedPast(old(FileBytes(h)), edge, to)
    {
      hide FatFilesystem.ValidBut, FatFilesystem.Valid, FatFilesystem.Usable, FatFilesystem.VolumeOk,
           FatFilesystem.FileBytes, FatFilesystem.FileChain, FatFilesystem.Now, Geometry.BytesPerCluster, ZeroedPast,
           Within, FatFilesystem.Ready;
      SectorPositive();
      EdgeAligned(h, from, t, base, edge);
      var (written, count) := (0, to - from);
      ghost var (i, before, start, frame) := (0, FileBytes(h), Now(), FileChain(h) + chains[t]);
      NothingZeroed(before, edge, from);
      WithinItself(start, h, frame);
      while written < count
        invariant 0 <= written <= count && ValidBut(h) && h in handles && handles[h].inode == old(handles[h].inode)
        invariant written < count ==> written == i * g.bytesPerSector
        invariant FileBytes(h) == ZeroedPast(before, edge, from + written)
        invariant if edge < from + written then Valid() else Ready(h, from + written, t, base, edge)
        invariant Within(start, Now(), h, frame) && FileChain(h) + chains[t] == frame
      {
        var toWrite := if g.bytesPerSector < count - written then g.bytesPerSector else count - written;
        ghost var now := Now();
        ChunkBeforeEdge(from, edge, g.bytesPerSector, i, from + written, toWrite);
        FillChunk(h, from + written, toWrite, t, base, edge, before);
        WithinTwice(start, now, Now(), h, frame);
        assert (i + 1) * g.bytesPerSector == i * g.bytesPerSector + g.bytesPerSector;
        written, i := written + toWrite, i + 1;
      }
    }

    lemma FileIs(h: nat)
      requires Usable() && h in handles
      ensures handles[h].inode.startCluster in chains && FileChain(h) == chains[handles[h].inode.startCluster]
      ensures FileBytes(h) == BytesOf(handles[h].inode.startCluster)
    {
      hide FatFilesystem.Usable;
      FileInView(h);
    }

    lemma ValidReady(h: nat, position: nat, t: nat, base: int, edge: nat)
      requires Valid() && h in handles && h !in astray && g.BytesPerCluster() > 0
      requires edge <= position < handles[h].inode.size
      ensures Ready(h, position, t, base, edge)
    {
      ValidSettled(h, position);
    }

    /** The end of a lost chain and the end of a file that fills its clusters are both whole sectors. */
    lemma EdgeAligned(h: nat, from: nat, t: nat, base: int, edge: nat)
      requires VolumeOk() && h in handles && g.BytesPerCluster() > 0 && Ready(h, from, t, base, edge)
      requires from <= edge && (from < edge ==> from % g.BytesPerCluster() == 0)
      ensures from < edge ==> from % g.bytesPerSector == 0 && edge % g.bytesPerSector == 0
    {
      hide FatFilesystem.VolumeOk, FatFilesystem.Ready;
      SectorPositive();
      if from < edge {
        EdgeIs(h, from, t, base, edge);
        DivBounds(from, g.BytesPerCluster());
        WholeSectors(from / g.BytesPerCluster(), g.sectorsPerCluster, g.bytesPerSector, from);
        WholeSectors(base + |chains[t]|, g.sectorsPerCluster, g.bytesPerSector, edge);
      }
    }

    lemma EdgeIs(h: nat, from: nat, t: nat, base: int, edge: nat)
      requires h in handles && g.BytesPerCluster() > 0 && Ready(h, from, t, base, edge) && from < edge
      ensures t in chains && edge == (base + |chains[t]|) * g.BytesPerCluster()
    {
      hide Geometry.BytesPerCluster;
    }

    lemma SectorPositive()
      requires VolumeOk()
      ensures g.bytesPerSector > 0
    {
    }

    /** A resize keeps the bytes the file has at both sizes, and all other files. */
    method Resize(h: nat, size: nat) returns (ok: bool, ghost added: seq<nat>)
      requires ValidBut(h) && h in handles && size < U32 && g.BytesPerCluster() > 0
      requires MayResize(handles, h, size, g.BytesPerCluster())
      modifies fat, this`chains, this`lost, this`handles
      ensures ValidBut(h) && h in handles && CurrentView() == old(CurrentView())
      ensures OthersSame(old(Layout()), old(CurrentView()), Layout(), CurrentView(), old(handles[h].inode.startCluster))
      ensures old(Valid()) && h !in astray ==>
        !(ok && LeftBehind(old(handles[h]), size, g.BytesPerCluster())) ==> Valid()
      ensures ok <==>
        ClustersFor(size, g.BytesPerCluster()) - ClustersFor(old(handles[h].inode.size), g.BytesPerCluster())
        <= |FreeClusters(old(Table()))|
      ensures handles == old(handles)[h := old(handles[h]).(inode := FileNode(old(handles[h].inode.startCluster),
                if ok then size else old(handles[h].inode.size)))]
      ensures Common(Contents(h), old(Contents(h)))
      ensures Resized(old(Layout()), Layout(), old(handles[h].inode.startCluster),
                      ClustersFor(old(handles[h].inode.size), g.BytesPerCluster()),
                      ClustersFor(size, g.BytesPerCluster()), ok, added)
    {
      hide FatFilesystem.ValidBut, FatFilesystem.Valid, FatFilesystem.Usable, FatFilesystem.VolumeOk,
           FatFilesystem.StoreOk, ViewOf, ChainBytes, FreeClusters, ClustersFor, ClustersKept, Resized, IsChain,
           ViewCovers, MayResize, Common, LeftBehind, OthersSame, FatFilesystem.CurrentView, FatFilesystem.BytesOf,
           ChainsOk, Geometry.BytesPerCluster;
      ghost var (s, oldSize, b) := (handles[h].inode.startCluster, handles[h].inode.size, g.BytesPerCluster());
      HandleInChains(h);
      ghost var (before, entries, view, bytes) := (Layout(), Table(), CurrentView(), BytesOf(s));
      BytesAre(s);
      ChainsAre();
      AllInView();
      ok, added := SetFileSize(h, size);
      HandleInChains(h);
      ResizedPrefix(entries, before, Layout(), s, oldSize, size, b, ok, added);
      OthersResized(entries, before, Layout(), view, s, ClustersFor(oldSize, b), ClustersFor(size, b), ok, added);
      BytesAre(s);
      ChainBytesPrefix(view, b, before.chains[s], chains[s], ClustersKept(oldSize, size, b),
                       if size < oldSize then size else oldSize);
      CommonPrefix(BytesOf(s), handles[h].inode.size, bytes, oldSize, if size < oldSize then size else oldSize);
    }

    /** Makes room for a write that reaches past the end; what the file held before stays. */
    method EnsureSize(h: nat, newSize: nat) returns (ok: bool, ghost added: seq<nat>)
      requires Valid() && h in handles && newSize < U32 && g.BytesPerCluster() > 0
      requires newSize > handles[h].inode.size ==>
        h !in astray && MayResize(handles, h, newSize, g.BytesPerCluster())
      modifies fat, this`chains, this`lost, this`handles
      ensures ValidBut(h) && h in handles && CurrentView() == old(CurrentView())
      ensures OthersSame(old(Layout()), old(CurrentView()), Layout(), CurrentView(), old(handles[h].inode.startCluster))
      ensures (ok && newSize > old(handles[h].inode.size) ==>
                 !LeftBehind(old(handles[h]), newSize, g.BytesPerCluster())) ==> Valid()
      ensures ok <==>
        ClustersNeeded(old(handles[h].inode.size), newSize, g.BytesPerCluster()) <= |FreeClusters(old(Table()))|
      ensures handles == old(handles)[h := old(handles[h]).(inode := FileNode(old(handles[h].inode.startCluster),
                if ok && newSize > old(handles[h].inode.size) then newSize else old(handles[h].inode.size)))]
      ensures Contents(h)[..old(handles[h].inode.size)] == old(Contents(h))
      ensures newSize > old(handles[h].inode.size) ==>
        Resized(old(Layout()), Layout(), old(handles[h].inode.startCluster),
                ClustersFor(old(handles[h].inode.size), g.BytesPerCluster()),
                ClustersFor(newSize, g.BytesPerCluster()), ok, added)
      ensures newSize <= old(handles[h].inode.size) ==> chains == old(chains)
    {
      hide FatFilesystem.ValidBut, FatFilesystem.Valid, FatFilesystem.Usable, FatFilesystem.VolumeOk,
           FatFilesystem.Contents, FreeClusters, ClustersFor, MayResize, Resized, LeftBehind,
           FatFilesystem.CurrentView, FatFilesystem.BytesOf, OthersSame;
      AllInView();
      OthersItself(Layout(), CurrentView(), handles[h].inode.startCluster);
      ok, added := true, [];
      if newSize > handles[h].inode.size {
        ok, added := Resize(h, newSize);
      }
    }

    /**
     Zeroes the gap between the end at `size` and `position`, then writes, all within the file.  What comes
     before `edge` goes astray, and a write that starts there ends there.
     */
    method FillAndWrite(h: nat, size: nat, position: nat, bytes: seq<Byte>, ghost t: nat, ghost base: int,
                        ghost edge: nat)
      returns (accessed: nat)
      requires ValidBut(h) && h in handles && g.BytesPerCluster() > 0 && t in chains
      requires size <= handles[h].inode.size && position + |bytes| <= handles[h].inode.size
      requires (position > size ==> h !in astray) && Aimed(h, size, position, t, base, edge)
      modifies this`disk, this`cache, this`sizeCells, this`handles, fat`dirty, fat`bitmap
      ensures ValidBut(h) && h in handles && Within(old(Now()), Now(), h, FileChain(h) + chains[t])
      ensures old(Valid()) && edge <= size && edge <= position ==> Valid()
      ensures edge <= size && size < handles[h].inode.size && edge <= position ==> Valid()
      ensures accessed == Landed(|bytes|, position, edge)
      ensures FileBytes(h) == WrittenPast(old(FileBytes(h)), size, edge, position, bytes)
      ensures edge <= position && bytes != [] ==> StandsOn(chains, handles[h], handles[h].inode.startCluster, 0)
      ensures edge <= position && bytes != [] && AloneOn(old(handles), FileChain(h), h) ==> SizeKept(h)
    {
      hide FatFilesystem.ValidBut, FatFilesystem.Valid, FatFilesystem.Usable, FatFilesystem.VolumeOk,
           FatFilesystem.FileBytes, FatFilesystem.FileChain, FatFilesystem.Now, Geometry.BytesPerCluster, ZeroedPast,
           Within, Landed, WrittenPast, FatFilesystem.SizeKept, AloneOn, Splice, FatFilesystem.Ready;
      ghost var (before, start, frame) := (FileBytes(h), Now(), FileChain(h) + chains[t]);
      WithinItself(start, h, frame);
      FileIs(h);
      if position > size {
        ZeroFill(h, size, position, t, base, edge);
        WithinHandles(start, Now(), h, FileChain(h) + chains[t]);
        FileIs(h);
        if edge < position < handles[h].inode.size {
          ValidReady(h, position, t, base, edge);
        }
      }
      AloneMoved(old(handles), handles, FileChain(h), h);
      ghost var now := Now();
      PutIsWrittenPast(before, size, edge, position, bytes);
      label Filled:
      accessed := Put(h, position, bytes, t, base, edge);
      WithinHandles(now, Now(), h, FileChain(h) + chains[t]);
      FileIs(h);
      WithinTwice(start, now, Now(), h, frame);
      if position >= handles[h].inode.size && old@Filled(Valid()) {
        StillValid@Filled();
      }
    }

    /** A handle is ready for the first access of a write, and astray only if the file ended with a cluster. */
    ghost predicate Aimed(h: nat, size: nat, position: nat, t: nat, base: int, edge: nat)
      requires h in handles && g.BytesPerCluster() > 0
      reads this`handles, this`chains, this`lost
    {
      var first := if position > size then size else position;
      && (first < handles[h].inode.size ==> Ready(h, first, t, base, edge)) && first <= edge
      && (first < edge ==> first == size < handles[h].inode.size && size % g.BytesPerCluster() == 0)
    }

    /**
     `write_file`: the file behaves as a plain byte sequence.  The write fails exactly when the clusters it
     needs are not free, and then the file holds what it held.

     There is one exception.  If the write strays, its handle is parked at the index of the first new cluster,
     on a cluster that is not in the longer chain.  What the write has for the file up to `edge`, the end of
     the chain of that cluster, goes there, and the file has the bytes that the new clusters held before.  The
     handle is then astray; all other files and handles are as good as before.  A handle that is astray writes
     within its file wherever it is not parked already.
     */
    method WriteFile(h: nat, position: nat, bytes: seq<Byte>)
      returns (r: Option<nat>, ghost edge: nat, ghost added: seq<nat>)
      requires Valid() && h in handles && position + |bytes| < U32 && g.BytesPerCluster() > 0
      requires h in astray ==> position + |bytes| <= handles[h].inode.size && FindsFile(h, position)
      requires position + |bytes| > handles[h].inode.size ==>
        MayResize(handles, h, position + |bytes|, g.BytesPerCluster())
      requires Strays(handles[h], position, |bytes|, g.BytesPerCluster()) ==> Tracked(chains, lost, handles[h])
      modifies this`disk, this`cache, this`sizeCells, this`handles, this`chains, this`lost, this`astray, fat
      ensures Valid() && h in handles && handles == old(handles)[h := handles[h]]
      ensures astray == if r.Some? && old(Strays(handles[h], position, |bytes|, g.BytesPerCluster()))
                        then old(astray) + {h} else old(astray)
      ensures handles[h].inode == FileNode(old(handles[h].inode.startCluster),
                if r.Some? && position + |bytes| > old(handles[h].inode.size) then position + |bytes|
                else old(handles[h].inode.size))
      ensures OthersSame(old(Layout()), old(CurrentView()), Layout(), CurrentView(), handles[h].inode.startCluster)
      ensures r.Some? <==>
        ClustersNeeded(old(handles[h].inode.size), position + |bytes|, g.BytesPerCluster())
        <= |FreeClusters(old(Table()))|
      ensures r.None? ==> Contents(h) == old(Contents(h)) && sizeCells == old(sizeCells)
      ensures r.Some? && !old(Strays(handles[h], position, |bytes|, g.BytesPerCluster())) ==>
        r.value == |bytes| && IsWritten(old(Contents(h)), Contents(h), position, bytes)
      ensures r.Some? && old(Strays(handles[h], position, |bytes|, g.BytesPerCluster())) ==>
        && WentAstray(old(Contents(h)), Contents(h), old(CurrentView()), g.BytesPerCluster(), added, edge, position,
                      bytes, r.value)
        && Elements(added) <= FreeClusters(old(Table()))
      ensures CellsKept(old(sizeCells), sizeCells, handles[h].inode)
      ensures r.Some? && !old(Strays(handles[h], position, |bytes|, g.BytesPerCluster())) && bytes != [] ==>
        && StandsOn(chains, handles[h], handles[h].inode.startCluster, 0)
        && (AloneOn(old(handles), FileChain(h), h) ==> SizeKept(h))
      ensures Elements(FileChain(h)) <= Elements(old(FileChain(h))) + FreeClusters(old(Table()))
    {
      hide FatFilesystem.ValidBut, FatFilesystem.Valid, FatFilesystem.Usable, FatFilesystem.VolumeOk,
           FatFilesystem.CurrentView, FatFilesystem.BytesOf, FatFilesystem.FileBytes, FatFilesystem.FileChain,
           FatFilesystem.SizeKept, FatFilesystem.Aimed, FatFilesystem.Now, CellsKept, AloneOn,
           Geometry.BytesPerCluster, WrittenPast, IsWritten, Landed, Within, WentAstray, FreeClusters, ClustersNeeded,
           ClustersFor, MayResize, Resized, Strays, Tracked, LeftBehind, ChainBytes, ViewCovers, Elements, OthersSame,
           HeldBy, HandleSized, ChainsOk, FatFilesystem.Contents, FatFilesystem.Layout, FatFilesystem.Table;
      var currentSize := handles[h].inode.size;
      var o := handles[h];
      ghost var (before, entries, was, view) := (Layout(), Table(), Contents(h), CurrentView());
      Opened(h);
      Holds(h);
      FileIs(h);
      var ok;
      ok, added := EnsureSize(h, position + |bytes|);
      CellsUnchanged(sizeCells, handles[h].inode);
      StaysWithin(h, o, entries, before, position + |bytes|, ok, added);
      if !ok {
        assert Contents(h)[..currentSize] == Contents(h);
        return None, 0, added;
      }
      GrowsTo(h, o, position + |bytes|);
      ghost var sized := Layout();
      AloneMoved(old(handles), handles, FileChain(h), h);
      var accessed;
      accessed, edge := WriteGrown(h, position, bytes, o, entries, before, was, added);
      OthersTwice(before, view, sized, view, Layout(), CurrentView(), o.inode.startCluster);
      r := Some(accessed);
    }

    /** The write itself, in a file that is long enough: `o` is its handle and `was` what the file held before. */
    method WriteGrown(h: nat, position: nat, bytes: seq<Byte>, o: OpenFile, ghost entries: seq<FatEntry>,
                      ghost before: VolumeLayout, ghost was: seq<Byte>, ghost added: seq<nat>)
      returns (accessed: nat, ghost edge: nat)
      requires ValidBut(h) && h in handles && g.BytesPerCluster() > 0 && GrownFor(h, o, position + |bytes|)
      requires h in astray ==> position + |bytes| <= o.inode.size && FindsFile(h, position)
      requires HandleSized(before.chains, before.lost, g.BytesPerCluster(), o)
      requires ChainsOk(entries, before.chains) && before.lost <= before.chains.Keys
        && before.free == FreeClusters(entries)
      requires position + |bytes| > o.inode.size ==>
        Resized(before, Layout(), o.inode.startCluster, ClustersFor(o.inode.size, g.BytesPerCluster()),
                ClustersFor(position + |bytes|, g.BytesPerCluster()), true, added)
      requires Strays(o, position, |bytes|, g.BytesPerCluster()) ==> Tracked(before.chains, before.lost, o)
      requires HeldBy(was, CurrentView(), g.BytesPerCluster(), before.chains[o.inode.startCluster], o.inode.size)
      requires Contents(h)[..o.inode.size] == was
      modifies this`disk, this`cache, this`sizeCells, this`handles, this`astray, fat`dirty, fat`bitmap
      ensures Valid() && h in handles && OnlyMoved(old(handles), handles, h)
      ensures astray == if Strays(o, position, |bytes|, g.BytesPerCluster()) then old(astray) + {h} else old(astray)
      ensures FileChain(h) == old(FileChain(h)) && CellsKept(old(sizeCells), sizeCells, handles[h].inode)
      ensures OthersSame(old(Layout()), old(CurrentView()), Layout(), CurrentView(), handles[h].inode.startCluster)
      ensures if Strays(o, position, |bytes|, g.BytesPerCluster())
              then && WentAstray(was, Contents(h), old(CurrentView()), g.BytesPerCluster(), added, edge, position,
                                 bytes, accessed)
                   && Elements(added) <= before.free
              else accessed == |bytes| && IsWritten(was, Contents(h), position, bytes)
      ensures !Strays(o, position, |bytes|, g.BytesPerCluster()) && bytes != [] ==>
        && StandsOn(chains, handles[h], handles[h].inode.startCluster, 0)
        && (AloneOn(old(handles), FileChain(h), h) ==> SizeKept(h))
    {
      hide FatFilesystem.ValidBut, FatFilesystem.Valid, FatFilesystem.Usable, FatFilesystem.VolumeOk,
           FatFilesystem.CurrentView, FatFilesystem.BytesOf, FatFilesystem.FileBytes, FatFilesystem.FileChain,
           FatFilesystem.SizeKept, FatFilesystem.Aimed, FatFilesystem.Now, CellsKept, AloneOn,
           Geometry.BytesPerCluster, WrittenPast, IsWritten, Landed, Within, WentAstray, FreeClusters,
           ClustersFor, Resized, Strays, Tracked, LeftBehind, ChainBytes, ViewCovers, Elements, OthersSame,
           HeldBy, HandleSized, ChainsOk, FatFilesystem.Contents, FatFilesystem.Layout, FatFilesystem.Table;
      ghost var (strays, view, sized) := (Strays(o, position, |bytes|, g.BytesPerCluster()), CurrentView(), Layout());
      ghost var t, base;
      t, base, edge := Aim(h, o, entries, before, position, |bytes|, added);
      ghost var (start, data) := (Now(), FileBytes(h));
      Opened(h);
      if strays {
        StraysPast(o, position, |bytes|, g.BytesPerCluster());
        GrownBytes(h, o, entries, before, was, position, |bytes|, added);
      }
      assert data[..handles[h].inode.size][..o.inode.size] == data[..o.inode.size];
      FileIs(h);
      accessed := FillAndWrite(h, o.inode.size, position, bytes, t, base, edge);
      WithinHandles(start, Now(), h, FileChain(h) + chains[t]);
      FileIs(h);
      WriteDone(h, o, entries, before, position, bytes, added, edge, data, was, view, accessed);
      OthersUnder(h, t, sized, start.view);
      GoesAstray(h, strays);
    }

    /** A handle after its file has been made long enough: it is well parked, or left behind. */
    ghost predicate GrownFor(h: nat, o: OpenFile, newSize: nat)
      requires h in handles && g.BytesPerCluster() > 0
      reads this, fat
    {
      && handles[h] == o.(inode := FileNode(o.inode.startCluster,
                                            if newSize > o.inode.size then newSize else o.inode.size))
      && (Valid() || (newSize > o.inode.size && LeftBehind(o, newSize, g.BytesPerCluster())))
    }

    lemma GrowsTo(h: nat, o: OpenFile, newSize: nat)
      requires h in handles && g.BytesPerCluster() > 0
      requires handles[h] == o.(inode := FileNode(o.inode.startCluster,
                                                  if newSize > o.inode.size then newSize else o.inode.size))
      requires (newSize > o.inode.size ==> !LeftBehind(o, newSize, g.BytesPerCluster())) ==> Valid()
      ensures GrownFor(h, o, newSize)
    {
      hide FatFilesystem.Valid, LeftBehind;
    }

    ghost method GoesAstray(h: nat, strays: bool)
      requires ValidBut(h) && h in handles && (!strays ==> Valid())
      modifies this`astray
      ensures Valid() && astray == if strays then old(astray) + {h} else old(astray)
    {
      hide FatFilesystem.VolumeOk, AllSized, CountsOk, AllParked;
      if strays {
        astray := astray + {h};
      }
    }

    /** Facts about an open file that its operations start from. */
    lemma Opened(h: nat)
      requires Usable() && h in handles
      ensures g.BytesPerCluster() > 0 && HandleSized(chains, lost, g.BytesPerCluster(), handles[h])
      ensures ChainsOk(Table(), chains) && lost <= chains.Keys
      ensures Contents(h) == FileBytes(h)[..handles[h].inode.size]
    {
      hide HandleSized, ChainsOk;
    }

    lemma Holds(h: nat)
      requires Usable() && h in handles
      ensures handles[h].inode.startCluster in chains
      ensures HeldBy(Contents(h), CurrentView(), g.BytesPerCluster(), chains[handles[h].inode.startCluster],
                     handles[h].inode.size)
    {
      hide FatFilesystem.Usable, FatFilesystem.VolumeOk, FatFilesystem.CurrentView, ChainBytes, ViewCovers;
      HandleInChains(h);
      BytesAre(handles[h].inode.startCluster);
    }

    lemma StaysWithin(h: nat, o: OpenFile, entries: seq<FatEntry>, before: VolumeLayout, newSize: nat, ok: bool,
                      added: seq<nat>)
      requires Usable() && h in handles && g.BytesPerCluster() > 0
        && handles[h].inode.startCluster == o.inode.startCluster
      requires HandleSized(before.chains, before.lost, g.BytesPerCluster(), o)
      requires ChainsOk(entries, before.chains) && before.lost <= before.chains.Keys
        && before.free == FreeClusters(entries)
      requires if newSize <= o.inode.size then chains == before.chains
               else Resized(before, Layout(), o.inode.startCluster, ClustersFor(o.inode.size, g.BytesPerCluster()),
                            ClustersFor(newSize, g.BytesPerCluster()), ok, added)
      ensures Elements(FileChain(h)) <= Elements(before.chains[o.inode.startCluster]) + before.free
    {
      hide FatFilesystem.Usable, FatFilesystem.VolumeOk, Geometry.BytesPerCluster, ClustersFor, Resized, ChainsOk,
           FreeClusters, Elements;
      FileIs(h);
      if newSize > o.inode.size {
        ResizedWithin(entries, before, Layout(), o.inode.startCluster, ClustersFor(o.inode.size, g.BytesPerCluster()),
                      ClustersFor(newSize, g.BytesPerCluster()), ok, added);
      }
    }

    lemma OthersUnder(h: nat, t: nat, layout: VolumeLayout, before: View)
      requires Usable() && h in handles && t in chains && (t == handles[h].inode.startCluster || t in lost)
      requires SameElsewhere(before, CurrentView(), FileChain(h) + chains[t])
      requires layout.chains == chains && layout.lost == lost
      ensures OthersSame(layout, before, Layout(), CurrentView(), handles[h].inode.startCluster)
    {
      hide FatFilesystem.Usable, FatFilesystem.VolumeOk, SameElsewhere, OthersSame, ChainsOk,
           FatFilesystem.CurrentView;
      FileInView(h);
      ChainsAre();
      AllInView();
      SameKeys(before, CurrentView(), FileChain(h) + chains[t]);
      OthersWithin(Table(), layout, Layout().free, before, CurrentView(), handles[h].inode.startCluster, t);
      assert Layout() == layout.(free := Layout().free);
    }

    lemma AllInView()
      requires VolumeOk()
      ensures forall t, c :: t in chains && c in chains[t] ==> c in CurrentView()
    {
      hide FatFilesystem.VolumeOk, FatFilesystem.CurrentView;
      forall t | t in chains ensures forall c :: c in chains[t] ==> c in CurrentView() {
        ChainInView(t);
      }
    }

    /** What the file holds at the end of a write. */
    lemma WriteDone(h: nat, o: OpenFile, entries: seq<FatEntry>, before: VolumeLayout, position: nat, bytes: seq<Byte>,
                    added: seq<nat>, edge: nat, data: seq<Byte>, was: seq<Byte>, view: View, accessed: nat)
      requires Usable() && h in handles && g.BytesPerCluster() > 0
      requires var size := o.inode.size;
        && |was| == size <= |data| && data[..size] == was && position + |bytes| <= |data|
        && handles[h].inode.size == (if position + |bytes| > size then position + |bytes| else size)
        && FileBytes(h) == WrittenPast(data, size, edge, position, bytes) && accessed == Landed(|bytes|, position, edge)
      requires if Strays(o, position, |bytes|, g.BytesPerCluster())
               then edge > o.inode.size && ViewCovers(view, g.BytesPerCluster(), added)
                    && data == was + ChainBytes(view, g.BytesPerCluster(), added)
               else edge <= o.inode.size && edge <= position
      ensures if Strays(o, position, |bytes|, g.BytesPerCluster())
              then WentAstray(was, Contents(h), view, g.BytesPerCluster(), added, edge, position, bytes, accessed)
              else accessed == |bytes| && IsWritten(was, Contents(h), position, bytes)
    {
      hide FatFilesystem.Usable, Geometry.BytesPerCluster, WrittenPast, Written, IsWritten, ChainBytes, ViewCovers,
           WentAstray, Strays, FatFilesystem.FileBytes;
      Opened(h);
      if Strays(o, position, |bytes|, g.BytesPerCluster()) {
        StraysPast(o, position, |bytes|, g.BytesPerCluster());
        IsAstray(data, was, Contents(h), view, g.BytesPerCluster(), added, edge, position, bytes, accessed);
      } else {
        StraightIsWritten(data, o.inode.size, edge, position, bytes, handles[h].inode.size);
        WrittenBytes(was, position, bytes);
      }
    }

    /** The file of a write that strays, once it is longer: what it held, and what the new clusters held. */
    lemma GrownBytes(h: nat, o: OpenFile, entries: seq<FatEntry>, before: VolumeLayout, was: seq<Byte>, position: nat,
                     length: nat, added: seq<nat>)
      requires Usable() && h in handles && g.BytesPerCluster() > 0
        && handles[h].inode.startCluster == o.inode.startCluster
      requires HandleSized(before.chains, before.lost, g.BytesPerCluster(), o)
      requires ChainsOk(entries, before.chains) && before.lost <= before.chains.Keys
        && before.free == FreeClusters(entries)
      requires Resized(before, Layout(), o.inode.startCluster, ClustersFor(o.inode.size, g.BytesPerCluster()),
                       ClustersFor(position + length, g.BytesPerCluster()), true, added)
      requires Strays(o, position, length, g.BytesPerCluster())
      requires HeldBy(was, CurrentView(), g.BytesPerCluster(), before.chains[o.inode.startCluster], o.inode.size)
      ensures ViewCovers(CurrentView(), g.BytesPerCluster(), added) && Elements(added) <= before.free
      ensures FileBytes(h) == was + ChainBytes(CurrentView(), g.BytesPerCluster(), added)
    {
      hide FatFilesystem.Usable, FatFilesystem.VolumeOk, FatFilesystem.CurrentView, Geometry.BytesPerCluster, Resized,
           ClustersFor, ChainsOk, FreeClusters, ChainBytes, ViewCovers, FatFilesystem.FileBytes,
           FatFilesystem.BytesOf, Elements;
      var (b, s, current) := (g.BytesPerCluster(), o.inode.startCluster,
                              ClustersFor(o.inode.size, g.BytesPerCluster()));
      ResizedKeeps(entries, before, Layout(), s, current, ClustersFor(position + length, b), true, added);
      ResizedOk(before, Layout(), s, current, ClustersFor(position + length, b), true, added);
      FileIs(h);
      BytesAre(s);
      GrownChainBytes(CurrentView(), b, before.chains[s], current, added, o.inode.size);
    }

    /** Where the first access of a write goes once its file is long enough. */
    lemma Aim(h: nat, o: OpenFile, entries: seq<FatEntry>, before: VolumeLayout, position: nat, length: nat,
              added: seq<nat>)
      returns (t: nat, base: int, edge: nat)
      requires ValidBut(h) && h in handles && g.BytesPerCluster() > 0 && GrownFor(h, o, position + length)
      requires h in astray ==> position + length <= o.inode.size && FindsFile(h, position)
      requires HandleSized(before.chains, before.lost, g.BytesPerCluster(), o)
      requires ChainsOk(entries, before.chains) && before.lost <= before.chains.Keys
        && before.free == FreeClusters(entries)
      requires position + length > o.inode.size ==>
        Resized(before, Layout(), o.inode.startCluster, ClustersFor(o.inode.size, g.BytesPerCluster()),
                ClustersFor(position + length, g.BytesPerCluster()), true, added)
      requires Strays(o, position, length, g.BytesPerCluster()) ==> Tracked(before.chains, before.lost, o)
      ensures t in chains && (t == o.inode.startCluster || t in lost) && Aimed(h, o.inode.size, position, t, base, edge)
      ensures if Strays(o, position, length, g.BytesPerCluster()) then edge > o.inode.size
              else edge <= o.inode.size && edge <= position
    {
      hide FatFilesystem.ValidBut, FatFilesystem.Valid, FatFilesystem.Usable, FatFilesystem.VolumeOk,
           Geometry.BytesPerCluster, FatFilesystem.Aimed, FatFilesystem.Astray, Resized, Tracked, ClustersFor,
           LeftBehind, ChainsOk, FreeClusters, HandleSized, Strays;
      var b := g.BytesPerCluster();
      if Strays(o, position, length, b) {
        StraysPast(o, position, length, b);
        t, base, edge := AimAstray(h, o, entries, before, position, length, added);
        AimedAstray(h, o.inode.size, position, t, base, edge);
      } else {
        HandleInChains(h);
        t, base, edge := o.inode.startCluster, 0, if position > o.inode.size then o.inode.size else position;
        AimStraight(h, o, position, length, t);
      }
    }

    lemma AimStraight(h: nat, o: OpenFile, position: nat, length: nat, t: nat)
      requires ValidBut(h) && h in handles && g.BytesPerCluster() > 0 && GrownFor(h, o, position + length)
      requires h in astray ==> position + length <= o.inode.size && FindsFile(h, position)
      requires !Strays(o, position, length, g.BytesPerCluster())
      ensures Aimed(h, o.inode.size, position, t, 0, if position > o.inode.size then o.inode.size else position)
    {
      hide FatFilesystem.ValidBut, FatFilesystem.Valid, FatFilesystem.Usable, Geometry.BytesPerCluster,
           FatFilesystem.Settled, LeftBehind, Strays;
      var first := if position > o.inode.size then o.inode.size else position;
      if first < handles[h].inode.size && h !in astray {
        if Valid() {
          ValidSettled(h, first);
        } else {
          StraysExactly(o, position, length, g.BytesPerCluster());
          NotThere(h, first);
        }
      }
    }

    lemma AimedAstray(h: nat, size: nat, position: nat, t: nat, base: int, edge: nat)
      requires h in handles && g.BytesPerCluster() > 0 && Astray(h, size, t, base, edge)
        && size % g.BytesPerCluster() == 0
      requires size < handles[h].inode.size && size <= position
      ensures Aimed(h, size, position, t, base, edge)
    {
    }

    lemma NotThere(h: nat, position: nat)
      requires h in handles && g.BytesPerCluster() > 0
        && handles[h].helper.clusterIndex != position / g.BytesPerCluster()
      ensures Settled(h, position)
    {
    }

    /** A handle that strays is parked on a chain that is lost once the file is longer. */
    lemma AimAstray(h: nat, o: OpenFile, entries: seq<FatEntry>, before: VolumeLayout, position: nat, length: nat,
                    added: seq<nat>)
      returns (t: nat, base: int, edge: nat)
      requires Usable() && h in handles && g.BytesPerCluster() > 0
      requires handles[h] == o.(inode := FileNode(o.inode.startCluster, position + length))
      requires HandleSized(before.chains, before.lost, g.BytesPerCluster(), o)
      requires ChainsOk(entries, before.chains) && before.lost <= before.chains.Keys
        && before.free == FreeClusters(entries)
      requires Resized(before, Layout(), o.inode.startCluster, ClustersFor(o.inode.size, g.BytesPerCluster()),
                       ClustersFor(position + length, g.BytesPerCluster()), true, added)
      requires Strays(o, position, length, g.BytesPerCluster()) && Tracked(before.chains, before.lost, o)
      ensures t in chains && t in lost && edge > o.inode.size && Astray(h, o.inode.size, t, base, edge)
      ensures o.inode.size % g.BytesPerCluster() == 0
    {
      hide FatFilesystem.VolumeOk, Geometry.BytesPerCluster, Resized, ClustersFor, ChainsOk, FreeClusters;
      var (b, s, i) := (g.BytesPerCluster(), o.inode.startCluster, o.helper.clusterIndex);
      ResizedKeeps(entries, before, Layout(), s, i, ClustersFor(position + length, b), true, added);
      DivModOfSum(i, b, 0);
      if StandsOn(before.chains, o, s, 0) {
        t, base := before.chains[s][i], i;
      } else {
        t :| t in before.lost && t in before.chains && o.helper.currentCluster in before.chains[t];
        var j :| 0 <= j < |before.chains[t]| && before.chains[t][j] == o.helper.currentCluster;
        base := i - j;
      }
      MulMonotone(i + 1, base + |chains[t]|, b);
      assert (i + 1) * b == i * b + b;
      edge := (base + |chains[t]|) * b;
    }

    /**
     The `set_file_size` of the file system interface: resizes and records the size on disk.  What the
     file held up to the smaller of the two sizes stays; a longer file ends in whatever its new
     clusters hold.  A handle that is left behind is astray.
     */
    method SetSize(h: nat, size: nat) returns (ok: bool)
      requires Valid() && h in handles && size < U32 && g.BytesPerCluster() > 0
      requires MayResize(handles, h, size, g.BytesPerCluster())
      modifies this`disk, this`sizeCells, this`handles, this`chains, this`lost, this`astray, fat
      ensures Valid() && h in handles
      ensures astray == if ok && LeftBehind(old(handles[h]), size, g.BytesPerCluster()) then old(astray) + {h}
                        else old(astray)
      ensures OthersSame(old(Layout()), old(CurrentView()), Layout(), CurrentView(), old(handles[h].inode.startCluster))
      ensures ok <==>
        ClustersFor(size, g.BytesPerCluster()) - ClustersFor(old(handles[h].inode.size), g.BytesPerCluster())
        <= |FreeClusters(old(Table()))|
      ensures handles == old(handles)[h := old(handles[h]).(inode := FileNode(old(handles[h].inode.startCluster),
                if ok then size else old(handles[h].inode.size)))]
      ensures if ok then sizeCells == old(sizeCells)[old(handles[h].inode.startCluster) := size] && !fat.dirty
              else sizeCells == old(sizeCells)
      ensures Common(Contents(h), old(Contents(h)))
    {
      hide FatFilesystem.ValidBut, FatFilesystem.Valid, FatFilesystem.VolumeOk, FreeClusters, MayResize, Common,
           ClustersFor, ViewOf, ChainBytes, Resized, LeftBehind;
      ghost var added;
      if h in astray {
        StaysAstray(h);
      }
      ok, added := Resize(h, size);
      if h in astray {
        StaysAstray(h);
      }
      if ok {
        HandleInChains(h);
        FlushAfterResize(h);
        GoesAstray(h, LeftBehind(old(handles[h]), size, g.BytesPerCluster()));
      }
    }

    lemma StaysAstray(h: nat)
      requires h in astray
      ensures Valid() <==> ValidBut(h)
    {
      hide FatFilesystem.Usable, AllParked;
      assert astray + {h} == astray;
    }

    method FlushAfterResize(h: nat)
      requires ValidBut(h) && h in handles
      modifies this`disk, this`sizeCells, fat`dirty, fat`bitmap
      ensures ValidBut(h) && (old(Valid()) ==> Valid()) && CurrentView() == old(CurrentView()) && !fat.dirty
      ensures sizeCells == old(sizeCells)[handles[h].inode.startCluster := handles[h].inode.size]
    {
      hide Geometry.Covers, Geometry.BytesPerCluster, Fat.Valid, Fat.Tracks, CacheOk, ViewOf, ChainsOk, CountsOk,
           ClustersFor, HandleParked, AllSized, AllParked, SectorDirty, TableSector, SameClusters;
      Opened(h);
      FlushFat();
      CacheAcrossFlush(old(disk));
      sizeCells := sizeCells[handles[h].inode.startCluster := handles[h].inode.size % U32];
    }

    /** The disk holds the contents of a cluster. */
    ghost predicate IsOnDisk(c: nat)
      requires StoreOk()
      reads this`disk, this`cache, fat
    {
      g.IsCluster(c) && ClusterOnDisk(g, disk, c) == CurrentView()[c]
    }

    /**
     Writes back what a handle has changed in the cluster it is parked on, and records the size of its file if
     it has.
     */
    method FlushFile(h: nat)
      requires Valid() && h in handles
      modifies this`disk, this`cache, this`sizeCells, fat`dirty, fat`bitmap
      ensures Valid() && CurrentView() == old(CurrentView())
      ensures handles[h].helper.currentCluster != 0 ==> IsOnDisk(handles[h].helper.currentCluster)
      ensures CellsKept(old(sizeCells), sizeCells, handles[h].inode) && (old(SizeKept(h)) ==> Recorded(h))
    {
      hide Geometry.Covers, Geometry.BytesPerCluster, Fat.Valid, Fat.Tracks, ChainsOk, ClusterOnDisk, ClustersFor,
           HandleParked;
      if handles[h].helper.currentCluster != 0 {
        ParkedIsCached(cache, handles, h);
      }
      FlushCluster(handles[h].inode, handles[h].helper.currentCluster);
    }

    /** Closes a handle, also one that is astray; the last one on a cluster leaves its content and the size on disk. */
    method CloseFile(h: nat)
      requires Valid() && h in handles
      modifies this`disk, this`cache, this`sizeCells, this`handles, this`astray, fat`dirty, fat`bitmap
      ensures Valid() && CurrentView() == old(CurrentView())
      ensures handles == old(handles) - {h} && astray == old(astray) - {h}
      ensures CellsKept(old(sizeCells), sizeCells, old(handles[h].inode))
      ensures old(SizeKept(h)) && Parked(old(handles), old(handles[h].helper.currentCluster)) == {h} ==>
        var inode := old(handles[h].inode);
        inode.startCluster in sizeCells && sizeCells[inode.startCluster] == inode.size
    {
      hide FatFilesystem.VolumeOk, FatFilesystem.CurrentView, FatFilesystem.SizeKept, FatFilesystem.Recorded, Parked,
           CellsKept, AllSized, AllParked, CountsOk, FatFilesystem.ValidBut;
      ghost var inode := handles[h].inode;
      Unpark(h);
      RecordedIs(h);
      HandleRemoved(cache, chains, lost, g.BytesPerCluster(), handles, astray, h);
      handles := handles - {h};
      astray := astray - {h};
    }

    lemma RecordedIs(h: nat)
      requires h in handles
      ensures Recorded(h) <==>
        handles[h].inode.startCluster in sizeCells && sizeCells[handles[h].inode.startCluster] == handles[h].inode.size
    {
    }

    /** Writes everything back: the disk alone then holds every cluster's content and the table. */
    method Unmount()
      requires StoreOk()
      modifies this`disk, this`cache, fat`dirty, fat`bitmap
      ensures StoreOk() && cache == map[] && CurrentView() == old(CurrentView())
      ensures fat.Entries() == old(fat.Entries())
      ensures LoadedTable(g, fat.ty, disk) == fat.Entries()
    {
      hide Geometry.Covers, Fat.Valid, Fat.Tracks, CacheOk, ViewOf, LoadedTable, TableSector;
      FlushFat();
      CacheAcrossFlush(old(disk));
      WriteBackAll();
      TableLoaded();
    }

    lemma CacheAcrossFlush(before: Sectors)
      requires LayoutOk() && g.Covers(before) && CacheOk(g, before, cache) && SameClusters(g, before, disk, {})
      ensures StoreOk() && CurrentView() == ViewOf(g, before, cache)
    {
      CacheStable(g, before, disk, cache, {});
      SameView(g, before, disk, cache);
    }

    lemma TableLoaded()
      requires LayoutOk()
      requires forall s: nat :: s < fat.sectors ==>
        FatOnDisk(g, disk)[s] == TableSector(fat.buffer, fat.sectorSize, fat.sectors, s)
      ensures LoadedTable(g, fat.ty, disk) == fat.Entries()
    {
      forall s: nat | s < fat.sectors
        ensures disk[g.fatStart + s] == TableSector(fat.buffer, fat.sectorSize, fat.sectors, s)
      {
        assert disk[g.fatStart + s] == FatOnDisk(g, disk)[s];
      }
      LoadWritten(disk, g.bytesPerSector, g.fatStart, g.fatSectors, fat.buffer);
    }

    /** Drops the whole cache after writing back each dirty range. */
    method WriteBackAll()
      requires StoreOk()
      modifies this`disk, this`cache
      ensures StoreOk() && cache == map[] && CurrentView() == old(CurrentView())
      ensures FatOnDisk(g, disk) == old(FatOnDisk(g, disk))
    {
      hide Geometry.Covers, Fat.Valid, Fat.Tracks, ClusterOnDisk;
      var entries := cache;
      cache := map[];
      var todo := entries.Keys;
      while todo != {}
        invariant LayoutOk() && cache == map[] && todo <= entries.Keys
        invariant FatOnDisk(g, disk) == old(FatOnDisk(g, disk))
        invariant SameClusters(g, old(disk), disk, entries.Keys - todo)
        invariant forall c :: c in entries && c !in todo ==> ClusterOnDisk(g, disk, c) == entries[c].data
        decreases |todo|
      {
        var c :| c in todo;
        var entry := entries[c];
        assert EntryOk(g, old(disk), c, entry);
        if entry.dirtyRange.Some? {
          FlushClusterDirtyRange(entry.data, entry.cluster, entry.dirtyRange.value);
        } else {
          CleanIsOnDisk(g, old(disk), entries, c);
        }
        todo := todo - {c};
      }
    }
  }

  /** Unmounting and mounting again, with every cache gone, gives every file back; `unmount` itself records no sizes. */
  method Remount(fs: FatFilesystem) returns (again: FatFilesystem)
    requires fs.Usable()
    modifies fs`disk, fs`cache, fs.fat`dirty, fs.fat`bitmap
    ensures again.Valid() && again.chains == old(fs.chains) && again.lost == old(fs.lost)
      && again.Table() == old(fs.Table())
    ensures fresh(again) && again.g == fs.g && again.handles == map[] && again.sizeCells == fs.sizeCells
    ensures forall s :: s in again.chains ==> again.BytesOf(s) == old(fs.BytesOf(s))
  {
    hide Geometry.Covers, Geometry.BytesPerCluster, Fat.Valid, Fat.Tracks, CacheOk, ViewOf, ChainsOk, CountsOk,
         ClusterOnDisk, LoadedTable, NoneFreePast, ChainBytes, AllSized;
    fs.Unmount();
    again := new FatFilesystem(fs.g, fs.fat.ty, fs.disk, fs.sizeCells, fs.chains, fs.lost);
  }

  /**
   What a file holds survives a write, a close and an unmount: mounting again and opening the file with its
   recorded size gives it all back, as long as no other handle keeps a cluster of the file.
   */
  method WriteCloseRemount(fs: FatFilesystem, h: nat, position: nat, bytes: seq<Byte>, h': nat)
    returns (again: FatFilesystem)
    requires fs.Valid() && h in fs.handles && h !in fs.astray && bytes != []
    requires position + |bytes| < U32 && fs.g.BytesPerCluster() > 0
    requires position + |bytes| > fs.handles[h].inode.size ==>
      MayResize(fs.handles, h, position + |bytes|, fs.g.BytesPerCluster())
    requires !Strays(fs.handles[h], position, |bytes|, fs.g.BytesPerCluster())
    requires ClustersNeeded(fs.handles[h].inode.size, position + |bytes|,
                            fs.g.BytesPerCluster()) <= |FreeClusters(fs.Table())|
    requires forall x :: x in fs.handles && x != h ==>
      fs.handles[x].helper.currentCluster !in Elements(fs.FileChain(h)) + FreeClusters(fs.Table())
    modifies fs`disk, fs`cache, fs`sizeCells, fs`handles, fs`chains, fs`lost, fs`astray, fs.fat
    ensures again.Valid() && h' in again.handles
    ensures again.handles[h'].inode.startCluster == old(fs.handles[h].inode.startCluster)
    ensures IsWritten(old(fs.Contents(h)), again.Contents(h'), position, bytes)
  {
    hide FatFilesystem.Valid, FatFilesystem.ValidBut, FatFilesystem.Usable, FatFilesystem.VolumeOk,
         FatFilesystem.CurrentView, FatFilesystem.SizeKept, Geometry.BytesPerCluster, MayResize, Strays,
         ClustersNeeded, FreeClusters, ClustersFor, IsWritten, StandsOn, FatFilesystem.Table, FatFilesystem.Layout,
         OthersSame, WentAstray, CellsKept, AloneOn, Elements, Parked, FatFilesystem.FileChain, FatFilesystem.BytesOf,
         ChainsOk, CacheOk, Fat.Entries;
    var s := fs.handles[h].inode.startCluster;
    ghost var (handles, clusters) := (fs.handles, Elements(fs.FileChain(h)) + FreeClusters(fs.Table()));
    var r, edge, added := fs.WriteFile(h, position, bytes);
    fs.FileIs(h);
    fs.Opened(h);
    AloneOutside(handles, fs.FileChain(h), clusters, h);
    AloneMoved(handles, fs.handles, fs.FileChain(h), h);
    fs.AloneParked(h, s, 0);
    ghost var (contents, data, size) := (fs.Contents(h), fs.BytesOf(s), fs.handles[h].inode.size);
    label Written:
    fs.CloseFile(h);
    fs.SameBytes@Written(s);
    again := Remount(fs);
    again.Open(h', s);
    again.FileIs(h');
    again.Opened(h');
  }
}
