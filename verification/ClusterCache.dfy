/**
 The reference-counted write-back cluster cache over the disk.  Whatever is cached,
 dirty or flushed, a cluster has one logical content, its view; locking, releasing
 and flushing never change a view.
 */
module ClusterCache {
  import opened Options
  import opened FatTable
  import opened Disk

  datatype CacheEntry = CacheEntry(
    cluster: nat,
    referenceCount: nat,
    dirtyRange: Option<(nat, nat)>,
    data: seq<Byte>)

  type Cache = map<nat, CacheEntry>

  type View = map<nat, seq<Byte>>

  predicate InRange(range: Option<(nat, nat)>, j: nat) {
    range.Some? && range.value.0 <= j < range.value.1
  }

  /** A cached cluster is in use, and differs from the disk only within its dirty range. */
  ghost predicate EntryOk(g: Geometry, disk: Sectors, c: nat, e: CacheEntry)
    requires g.Valid() && g.Covers(disk)
  {
    && g.IsCluster(c) && e.cluster == c && e.referenceCount > 0
    && |e.data| == g.BytesPerCluster()
    && (e.dirtyRange.Some? ==> e.dirtyRange.value.0 < e.dirtyRange.value.1 <= |e.data|)
    && (forall j :: 0 <= j < |e.data| && !InRange(e.dirtyRange, j) ==> e.data[j] == ClusterOnDisk(g, disk, c)[j])
  }

  ghost predicate CacheOk(g: Geometry, disk: Sectors, cache: Cache)
    requires g.Valid() && g.Covers(disk)
  {
    forall c :: c in cache ==> EntryOk(g, disk, c, cache[c])
  }

  /** The logical content of every cluster: the cached data if there is any, else the disk's. */
  ghost function ViewOf(g: Geometry, disk: Sectors, cache: Cache): (v: View)
    requires g.Valid() && g.Covers(disk)
    ensures forall c :: c in v <==> g.IsCluster(c)
  {
    map c: nat | 2 <= c < g.clusterEnd :: if c in cache then cache[c].data else ClusterOnDisk(g, disk, c)
  }

  /** How many users a cluster has; a cluster that is not cached has none. */
  function References(cache: Cache, c: nat): nat {
    if c in cache then cache[c].referenceCount else 0
  }

  /** `dirty_range` after a write to `[lo, hi)`. */
  function Widen(range: Option<(nat, nat)>, lo: nat, hi: nat): Option<(nat, nat)> {
    match range
    case None => Some((lo, hi))
    case Some((start, end)) => Some((if lo < start then lo else start, if end < hi then hi else end))
  }

  /** `data` with `bytes` copied over it from `at`; copying nothing is possible anywhere. */
  function Splice(data: seq<Byte>, at: nat, bytes: seq<Byte>): (r: seq<Byte>)
    requires bytes != [] ==> at + |bytes| <= |data|
    ensures |r| == |data|
  {
    if bytes == [] then data else data[..at] + bytes + data[at + |bytes|..]
  }

  /** The `n` bytes of `data` from `at`; no bytes can be taken anywhere. */
  function Slice(data: seq<Byte>, at: nat, n: nat): (r: seq<Byte>)
    requires n > 0 ==> at + n <= |data|
    ensures |r| == n
  {
    if n == 0 then [] else data[at..at + n]
  }

  /** All clusters but those of `except` are on disk as they were. */
  ghost predicate SameClusters(g: Geometry, before: Sectors, after: Sectors, except: set<nat>)
    requires g.Valid() && g.Covers(before) && g.Covers(after)
  {
    forall c :: g.IsCluster(c) && c !in except ==> ClusterOnDisk(g, after, c) == ClusterOnDisk(g, before, c)
  }

  /** A cache is as consistent as before with a disk whose clusters did not change under it. */
  lemma CacheStable(g: Geometry, before: Sectors, after: Sectors, cache: Cache, except: set<nat>)
    requires g.Valid() && g.Covers(before) && g.Covers(after) && SameClusters(g, before, after, except)
    requires CacheOk(g, before, cache) && cache.Keys !! except
    ensures CacheOk(g, after, cache)
  {
    forall c | c in cache ensures EntryOk(g, after, c, cache[c]) {
      assert EntryOk(g, before, c, cache[c]);
    }
  }

  lemma SameView(g: Geometry, before: Sectors, after: Sectors, cache: Cache)
    requires g.Valid() && g.Covers(before) && g.Covers(after) && SameClusters(g, before, after, {})
    ensures ViewOf(g, after, cache) == ViewOf(g, before, cache)
  {
  }

  /** Changing only table sectors changes no cluster. */
  lemma SameDataSectors(g: Geometry, before: Sectors, after: Sectors)
    requires g.Valid() && g.Covers(before) && g.Covers(after) && |before| == |after|
    requires forall s :: 0 <= s < |after| && !(g.fatStart <= s < g.fatStart + g.fatSectors) ==> after[s] == before[s]
    ensures SameClusters(g, before, after, {})
  {
    forall c: nat | g.IsCluster(c)
      ensures ClusterOnDisk(g, after, c) == ClusterOnDisk(g, before, c)
    {
      ClustersApart(g, c, c + 1);
    }
  }

  /** Once the disk holds a cached cluster's data, the cached copy can be dropped. */
  lemma DropCached(g: Geometry, before: Sectors, after: Sectors, cache: Cache, c: nat)
    requires g.Valid() && g.Covers(before) && g.Covers(after) && SameClusters(g, before, after, {c})
    requires CacheOk(g, before, cache) && c in cache
    requires ClusterOnDisk(g, after, c) == cache[c].data
    ensures CacheOk(g, after, cache - {c})
    ensures ViewOf(g, after, cache - {c}) == ViewOf(g, before, cache)
  {
    CacheStable(g, before, after, cache - {c}, {c});
  }

  lemma CleanIsOnDisk(g: Geometry, disk: Sectors, cache: Cache, c: nat)
    requires g.Valid() && g.Covers(disk) && CacheOk(g, disk, cache)
    requires c in cache && cache[c].dirtyRange.None?
    ensures ClusterOnDisk(g, disk, c) == cache[c].data
  {
    assert EntryOk(g, disk, c, cache[c]);
  }
}
