/**
 The block device and the volume layout: a disk is an array of sectors that never
 fails, the table occupies `fatSectors` sectors from `fatStart`, and cluster `c`
 occupies `sectorsPerCluster` sectors from `FirstSector(c)`.
 */
module Disk {
  import opened Arithmetic
  import opened FatTable

  type Sectors = seq<seq<Byte>>

  datatype Geometry = Geometry(
    bytesPerSector: nat,
    sectorsPerCluster: nat,
    fatStart: nat,
    fatSectors: nat,
    dataStart: nat,
    clusterEnd: nat)
  {
    function BytesPerCluster(): nat {
      sectorsPerCluster * bytesPerSector
    }

    ghost predicate Valid() {
      && bytesPerSector > 0 && bytesPerSector % 4 == 0 && sectorsPerCluster > 0
      && fatStart + fatSectors <= dataStart
    }

    /** Data clusters are numbered from 2. */
    predicate IsCluster(c: nat) {
      2 <= c < clusterEnd
    }

    function FirstSector(c: nat): nat
      requires 2 <= c
    {
      dataStart + (c - 2) * sectorsPerCluster
    }

    /** The disk has every sector of the layout, each of the sector size. */
    ghost predicate Covers(disk: Sectors) {
      && (forall c :: IsCluster(c) ==> FirstSector(c) + sectorsPerCluster <= |disk|)
      && dataStart <= |disk|
      && (forall s :: 0 <= s < |disk| ==> |disk[s]| == bytesPerSector)
    }
  }

  /** The clusters lie one behind the other from the start of the data on. */
  lemma ClustersInRow(g: Geometry, c: nat)
    requires 2 <= c
    ensures g.FirstSector(2) == g.dataStart && g.FirstSector(c + 1) == g.FirstSector(c) + g.sectorsPerCluster
  {
    Distribute(c - 2, 1, g.sectorsPerCluster);
  }

  lemma BytesPerClusterPositive(g: Geometry)
    requires g.Valid()
    ensures g.BytesPerCluster() > 0
  {
    MulMonotone(1, g.sectorsPerCluster, g.bytesPerSector);
  }

  // ---------------------------------------------------------------------------
  // Sector transfers

  /** Byte `j` counted from the start of sector `start`. */
  ghost function ByteAt(disk: Sectors, size: nat, start: nat, j: nat): Byte
    requires size > 0 && start + j / size < |disk| && |disk[start + j / size]| == size
  {
    disk[start + j / size][j % size]
  }

  lemma OffsetWithin(j: nat, size: nat, count: nat)
    requires size > 0 && j < count * size
    ensures 0 <= j / size < count
  {
    DivBounds(j, size);
    if j / size >= count {
      MulMonotone(count, j / size, size);
    }
  }

  /** `read_sectors_no_cache`. */
  function ReadSectors(disk: Sectors, size: nat, start: nat, count: nat): (r: seq<Byte>)
    requires size > 0 && start + count <= |disk|
    requires forall s :: start <= s < start + count ==> |disk[s]| == size
    ensures |r| == count * size
    ensures forall j {:trigger r[j]} :: 0 <= j < count * size ==>
      0 <= j / size < count && r[j] == ByteAt(disk, size, start, j)
  {
    forall j | 0 <= j < count * size ensures 0 <= j / size < count {
      OffsetWithin(j, size, count);
    }
    seq(count * size, j requires 0 <= j < count * size => disk[start + j / size][j % size])
  }

  /** A table read sector by sector has the disk's sectors. */
  lemma LoadedSector(disk: Sectors, size: nat, start: nat, count: nat, s: nat)
    requires size > 0 && start + count <= |disk| && s < count
    requires forall t :: start <= t < start + count ==> |disk[t]| == size
    ensures TableSector(ReadSectors(disk, size, start, count), size, count, s) == disk[start + s]
  {
    MulMonotone(s + 1, count, size);
    var loaded := ReadSectors(disk, size, start, count);
    var sector := disk[start + s];
    forall j | 0 <= j < size
      ensures sector[j] == loaded[s * size + j]
    {
      DivModOfSum(s, size, j);
    }
  }

  /** Loading a table whose every sector was written gives the table back. */
  lemma LoadWritten(disk: Sectors, size: nat, start: nat, count: nat, table: seq<Byte>)
    requires size > 0 && start + count <= |disk| && |table| == count * size
    requires forall s: nat :: s < count ==> disk[start + s] == TableSector(table, size, count, s)
    ensures forall t :: start <= t < start + count ==> |disk[t]| == size
    ensures ReadSectors(disk, size, start, count) == table
  {
    forall t | start <= t < start + count ensures |disk[t]| == size {
      assert disk[start + (t - start)] == TableSector(table, size, count, t - start);
    }
    var loaded := ReadSectors(disk, size, start, count);
    forall j | 0 <= j < |table| ensures loaded[j] == table[j] {
      OffsetWithin(j, size, count);
      DivBounds(j, size);
      MulMonotone(j / size + 1, count, size);
      assert disk[start + j / size] == TableSector(table, size, count, j / size);
    }
  }

  /** `write_sectors`: whole sectors, from `start` on, take the bytes of `data`. */
  function WriteSectors(disk: Sectors, size: nat, start: nat, data: seq<Byte>, count: nat): (r: Sectors)
    requires size > 0 && |data| == count * size && start + count <= |disk|
    ensures |r| == |disk|
    ensures forall s :: 0 <= s < |disk| && !(start <= s < start + count) ==> r[s] == disk[s]
    ensures forall s :: start <= s < start + count ==> r[s] == Chunk(data, size, s - start, count)
  {
    seq(|disk|, s requires 0 <= s < |disk| =>
      if start <= s < start + count then Chunk(data, size, s - start, count) else disk[s])
  }

  /** The `k`-th sector's worth of a transfer of `count` sectors. */
  function Chunk(data: seq<Byte>, size: nat, k: nat, count: nat): (r: seq<Byte>)
    requires |data| == count * size && k < count
    ensures |r| == size
  {
    MulMonotone(k + 1, count, size);
    assert (k + 1) * size == k * size + size;
    data[k * size..(k + 1) * size]
  }

  /** What is written is what is read back. */
  lemma WrittenByte(disk: Sectors, size: nat, start: nat, data: seq<Byte>, count: nat, j: nat)
    requires size > 0 && |data| == count * size && start + count <= |disk| && j < |data|
    ensures 0 <= j / size < count
    ensures ByteAt(WriteSectors(disk, size, start, data, count), size, start, j) == data[j]
  {
    OffsetWithin(j, size, count);
    DivBounds(j, size);
    var k := j / size;
    MulMonotone(k + 1, count, size);
    assert Chunk(data, size, k, count)[j - k * size] == data[j];
  }

  /** Reading the sectors just written gives the data back, and reading any others gives what they held. */
  lemma ReadWritten(disk: Sectors, size: nat, start: nat, data: seq<Byte>, count: nat, from: nat, n: nat)
    requires size > 0 && |data| == count * size && start + count <= |disk| && from + n <= |disk|
    requires forall s :: 0 <= s < |disk| ==> |disk[s]| == size
    ensures var r := WriteSectors(disk, size, start, data, count);
      && (forall s :: 0 <= s < |r| ==> |r[s]| == size)
      && ReadSectors(r, size, start, count) == data
      && (from + n <= start || start + count <= from ==>
            ReadSectors(r, size, from, n) == ReadSectors(disk, size, from, n))
  {
    var r := WriteSectors(disk, size, start, data, count);
    forall j | 0 <= j < |data| ensures ReadSectors(r, size, start, count)[j] == data[j] {
      WrittenByte(disk, size, start, data, count, j);
    }
  }

  // ---------------------------------------------------------------------------
  // Clusters

  function ClusterOnDisk(g: Geometry, disk: Sectors, c: nat): (r: seq<Byte>)
    requires g.Valid() && g.Covers(disk) && g.IsCluster(c)
    ensures |r| == g.BytesPerCluster()
  {
    ReadSectors(disk, g.bytesPerSector, g.FirstSector(c), g.sectorsPerCluster)
  }

  /** The table's sectors. */
  function FatOnDisk(g: Geometry, disk: Sectors): (r: Sectors)
    requires g.Valid() && g.Covers(disk)
    ensures |r| == g.fatSectors
  {
    disk[g.fatStart..g.fatStart + g.fatSectors]
  }

  /** Clusters occupy disjoint runs of sectors, all past the table. */
  lemma ClustersApart(g: Geometry, c: nat, d: nat)
    requires g.Valid() && 2 <= c && 2 <= d && c != d
    ensures g.FirstSector(c) + g.sectorsPerCluster <= g.FirstSector(d)
         || g.FirstSector(d) + g.sectorsPerCluster <= g.FirstSector(c)
    ensures g.fatStart + g.fatSectors <= g.FirstSector(c)
  {
    MulMonotone(0, c - 2, g.sectorsPerCluster);
    if c < d {
      MulMonotone(c - 2 + 1, d - 2, g.sectorsPerCluster);
    } else {
      MulMonotone(d - 2 + 1, c - 2, g.sectorsPerCluster);
    }
  }

  /** First sector of a cluster that a range from byte `lo` touches: `align_down(lo) / size`. */
  function SectorFrom(lo: nat, size: nat): int
    requires size > 0
  {
    lo / size
  }

  /** Past the last sector that a range up to byte `hi` touches: `align_up(hi) / size`. */
  function SectorTo(hi: nat, size: nat): int
    requires size > 0
  {
    (hi + size - 1) / size
  }

  lemma RangeSectors(lo: nat, hi: nat, size: nat, count: nat)
    requires size > 0 && lo < hi <= count * size
    ensures var (a, b) := (SectorFrom(lo, size), SectorTo(hi, size));
      && 0 <= a < b <= count
      && a * size <= lo && hi <= b * size <= count * size
      && b * size - a * size == (b - a) * size
  {
    var (a, b) := (SectorFrom(lo, size), SectorTo(hi, size));
    DivBounds(lo, size);
    RoundedUp(hi, size, count);
    hide SectorFrom, SectorTo;
    if b <= a {
      MulMonotone(b, a, size);
    }
    Distribute(b - a, a, size);
  }

  lemma RoundedUp(hi: nat, size: nat, count: nat)
    requires size > 0 && hi <= count * size
    ensures hi <= SectorTo(hi, size) * size <= count * size && SectorTo(hi, size) <= count
  {
    var b := SectorTo(hi, size);
    DivBounds(hi + size - 1, size);
    Distribute(b, 1, size);
    hide SectorTo;
    if b > count {
      MulMonotone(count + 1, b, size);
      Distribute(count, 1, size);
    }
    MulMonotone(b, count, size);
  }

  /** `flush_cluster_dirty_range`: writes back the sectors that `[lo, hi)` touches. */
  function FlushRange(g: Geometry, disk: Sectors, c: nat, data: seq<Byte>, lo: nat, hi: nat): (r: Sectors)
    requires g.Valid() && g.Covers(disk) && g.IsCluster(c)
    requires |data| == g.BytesPerCluster() && lo < hi <= |data|
    ensures |r| == |disk|
  {
    var size := g.bytesPerSector;
    RangeSectors(lo, hi, size, g.sectorsPerCluster);
    var (a, b) := (SectorFrom(lo, size), SectorTo(hi, size));
    WriteSectors(disk, size, g.FirstSector(c) + a, data[a * size..b * size], b - a)
  }

  /** The flush touches only sectors of its own cluster. */
  lemma FlushFrame(g: Geometry, disk: Sectors, c: nat, data: seq<Byte>, lo: nat, hi: nat)
    requires g.Valid() && g.Covers(disk) && g.IsCluster(c)
    requires |data| == g.BytesPerCluster() && lo < hi <= |data|
    ensures var r := FlushRange(g, disk, c, data, lo, hi);
      && g.Covers(r)
      && FatOnDisk(g, r) == FatOnDisk(g, disk)
      && forall d :: g.IsCluster(d) && d != c ==> ClusterOnDisk(g, r, d) == ClusterOnDisk(g, disk, d)
  {
    var r := FlushRange(g, disk, c, data, lo, hi);
    RangeSectors(lo, hi, g.bytesPerSector, g.sectorsPerCluster);
    ClustersApart(g, c, c + 1);
    forall d | g.IsCluster(d) && d != c
      ensures ClusterOnDisk(g, r, d) == ClusterOnDisk(g, disk, d)
    {
      ClustersApart(g, c, d);
    }
  }

  /** After the flush of a range outside which data and disk agreed, they agree everywhere. */
  lemma FlushComplete(g: Geometry, disk: Sectors, c: nat, data: seq<Byte>, lo: nat, hi: nat)
    requires g.Valid() && g.Covers(disk) && g.IsCluster(c)
    requires |data| == g.BytesPerCluster() && lo < hi <= |data|
    requires forall j :: 0 <= j < |data| && !(lo <= j < hi) ==> data[j] == ClusterOnDisk(g, disk, c)[j]
    ensures g.Covers(FlushRange(g, disk, c, data, lo, hi))
    ensures ClusterOnDisk(g, FlushRange(g, disk, c, data, lo, hi), c) == data
  {
    FlushFrame(g, disk, c, data, lo, hi);
    var r := FlushRange(g, disk, c, data, lo, hi);
    forall j | 0 <= j < |data| ensures ClusterOnDisk(g, r, c)[j] == data[j] {
      FlushedByte(g, disk, c, data, lo, hi, j);
    }
  }

  lemma FlushedByte(g: Geometry, disk: Sectors, c: nat, data: seq<Byte>, lo: nat, hi: nat, j: nat)
    requires g.Valid() && g.Covers(disk) && g.IsCluster(c)
    requires |data| == g.BytesPerCluster() && lo < hi <= |data| && j < |data|
    requires !(lo <= j < hi) ==> data[j] == ClusterOnDisk(g, disk, c)[j]
    requires g.Covers(FlushRange(g, disk, c, data, lo, hi))
    ensures ClusterOnDisk(g, FlushRange(g, disk, c, data, lo, hi), c)[j] == data[j]
  {
    hide WriteSectors, SectorFrom, SectorTo;
    var (size, first) := (g.bytesPerSector, g.FirstSector(c));
    RangeSectors(lo, hi, size, g.sectorsPerCluster);
    var (a, b) := (SectorFrom(lo, size), SectorTo(hi, size));
    SectorsByte(disk, size, first, data, g.sectorsPerCluster, a, b, j);
  }

  /** A byte of a run of sectors of which the sectors `a` to `b` are written. */
  lemma SectorsByte(disk: Sectors, size: nat, first: nat, data: seq<Byte>, count: nat, a: nat, b: nat, j: nat)
    requires size > 0 && |data| == count * size && first + count <= |disk| && j < |data|
    requires a <= b <= count && a * size <= b * size <= |data| && b * size - a * size == (b - a) * size
    requires forall s :: first <= s < first + count ==> |disk[s]| == size
    ensures var r := WriteSectors(disk, size, first + a, data[a * size..b * size], b - a);
      && 0 <= j / size < count && (forall s :: first <= s < first + count ==> |r[s]| == size)
      && ByteAt(r, size, first, j) == if a * size <= j < b * size then data[j] else ByteAt(disk, size, first, j)
  {
    OffsetWithin(j, size, count);
    var piece := data[a * size..b * size];
    if a * size <= j < b * size {
      hide WriteSectors;
      WrittenByte(disk, size, first + a, piece, b - a, j - a * size);
      ShiftQuotient(j, a, size);
    } else {
      OutsideQuotient(j, a, b, size);
    }
  }

  lemma ShiftQuotient(j: nat, a: nat, size: nat)
    requires size > 0 && a * size <= j
    ensures (j - a * size) / size == j / size - a && (j - a * size) % size == j % size
  {
    DivBounds(j, size);
    DivUnique(j - a * size, size, j / size - a);
  }

  lemma OutsideQuotient(j: nat, a: nat, b: nat, size: nat)
    requires size > 0 && !(a * size <= j < b * size)
    ensures !(a <= j / size < b)
  {
    DivBounds(j, size);
    if a <= j / size < b {
      MulMonotone(a, j / size, size);
      MulMonotone(j / size + 1, b, size);
    }
  }

  /** The disk with the listed table sectors replaced by those of `table`. */
  ghost function OverlayTable(g: Geometry, disk: Sectors, table: seq<Byte>, sectors: seq<nat>): (r: Sectors)
    requires g.Valid() && g.Covers(disk) && |table| == g.fatSectors * g.bytesPerSector
    requires forall k :: 0 <= k < |sectors| ==> sectors[k] < g.fatSectors
    ensures |r| == |disk|
    ensures forall s :: 0 <= s < |r| ==> r[s] == OverlaySector(g, disk, table, sectors, s)
  {
    seq(|disk|, s requires 0 <= s < |disk| => OverlaySector(g, disk, table, sectors, s))
  }

  ghost function OverlaySector(g: Geometry, disk: Sectors, table: seq<Byte>, sectors: seq<nat>, s: nat): (r: seq<Byte>)
    requires g.Valid() && g.Covers(disk) && |table| == g.fatSectors * g.bytesPerSector
    requires s < |disk|
    ensures |r| == g.bytesPerSector
  {
    if g.fatStart <= s < g.fatStart + g.fatSectors && s - g.fatStart in sectors
    then TableSector(table, g.bytesPerSector, g.fatSectors, s - g.fatStart)
    else disk[s]
  }

  lemma OverlayStep(g: Geometry, disk: Sectors, table: seq<Byte>, sectors: seq<nat>, s: nat)
    requires g.Valid() && g.Covers(disk) && |table| == g.fatSectors * g.bytesPerSector
    requires forall k :: 0 <= k < |sectors| ==> sectors[k] < g.fatSectors
    requires s < g.fatSectors
    ensures OverlayTable(g, disk, table, sectors + [s])
         == OverlayTable(g, disk, table, sectors)
            [g.fatStart + s := TableSector(table, g.bytesPerSector, g.fatSectors, s)]
  {
  }

  lemma OverlayCovers(g: Geometry, disk: Sectors, table: seq<Byte>, sectors: seq<nat>)
    requires g.Valid() && g.Covers(disk) && |table| == g.fatSectors * g.bytesPerSector
    requires forall k :: 0 <= k < |sectors| ==> sectors[k] < g.fatSectors
    ensures g.Covers(OverlayTable(g, disk, table, sectors))
  {
  }
}
