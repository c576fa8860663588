/**
 What the operations on an open file do, on values: transfers along a chain, writes within and past the end,
 resizes, and what they leave alone.
 */
module FileTransfers {
  import opened Arithmetic
  import opened Options
  import opened FatTable
  import opened ClusterCache
  import opened FatChains
  import opened OpenFiles

  /** A transfer: how many bytes to read, or which bytes to write. */
  datatype FileAccessBuffer = Read(length: nat) | Write(bytes: seq<Byte>)
  {
    function Length(): nat {
      if Read? then length else |bytes|
    }
  }

  /** Only where one handle is parked has changed. */
  predicate OnlyMoved(before: Handles, after: Handles, h: nat) {
    h in before && h in after && after == before[h := OpenFile(before[h].inode, after[h].helper)]
  }

  /** At most the recorded size of one file has changed, to the size that its handle knows. */
  predicate CellsKept(before: map<nat, nat>, after: map<nat, nat>, inode: FileNode) {
    after == before || after == before[inode.startCluster := inode.size]
  }

  lemma CellsUnchanged(cells: map<nat, nat>, inode: FileNode)
    ensures CellsKept(cells, cells, inode)
  {
  }

  lemma CellsTwice(a: map<nat, nat>, b: map<nat, nat>, c: map<nat, nat>, inode: FileNode)
    requires CellsKept(a, b, inode) && CellsKept(b, c, inode)
    ensures CellsKept(a, c, inode)
  {
  }

  /** No other handle is parked on a chain. */
  predicate AloneOn(handles: Handles, chain: seq<nat>, h: nat) {
    forall x :: x in handles && x != h ==> handles[x].helper.currentCluster !in chain
  }

  lemma AloneMoved(before: Handles, after: Handles, chain: seq<nat>, h: nat)
    requires h in before && h in after && after == before[h := after[h]]
    ensures AloneOn(before, chain, h) <==> AloneOn(after, chain, h)
  {
    forall x | x in before && x != h ensures x in after && after[x] == before[x] {
    }
  }

  lemma AloneOutside(handles: Handles, chain: seq<nat>, clusters: set<nat>, h: nat)
    requires Elements(chain) <= clusters
    requires forall x :: x in handles && x != h ==> handles[x].helper.currentCluster !in clusters
    ensures AloneOn(handles, chain, h)
  {
    forall c | c in chain ensures c in clusters {
      assert c in Elements(chain);
    }
  }

  /** A handle that is parked nowhere can go. */
  lemma HandleRemoved(cache: Cache, chains: Chains, lost: set<nat>, b: nat, handles: Handles, except: set<nat>, h: nat)
    requires b > 0 && h in handles && handles[h].helper.currentCluster == 0 && CountsOk(cache, handles)
    requires AllSized(chains, lost, b, handles) && AllParked(chains, b, handles, except)
    ensures CountsOk(cache, handles - {h})
    ensures AllSized(chains, lost, b, handles - {h}) && AllParked(chains, b, handles - {h}, except - {h})
  {
    hide HandleSized, HandleParked;
    forall c: nat | c != 0 ensures Parked(handles - {h}, c) == Parked(handles, c) {
    }
  }

  /** What transfers through a handle may change: the view, where the handle is parked, and the recorded sizes. */
  datatype Reach = Reach(view: View, handles: Handles, cells: map<nat, nat>)

  /** Only clusters of `frame` have changed, where `h` is parked, and perhaps the recorded size of its file. */
  ghost predicate Within(before: Reach, after: Reach, h: nat, frame: seq<nat>) {
    && OnlyMoved(before.handles, after.handles, h)
    && SameElsewhere(before.view, after.view, frame)
    && CellsKept(before.cells, after.cells, after.handles[h].inode)
  }

  lemma WithinItself(r: Reach, h: nat, frame: seq<nat>)
    requires h in r.handles
    ensures Within(r, r, h, frame)
  {
  }

  lemma WithinTwice(a: Reach, b: Reach, c: Reach, h: nat, frame: seq<nat>)
    requires Within(a, b, h, frame) && Within(b, c, h, frame)
    ensures Within(a, c, h, frame)
  {
    hide SameElsewhere, CellsKept;
    SameElsewhereTrans(a.view, b.view, c.view, frame);
    CellsTwice(a.cells, b.cells, c.cells, c.handles[h].inode);
  }

  lemma WithinHandles(a: Reach, b: Reach, h: nat, frame: seq<nat>)
    requires Within(a, b, h, frame)
    ensures OnlyMoved(a.handles, b.handles, h) && b.handles[h].inode == a.handles[h].inode
    ensures CellsKept(a.cells, b.cells, b.handles[h].inode) && SameElsewhere(a.view, b.view, frame)
  {
  }

  lemma ReferencesAre(cache: Cache, handles: Handles, c: nat)
    requires CountsOk(cache, handles) && c != 0
    ensures References(cache, c) == |Parked(handles, c)|
  {
  }

  /** Where the next cluster of the chain starts, and where the chain ends. */
  lemma NextStart(o: OpenFile, base: int, b: nat, length: nat)
    requires 0 <= o.helper.clusterIndex - base < length
    ensures StartIn(o, base, b) + b == (o.helper.clusterIndex - base + 1) * b <= length * b
    ensures o.helper.clusterIndex - base + 1 == length ==> StartIn(o, base, b) + b == length * b
  {
    MulMonotone(o.helper.clusterIndex - base + 1, length, b);
  }

  lemma SoughtAt(o: OpenFile, position: nat, b: nat, base: int)
    requires b > 0 && o.helper.clusterIndex == position / b && base <= position / b
    ensures StartIn(o, base, b) == (position / b - base) * b && 0 <= position % b < b
  {
    DivBounds(position, b);
  }

  /** After a transfer up to `end` in its chain, the handle is parked on the cluster there, or on the last one. */
  ghost predicate EndsAt(o: OpenFile, base: int, b: nat, end: nat, length: nat)
    requires base <= o.helper.clusterIndex
  {
    if end < length then StartIn(o, base, b) <= end < StartIn(o, base, b) + b
    else end == length && StartIn(o, base, b) + b == length
  }

  /** The index of the position where a transfer into a chain of `n` clusters ends. */
  lemma IndexAfter(o: OpenFile, base: int, b: nat, n: nat, position: nat, off: nat, accessed: nat)
    requires b > 0 && base <= o.helper.clusterIndex && off + base * b == position
    requires EndsAt(o, base, b, off + accessed, n * b)
    ensures var (i, end, edge) := (o.helper.clusterIndex, position + accessed, (base + n) * b);
      if end < edge then end / b == i else end == edge && end / b == i + 1
  {
    var (i, end) := (o.helper.clusterIndex, position + accessed);
    Distribute(i - base, base, b);
    Distribute(n, base, b);
    Distribute(i, 1, b);
    hide EndsAt;
    if off + accessed < n * b {
      EndsBetween(o, base, b, off + accessed, n * b);
      DivUnique(end, b, i);
    } else {
      EndsLast(o, base, b, off + accessed, n * b);
      DivModOfSum(i + 1, b, 0);
    }
  }

  lemma EndsBetween(o: OpenFile, base: int, b: nat, end: nat, length: nat)
    requires base <= o.helper.clusterIndex && EndsAt(o, base, b, end, length) && end < length
    ensures (o.helper.clusterIndex - base) * b <= end < (o.helper.clusterIndex - base) * b + b
  {
  }

  lemma EndsLast(o: OpenFile, base: int, b: nat, end: nat, length: nat)
    requires base <= o.helper.clusterIndex && EndsAt(o, base, b, end, length) && end >= length
    ensures end == length == (o.helper.clusterIndex - base) * b + b
  {
  }

  lemma EndsInside(o: OpenFile, base: int, b: nat, end: nat, length: nat)
    requires base <= o.helper.clusterIndex && StartIn(o, base, b) <= end < StartIn(o, base, b) + b <= length
    ensures EndsAt(o, base, b, end, length)
  {
  }

  /** How many bytes of a write at `position` are accepted: one that starts before `edge` ends there. */
  function Landed(length: nat, position: nat, edge: nat): nat {
    if position < edge && edge - position < length then edge - position else length
  }

  lemma LandsWhole(length: nat, position: nat, edge: nat)
    requires position < edge ==> position + length <= edge
    ensures Landed(length, position, edge) == length
  {
  }

  function AtMost(n: int, limit: int): int {
    if n < limit then n else limit
  }

  lemma TransferredLength(before: seq<Byte>, now: seq<Byte>, buf: FileAccessBuffer, position: nat, accessed: nat,
                          data: seq<Byte>)
    requires Transferred(before, now, buf, position, accessed, data)
    ensures |now| == |before|
  {
  }

  /** `data` with zeros from `edge` up to `to`. */
  ghost function ZeroedPast(data: seq<Byte>, edge: nat, to: nat): (r: seq<Byte>)
    requires to <= |data|
    ensures |r| == |data|
  {
    if to <= edge then data else Splice(data, edge, Zeros(to - edge))
  }

  lemma NothingZeroed(data: seq<Byte>, edge: nat, to: nat)
    requires to <= edge && to <= |data|
    ensures ZeroedPast(data, edge, to) == data
  {
  }

  /** A chunk of zeros at `at`, which goes astray before `edge`. */
  lemma ZeroedMore(data: seq<Byte>, edge: nat, at: nat, n: nat, now: seq<Byte>, after: seq<Byte>)
    requires at + n <= |data| && (at < edge ==> at + n <= edge) && now == ZeroedPast(data, edge, at)
    requires at < edge ==> after == now
    requires edge <= at ==> after == Splice(now, at, Zeros(n))
    ensures after == ZeroedPast(data, edge, at + n)
  {
    hide Splice, Zeros;
    if at > edge {
      SpliceTwice(data, edge, Zeros(at - edge), Zeros(n));
      ZerosSum(at - edge, n);
    } else if at == edge {
      SpliceNothing(data, at);
    }
  }

  lemma ChunkBeforeEdge(from: nat, edge: nat, sector: nat, i: nat, at: nat, n: nat)
    requires sector > 0 && n <= sector && at == from + i * sector
    requires from < edge ==> from % sector == 0 && edge % sector == 0
    ensures from <= at && (at < edge ==> at + n <= edge)
  {
    MulMonotone(0, i, sector);
    if at < edge {
      DivBounds(from, sector);
      DivBounds(edge, sector);
      Distribute(from / sector, i, sector);
      StepBefore(from / sector + i, edge / sector, sector);
    }
  }

  /** A multiple below another one is below it by a whole step. */
  lemma StepBefore(p: int, q: int, d: nat)
    requires p * d < q * d
    ensures p * d + d <= q * d
  {
    if q <= p {
      MulMonotone(q, p, d);
    }
    Distribute(p, 1, d);
    MulMonotone(p + 1, q, d);
  }

  lemma WholeSectors(n: int, k: nat, sector: nat, x: nat)
    requires sector > 0 && x == n * (k * sector)
    ensures x % sector == 0
  {
    assert x == n * k * sector;
    DivModOfSum(n * k, sector, 0);
  }

  /** The bytes of a file after a write that went astray up to `edge`, if that is past the end at `size`. */
  ghost function WrittenPast(data: seq<Byte>, size: nat, edge: nat, position: nat, bytes: seq<Byte>): (r: seq<Byte>)
    requires size <= |data| && position + |bytes| <= |data|
    ensures |r| == |data|
  {
    if position < edge then data else FilledAndWritten(data, if size < edge then edge else size, position, bytes)
  }

  lemma PutIsWrittenPast(data: seq<Byte>, size: nat, edge: nat, position: nat, bytes: seq<Byte>)
    requires size <= |data| && position + |bytes| <= |data|
    requires if position > size then size <= edge else position <= edge
    ensures var zeroed := if position > size then ZeroedPast(data, edge, position) else data;
      WrittenPast(data, size, edge, position, bytes)
      == if position < edge then zeroed else Splice(zeroed, position, bytes)
  {
    hide Splice, Zeros;
  }

  /** A write that goes nowhere astray has its whole effect. */
  lemma StraightIsWritten(data: seq<Byte>, size: nat, edge: nat, position: nat, bytes: seq<Byte>, newSize: nat)
    requires size <= |data| && position + |bytes| <= |data| && edge <= size && edge <= position
    requires newSize == if position + |bytes| > size then position + |bytes| else size
    ensures WrittenPast(data, size, edge, position, bytes)[..newSize] == Written(data[..size], position, bytes)
  {
    hide FilledAndWritten, Written;
    FilledIsWritten(data, size, position, bytes);
  }

  /** `contents` is what the first `size` bytes of a chain are. */
  ghost predicate HeldBy(contents: seq<Byte>, view: View, b: nat, chain: seq<nat>, size: nat) {
    ViewCovers(view, b, chain) && size <= |ChainBytes(view, b, chain)| && contents == ChainBytes(view, b, chain)[..size]
  }

  /** What a file holds after a write past its end that went astray: its new clusters had the bytes `stale`. */
  ghost function Missed(contents: seq<Byte>, stale: seq<Byte>, edge: nat, position: nat, bytes: seq<Byte>): seq<Byte>
    requires position + |bytes| <= |contents| + |stale|
  {
    WrittenPast(contents + stale, |contents|, edge, position, bytes)[..position + |bytes|]
  }

  /** A file that held `was` holds `now`, and `n` bytes were accepted, after a write that went astray up to `edge`. */
  ghost predicate WentAstray(was: seq<Byte>, now: seq<Byte>, view: View, b: nat, added: seq<nat>, edge: nat,
                             position: nat, bytes: seq<Byte>, n: nat)
  {
    && |was| < edge && |was| <= position && n == Landed(|bytes|, position, edge)
    && ViewCovers(view, b, added) && position + |bytes| <= |was| + |added| * b
    && now == Missed(was, ChainBytes(view, b, added), edge, position, bytes)
  }

  lemma IsAstray(data: seq<Byte>, was: seq<Byte>, now: seq<Byte>, view: View, b: nat, added: seq<nat>, edge: nat,
                 position: nat, bytes: seq<Byte>, n: nat)
    requires |was| < edge && |was| <= position && n == Landed(|bytes|, position, edge)
    requires ViewCovers(view, b, added) && data == was + ChainBytes(view, b, added) && position + |bytes| <= |data|
    requires now == WrittenPast(data, |was|, edge, position, bytes)[..position + |bytes|]
    ensures WentAstray(was, now, view, b, added, edge, position, bytes, n)
  {
    hide WrittenPast, ChainBytes, ViewCovers;
  }

  /** Such a write has its effect only if the new clusters happened to hold it already. */
  lemma MissedExactly(contents: seq<Byte>, stale: seq<Byte>, edge: nat, position: nat, bytes: seq<Byte>)
    requires |contents| <= position && position + |bytes| <= |contents| + |stale| && |contents| < edge
    ensures var (end, want) := (position + |bytes|, Written(contents, position, bytes));
      var m := if position < edge then end else edge;
      Missed(contents, stale, edge, position, bytes) == want <==> m <= |want| && (contents + stale)[..m] == want[..m]
  {
    var (end, want, all) := (position + |bytes|, Written(contents, position, bytes), contents + stale);
    assert |want| == end;
    if position < edge {
      assert want[..end] == want;
    } else {
      MissedTail(all, contents, edge, position, bytes);
      var missed := Missed(contents, stale, edge, position, bytes);
      assert missed == missed[..edge] + missed[edge..] && want == want[..edge] + want[edge..];
    }
  }

  lemma MissedTail(all: seq<Byte>, contents: seq<Byte>, edge: nat, position: nat, bytes: seq<Byte>)
    requires |contents| < edge <= position && position + |bytes| <= |all| && contents <= all
    ensures var (end, want) := (position + |bytes|, Written(contents, position, bytes));
      var missed := WrittenPast(all, |contents|, edge, position, bytes)[..end];
      |want| == end && missed[..edge] == all[..edge] && missed[edge..] == want[edge..]
  {
    FilledIsWritten(all, edge, position, bytes);
    var (end, want) := (position + |bytes|, Written(contents, position, bytes));
    var longer := Written(all[..edge], position, bytes);
    assert longer[edge..] == want[edge..];
    assert longer[..edge] == all[..edge];
  }

  // A write that is lost.  A file of one full cluster of four bytes has a second cluster that a growth which failed
  // has left; its handle has read to the end, and with it to that cluster; one cluster is free.

  const EXAMPLE_TABLE: seq<FatEntry> := [EndOfChain, EndOfChain, Next(3), EndOfChain, Free]
  const EXAMPLE_CHAINS: Chains := map[2 := [2, 3]]
  const EXAMPLE_HANDLES: Handles := map[0 := OpenFile(FileNode(2, 4), AccessHelper(3, 1))]
  const EXAMPLE_CACHE: Cache := map[3 := CacheEntry(3, 1, None, [0, 0, 0, 0])]

  /** The state is as good as any, and one byte more can be written at the end. */
  lemma LostWriteState()
    ensures ChainsOk(EXAMPLE_TABLE, EXAMPLE_CHAINS) && CountsOk(EXAMPLE_CACHE, EXAMPLE_HANDLES)
    ensures AllSized(EXAMPLE_CHAINS, {}, 4, EXAMPLE_HANDLES) && AllParked(EXAMPLE_CHAINS, 4, EXAMPLE_HANDLES, {})
    ensures MayResize(EXAMPLE_HANDLES, 0, 5, 4) && FreeClusters(EXAMPLE_TABLE) == {4} && ClustersNeeded(4, 5, 4) == 1
    ensures Strays(EXAMPLE_HANDLES[0], 4, 1, 4) && Tracked(EXAMPLE_CHAINS, {}, EXAMPLE_HANDLES[0])
  {
    LostWriteCounts();
    hide CountsOk;
    assert FreeClusters(EXAMPLE_TABLE) == {4};
    hide FreeClusters;
    assert ClustersFor(4, 4) == 1 && ClustersFor(5, 4) == 2;
    hide ClustersFor;
  }

  lemma LostWriteCounts()
    ensures CountsOk(EXAMPLE_CACHE, EXAMPLE_HANDLES)
  {
    forall c: nat | c != 0 ensures References(EXAMPLE_CACHE, c) == |Parked(EXAMPLE_HANDLES, c)| {
      assert Parked(EXAMPLE_HANDLES, c) == if c == 3 then {0} else {};
    }
  }

  /** The byte does not get into the file, which has the first byte of the free cluster instead. */
  lemma LostWriteExample(view: View, now: seq<Byte>, added: seq<nat>, edge: nat, n: nat)
    requires 4 in view && view[4] == [0, 0, 0, 0] && Elements(added) <= FreeClusters(EXAMPLE_TABLE)
    requires WentAstray([1, 1, 1, 1], now, view, 4, added, edge, 4, [7], n)
    ensures n == 1 && now == [1, 1, 1, 1, 0] && Written([1, 1, 1, 1], 4, [7]) == [1, 1, 1, 1, 7]
  {
    LostWriteState();
    hide FreeClusters, FilledAndWritten;
    assert added[0] in Elements(added);
    assert ChainBytes(view, 4, added)[0] == view[added[0]][0];
    var stale := ChainBytes(view, 4, added);
    assert ([1, 1, 1, 1] + stale)[..5] == [1, 1, 1, 1] + [stale[0]];
  }

  /** The bytes of a chain that keeps `k` clusters and goes on with others. */
  lemma GrownChainBytes(view: View, b: nat, chain: seq<nat>, k: nat, added: seq<nat>, size: nat)
    requires ViewCovers(view, b, chain) && k <= |chain| && size == k * b
    requires ViewCovers(view, b, chain[..k] + added)
    ensures ViewCovers(view, b, added) && size <= |chain| * b
    ensures ChainBytes(view, b, chain[..k] + added) == ChainBytes(view, b, chain)[..size] + ChainBytes(view, b, added)
  {
    forall i | 0 <= i < |added| ensures added[i] in view && |view[added[i]]| == b {
      assert (chain[..k] + added)[k + i] == added[i];
    }
    ChainBytesConcat(view, b, chain[..k], added);
    ChainBytesPrefix(view, b, chain[..k], chain, k, size);
    assert chain[..k][..k] == chain[..k];
    assert ChainBytes(view, b, chain[..k])[..size] == ChainBytes(view, b, chain[..k]);
  }

  /** A read from the chain of a file is a read from the file. */
  lemma ReadsContents(data: seq<Byte>, size: nat, position: nat, length: nat, accessed: nat, r: seq<Byte>)
    requires size <= |data| && accessed == Accessible(size, position, length)
    requires Transferred(data, data, Read(length), position, accessed, r)
    ensures r == ReadFrom(data[..size], position, length) && accessed == |r|
  {
  }

  lemma WrittenWhole(before: seq<Byte>, now: seq<Byte>, position: nat, bytes: seq<Byte>, accessed: nat, data: seq<Byte>)
    requires accessed == |bytes| && Transferred(before, now, Write(bytes), position, accessed, data)
    requires position + |bytes| <= |before|
    ensures now == Splice(before, position, bytes) && (bytes == [] ==> now == before)
  {
    assert bytes[..accessed] == bytes;
  }

  /** The bytes of a file's clusters after the gap is zeroed and the data copied in. */
  function FilledAndWritten(data: seq<Byte>, size: nat, position: nat, bytes: seq<Byte>): (r: seq<Byte>)
    requires size <= |data| && position + |bytes| <= |data|
    ensures |r| == |data|
  {
    Splice(if position > size then Splice(data, size, Zeros(position - size)) else data, position, bytes)
  }

  lemma FilledIsWritten(data: seq<Byte>, size: nat, position: nat, bytes: seq<Byte>)
    requires size <= |data| && position + |bytes| <= |data|
    ensures var newSize := if position + |bytes| > size then position + |bytes| else size;
      FilledAndWritten(data, size, position, bytes)[..newSize] == Written(data[..size], position, bytes)
  {
    WrittenInClusters(data, size, position, bytes);
  }

  /** Writing into the clusters of one chain leaves the bytes of every other chain. */
  lemma OtherChainBytes(entries: seq<FatEntry>, chains: Chains, s: nat, t: nat, before: View, after: View, b: nat)
    requires ChainsOk(entries, chains) && s in chains && t in chains && s != t
    requires SameElsewhere(before, after, chains[s])
    requires ViewCovers(after, b, chains[t])
    ensures ViewCovers(before, b, chains[t])
    ensures ChainBytes(after, b, chains[t]) == ChainBytes(before, b, chains[t])
  {
    forall k | 0 <= k < |chains[t]| ensures after[chains[t][k]] == before[chains[t][k]] {
      assert chains[t][k] in chains[t];
    }
    ChainBytesFrame(before, after, b, chains[t]);
  }

  /** What a resize changes: the chains, which of them are lost, and the free clusters. */
  datatype VolumeLayout = VolumeLayout(chains: Chains, lost: set<nat>, free: set<nat>)

  /**
   What a resize from `current` to `wanted` clusters does.  A failed one has linked every free cluster to the
   chain.  Clusters from `current` on, which no size accounts for, are lost.
   */
  ghost predicate Resized(before: VolumeLayout, after: VolumeLayout, s: nat, current: nat, wanted: nat, ok: bool,
                          added: seq<nat>)
    requires s in before.chains && current <= |before.chains[s]|
  {
    && (ok <==> wanted - current <= |before.free|)
    && |added| == (if wanted <= current then 0 else if ok then wanted - current else |before.free|)
    && Elements(added) <= before.free
    && |after.free| == (if ok then |before.free| + current - wanted else 0)
    && after.free == (if wanted < current then before.free + Elements(before.chains[s][wanted..current])
                      else before.free - Elements(added))
    && (if wanted == current || (wanted > current && added == [])
        then after.chains == before.chains && after.lost == before.lost
        else
          && after.chains == Relinked(before.chains, s, AtMost(wanted, current), current, added)
          && after.lost == LostWith(before.lost, before.chains[s], current))
  }

  /** A resize keeps the clusters of the smaller size and every other chain, and makes no file lost. */
  lemma ResizedKeeps(entries: seq<FatEntry>, before: VolumeLayout, after: VolumeLayout, s: nat, current: nat,
                     wanted: nat, ok: bool, added: seq<nat>)
    requires ChainsOk(entries, before.chains) && before.lost <= before.chains.Keys
      && before.free == FreeClusters(entries)
    requires s in before.chains && 0 < current <= |before.chains[s]| && 0 < wanted
    requires Resized(before, after, s, current, wanted, ok, added)
    ensures before.chains.Keys <= after.chains.Keys && before.lost <= after.lost
    ensures forall t :: t in before.chains && t != s ==> after.chains[t] == before.chains[t]
    ensures forall t :: t in before.chains && t in after.lost ==> t in before.lost
    ensures var k := AtMost(wanted, current);
      && k <= |after.chains[s]| && k <= |before.chains[s]| && after.chains[s][..k] == before.chains[s][..k]
      && (ok ==> wanted <= |after.chains[s]|) && (!ok ==> current < wanted && current <= |after.chains[s]|)
    ensures after.chains[s] == before.chains[s]
         || after.chains[s] == before.chains[s][..AtMost(wanted, current)] + added
    ensures ok && wanted > current ==> after.chains[s] == before.chains[s][..current] + added
    ensures ok && wanted > current && current < |before.chains[s]| ==>
      && before.chains[s][current] in after.lost && before.chains[s][current] in after.chains
      && after.chains[before.chains[s][current]] == before.chains[s][current..]
  {
    hide Relinked, LostWith, ChainsOk, FreeClusters;
    forall c, t | c in added && t in before.chains ensures c !in before.chains[t] {
      assert c in Elements(added);
      FreeIsNew(entries, before.chains, c);
    }
    RelinkedLost(entries, before.chains, before.lost, s, AtMost(wanted, current), current, added);
    assert wanted < current ==> added == [];
  }

  /** A resize gives a chain no clusters but its own and free ones. */
  lemma ResizedWithin(entries: seq<FatEntry>, before: VolumeLayout, after: VolumeLayout, s: nat, current: nat,
                      wanted: nat, ok: bool, added: seq<nat>)
    requires ChainsOk(entries, before.chains) && before.lost <= before.chains.Keys
      && before.free == FreeClusters(entries)
    requires s in before.chains && 0 < current <= |before.chains[s]| && 0 < wanted
    requires Resized(before, after, s, current, wanted, ok, added)
    ensures s in after.chains && Elements(after.chains[s]) <= Elements(before.chains[s]) + before.free
  {
    hide ChainsOk, FreeClusters, Relinked, LostWith;
    ResizedKeeps(entries, before, after, s, current, wanted, ok, added);
    forall c | c in before.chains[s][..AtMost(wanted, current)] + added
      ensures c in before.chains[s] || c in before.free
    {
      assert c in added ==> c in Elements(added);
    }
  }

  /** Every file but the one at `s` has its chain and the contents of its clusters, and no file is lost. */
  ghost predicate OthersSame(before: VolumeLayout, view: View, after: VolumeLayout, viewAfter: View, s: nat) {
    && before.chains.Keys <= after.chains.Keys
    && before.lost <= after.lost && (forall t :: t in before.chains && t in after.lost ==> t in before.lost)
    && forall t :: t in before.chains && t != s && t !in after.lost ==>
         && after.chains[t] == before.chains[t]
         && forall c :: c in before.chains[t] ==> c in view && c in viewAfter && viewAfter[c] == view[c]
  }

  lemma OthersTwice(a: VolumeLayout, viewA: View, b: VolumeLayout, viewB: View, c: VolumeLayout, viewC: View, s: nat)
    requires OthersSame(a, viewA, b, viewB, s) && OthersSame(b, viewB, c, viewC, s)
    ensures OthersSame(a, viewA, c, viewC, s)
  {
    forall t | t in a.chains && t != s && t !in c.lost
      ensures t in c.chains && c.chains[t] == a.chains[t]
      ensures forall k :: k in a.chains[t] ==> k in viewA && k in viewC && viewC[k] == viewA[k]
    {
      assert t !in b.lost;
    }
  }

  lemma OthersItself(now: VolumeLayout, view: View, s: nat)
    requires forall t, c :: t in now.chains && c in now.chains[t] ==> c in view
    ensures OthersSame(now, view, now, view, s)
  {
  }

  /** A resize touches no other file. */
  lemma OthersResized(entries: seq<FatEntry>, before: VolumeLayout, after: VolumeLayout, view: View, s: nat,
                      current: nat, wanted: nat, ok: bool, added: seq<nat>)
    requires ChainsOk(entries, before.chains) && before.lost <= before.chains.Keys
      && before.free == FreeClusters(entries)
    requires s in before.chains && 0 < current <= |before.chains[s]| && 0 < wanted
    requires Resized(before, after, s, current, wanted, ok, added)
    requires forall t, c :: t in before.chains && c in before.chains[t] ==> c in view
    ensures OthersSame(before, view, after, view, s)
  {
    hide Resized, ChainsOk, FreeClusters;
    ResizedKeeps(entries, before, after, s, current, wanted, ok, added);
  }

  /** Changing only the clusters of one file and of a lost chain leaves the other files. */
  lemma OthersWithin(entries: seq<FatEntry>, now: VolumeLayout, free: set<nat>, view: View, viewAfter: View, s: nat,
                     t: nat)
    requires ChainsOk(entries, now.chains) && s in now.chains && t in now.chains && (t == s || t in now.lost)
    requires SameElsewhere(view, viewAfter, now.chains[s] + now.chains[t])
    requires forall u, c :: u in now.chains && c in now.chains[u] ==> c in view
    ensures OthersSame(now, view, now.(free := free), viewAfter, s)
  {
    hide IsChain;
  }

  /** The same in terms of sizes. */
  lemma ResizedPrefix(entries: seq<FatEntry>, before: VolumeLayout, after: VolumeLayout, s: nat, size: nat,
                      newSize: nat, b: nat, ok: bool, added: seq<nat>)
    requires b > 0 && s in before.chains && ClustersFor(size, b) <= |before.chains[s]|
    requires ChainsOk(entries, before.chains) && before.lost <= before.chains.Keys
      && before.free == FreeClusters(entries)
    requires Resized(before, after, s, ClustersFor(size, b), ClustersFor(newSize, b), ok, added)
    ensures ok <==> ClustersFor(newSize, b) - ClustersFor(size, b) <= |before.free|
    ensures !ok ==> size < newSize
    ensures before.chains.Keys <= after.chains.Keys && before.lost <= after.lost
    ensures forall t :: t in before.chains && t != s ==> after.chains[t] == before.chains[t]
    ensures forall t :: t in before.chains && t in after.lost ==> t in before.lost
    ensures var k := ClustersKept(size, newSize, b);
      && 0 <= k <= |after.chains[s]| && k <= |before.chains[s]| && after.chains[s][..k] == before.chains[s][..k]
      && (if newSize < size then newSize else size) <= k * b
      && ClustersFor(if ok then newSize else size, b) <= |after.chains[s]|
  {
    hide Elements, Relinked, LostWith, ChainsOk, FreeClusters, Resized, ClustersFor;
    ResizedKeeps(entries, before, after, s, ClustersFor(size, b), ClustersFor(newSize, b), ok, added);
    ResizedOk(before, after, s, ClustersFor(size, b), ClustersFor(newSize, b), ok, added);
    ClustersMonotone(if newSize < size then newSize else size, if newSize < size then size else newSize, b);
    SizeInClusters(size, b);
    SizeInClusters(newSize, b);
  }

  lemma ResizedOk(before: VolumeLayout, after: VolumeLayout, s: nat, current: nat, wanted: nat, ok: bool,
                  added: seq<nat>)
    requires s in before.chains && current <= |before.chains[s]|
      && Resized(before, after, s, current, wanted, ok, added)
    ensures ok <==> wanted - current <= |before.free|
    ensures Elements(added) <= before.free && (ok && wanted > current ==> |added| == wanted - current)
  {
  }

  lemma NoneTaken(free: set<nat>)
    ensures Elements([]) <= free && free == free - Elements([])
  {
  }

  /** One free cluster fewer. */
  lemma TakenFree(free: set<nat>, now: set<nat>, after: set<nat>, added: seq<nat>, c: nat)
    requires Elements(added) <= free && now == free - Elements(added) && |now| == |free| - |added|
    requires c in now && after == now - {c}
    ensures Elements(added + [c]) <= free && after == free - Elements(added + [c]) && |after| == |free| - |added + [c]|
  {
    assert Elements(added + [c]) == Elements(added) + {c};
  }

  /** `added` is linked to a chain after its first `k` clusters, one by one. */
  ghost predicate GrownBy(chains: Chains, lost: set<nat>, chains': Chains, lost': set<nat>, s: nat, k: nat,
                          added: seq<nat>)
    requires s in chains && k <= |chains[s]|
  {
    if added == [] then chains' == chains && lost' == lost
    else chains' == Relinked(chains, s, k, k, added) && lost' == LostWith(lost, chains[s], k)
  }

  lemma GrownByNone(chains: Chains, lost: set<nat>, s: nat, k: nat)
    requires s in chains && k <= |chains[s]|
    ensures GrownBy(chains, lost, chains, lost, s, k, [])
  {
  }

  lemma GrownMore(chains: Chains, lost: set<nat>, now: Chains, lostNow: set<nat>, s: nat, k: nat, added: seq<nat>,
                  c: nat)
    requires s in chains && 0 < k <= |chains[s]| && (k < |chains[s]| ==> chains[s][k] != s)
    requires GrownBy(chains, lost, now, lostNow, s, k, added) && s in now && k + |added| <= |now[s]|
    ensures var (after, n) := (Relinked(now, s, k + |added|, k + |added|, [c]), k + |added|);
      && GrownBy(chains, lost, after, LostWith(lostNow, now[s], n), s, k, added + [c])
      && s in after && n + 1 <= |after[s]| && after[s][n] == c
  {
    hide Relinked, LostWith;
    RelinkedMore(chains, lost, s, k, added, c);
    assert added == [] ==> added + [c] == [c];
  }

  /** Two files agree on the bytes they both have. */
  predicate Common(a: seq<Byte>, b: seq<Byte>) {
    if |a| < |b| then a == b[..|a|] else a[..|b|] == b
  }

  lemma CommonPrefix(x: seq<Byte>, m: nat, y: seq<Byte>, n: nat, k: nat)
    requires m <= |x| && n <= |y| && k <= |x| && k <= |y| && x[..k] == y[..k] && (k == m || k == n || m == n)
    requires k <= m && k <= n
    requires m == n ==> k == n
    ensures Common(x[..m], y[..n])
  {
    assert x[..m][..k] == x[..k] && y[..n][..k] == y[..k];
  }

  /**
   For a file whose chain fits its size, a successful resize leaves it fitting, and takes from or
   gives back to the free clusters exactly the difference.
   */
  lemma ResizedExact(before: VolumeLayout, after: VolumeLayout, s: nat, current: nat, wanted: nat, added: seq<nat>)
    requires s in before.chains && current == |before.chains[s]| && 0 < current && 0 < wanted
    requires Resized(before, after, s, current, wanted, true, added)
    ensures s in after.chains && |after.chains[s]| == wanted && |after.free| + wanted == |before.free| + current
    ensures after.lost == before.lost
    ensures forall k :: 0 <= k < wanted && k < current ==> after.chains[s][k] == before.chains[s][k]
    ensures forall k :: current <= k < wanted ==> after.chains[s][k] in before.free && after.chains[s][k] !in after.free
    ensures forall k :: wanted <= k < current ==> before.chains[s][k] in after.free
  {
    forall k | current <= k < wanted ensures after.chains[s][k] in Elements(added) {
      assert after.chains[s][k] == added[k - current];
    }
    forall k | wanted <= k < current ensures before.chains[s][k] in Elements(before.chains[s][wanted..current]) {
      assert before.chains[s][k] == before.chains[s][wanted..current][k - wanted];
    }
  }

  lemma ResizedByCut(before: VolumeLayout, after: VolumeLayout, s: nat, current: nat, wanted: nat)
    requires s in before.chains && wanted < current <= |before.chains[s]|
    requires after.free == before.free + Elements(before.chains[s][wanted..current])
    requires |after.free| == |before.free| + current - wanted
    requires after.chains == Relinked(before.chains, s, wanted, current, [])
      && after.lost == LostWith(before.lost, before.chains[s], current)
    ensures Resized(before, after, s, current, wanted, true, [])
  {
    hide Relinked, LostWith;
  }

  lemma NotResized(before: VolumeLayout, s: nat, current: nat)
    requires s in before.chains && current <= |before.chains[s]|
    ensures Resized(before, before, s, current, current, true, [])
  {
  }

  lemma ResizedByGrowth(before: VolumeLayout, after: VolumeLayout, s: nat, current: nat, wanted: nat, ok: bool,
                        added: seq<nat>)
    requires s in before.chains && current <= |before.chains[s]| && current < wanted
    requires ok <==> |before.free| >= wanted - current
    requires |added| == if ok then wanted - current else |before.free|
    requires Elements(added) <= before.free && after.free == before.free - Elements(added)
    requires |after.free| == |before.free| - |added|
    requires GrownBy(before.chains, before.lost, after.chains, after.lost, s, current, added)
    ensures Resized(before, after, s, current, wanted, ok, added)
  {
    hide Relinked, LostWith;
  }

  /** If the handle was well parked and is not left behind, it still is. */
  ghost predicate ResizedParks(before: VolumeLayout, after: VolumeLayout, o: OpenFile, newSize: nat, ok: bool, b: nat)
    requires b > 0
  {
    HandleParked(before.chains, b, o) && !(ok && LeftBehind(o, newSize, b)) ==>
      HandleParked(after.chains, b, o.(inode := o.inode.(size := if ok then newSize else o.inode.size)))
  }

  lemma ResizedHandles(entries: seq<FatEntry>, before: VolumeLayout, after: VolumeLayout, handles: Handles, h: nat,
                       except: set<nat>, newSize: nat, ok: bool, added: seq<nat>, b: nat)
    requires b > 0 && AllSized(before.chains, before.lost, b, handles) && h in handles && newSize < U32
    requires AllParked(before.chains, b, handles, except) && h in except && MayResize(handles, h, newSize, b)
    requires ChainsOk(entries, before.chains) && before.lost <= before.chains.Keys
      && before.free == FreeClusters(entries)
    requires Resized(before, after, handles[h].inode.startCluster,
                     ClustersFor(handles[h].inode.size, b), ClustersFor(newSize, b), ok, added)
    ensures var size := if ok then newSize else handles[h].inode.size;
      var handles' := handles[h := handles[h].(inode := handles[h].inode.(size := size))];
      && AllSized(after.chains, after.lost, b, handles') && AllParked(after.chains, b, handles', except)
    ensures ResizedParks(before, after, handles[h], newSize, ok, b)
  {
    hide Elements, ChainsOk, FreeClusters, ClustersFor, AllParked, HandleParked;
    var (o, s) := (handles[h], handles[h].inode.startCluster);
    var (current, wanted) := (ClustersFor(o.inode.size, b), ClustersFor(newSize, b));
    var size := if ok then newSize else o.inode.size;
    assert HandleSized(before.chains, before.lost, b, o);
    ResizedPrefix(entries, before, after, s, o.inode.size, newSize, b, ok, added);
    if wanted == current {
      SameResized(before.chains, before.lost, handles, h, except, size, b);
    } else {
      hide Resized;
      HandlesResized(before.chains, before.lost, after.chains, after.lost, handles, h, except,
                     ClustersKept(o.inode.size, newSize, b), size, b);
    }
    OwnResized(before, after, o, newSize, ok, b);
  }

  /** A change of size within the same clusters. */
  lemma SameResized(chains: Chains, lost: set<nat>, handles: Handles, h: nat, except: set<nat>, size: nat, b: nat)
    requires b > 0 && AllSized(chains, lost, b, handles) && h in handles && size < U32
    requires AllParked(chains, b, handles, except) && h in except
    requires ClustersFor(size, b) == ClustersFor(handles[h].inode.size, b)
    ensures var handles' := handles[h := handles[h].(inode := handles[h].inode.(size := size))];
      AllSized(chains, lost, b, handles') && AllParked(chains, b, handles', except)
  {
    hide ClustersFor;
  }

  lemma OwnResized(before: VolumeLayout, after: VolumeLayout, o: OpenFile, newSize: nat, ok: bool, b: nat)
    requires b > 0 && o.inode.startCluster in before.chains && o.inode.startCluster in after.chains
    requires var (s, k) := (o.inode.startCluster, ClustersKept(o.inode.size, newSize, b));
      0 <= k <= |before.chains[s]| && k <= |after.chains[s]| && after.chains[s][..k] == before.chains[s][..k]
    requires !ok ==> o.inode.size < newSize
    ensures ResizedParks(before, after, o, newSize, ok, b)
  {
    hide ClustersFor, HandleParked, LeftBehind;
    if HandleParked(before.chains, b, o) && !(ok && LeftBehind(o, newSize, b)) {
      if ok {
        ParkedResized(before.chains, after.chains, o, ClustersKept(o.inode.size, newSize, b), newSize, b);
      } else {
        ClustersMonotone(o.inode.size, newSize, b);
        NotLeftBehind(o, b);
        ParkedResized(before.chains, after.chains, o, ClustersKept(o.inode.size, newSize, b), o.inode.size, b);
      }
    }
  }

  lemma StraysPast(o: OpenFile, position: nat, length: nat, b: nat)
    requires b > 0 && Strays(o, position, length, b)
    ensures position + length > o.inode.size && position >= o.inode.size
  {
    if position + length <= o.inode.size {
      ClustersMonotone(position + length, o.inode.size, b);
    }
  }

  lemma NotLeftBehind(o: OpenFile, b: nat)
    requires b > 0
    ensures !LeftBehind(o, o.inode.size, b)
  {
  }

  /** What a transfer of `accessed` bytes from `position` has done to the file and to the buffer. */
  ghost predicate Transferred(before: seq<Byte>, now: seq<Byte>, buf: FileAccessBuffer, position: nat, accessed: nat,
                              data: seq<Byte>) {
    && accessed <= buf.Length()
    && (accessed > 0 ==> position + accessed <= |before|)
    && (buf.Read? ==> now == before && data == Slice(before, position, accessed))
    && (buf.Write? ==> now == Splice(before, position, buf.bytes[..accessed]))
  }

  /** What its next `n` bytes do, at `at` in the file. */
  ghost predicate StepOf(before: seq<Byte>, now: seq<Byte>, buf: FileAccessBuffer, at: nat, accessed: nat, n: nat,
                         piece: seq<Byte>)
  {
    && n > 0 && at + n <= |before| && accessed + n <= buf.Length()
    && (buf.Read? ==> now == before && piece == Slice(before, at, n))
    && (buf.Write? ==> now == Splice(before, at, buf.bytes[accessed..accessed + n]) && piece == [])
  }

  lemma NothingTransferred(before: seq<Byte>, buf: FileAccessBuffer, position: nat)
    ensures Transferred(before, before, buf, position, 0, [])
  {
  }

  lemma TransferOneMore(before: seq<Byte>, now: seq<Byte>, after: seq<Byte>, buf: FileAccessBuffer, position: nat,
                        accessed: nat, data: seq<Byte>, n: nat, piece: seq<Byte>)
    requires Transferred(before, now, buf, position, accessed, data)
    requires StepOf(now, after, buf, position + accessed, accessed, n, piece)
    ensures Transferred(before, after, buf, position, accessed + n, data + piece)
  {
    if buf.Read? {
      SliceTwice(before, position, accessed, n);
    } else {
      var bytes := buf.bytes;
      SpliceTwice(before, position, bytes[..accessed], bytes[accessed..accessed + n]);
      assert bytes[..accessed] + bytes[accessed..accessed + n] == bytes[..accessed + n];
    }
  }

  /** Only clusters of `chain` differ. */
  ghost predicate SameElsewhere(before: View, after: View, chain: seq<nat>) {
    before.Keys == after.Keys && forall c :: c in before && c !in chain ==> after[c] == before[c]
  }

  lemma SpliceNothing(data: seq<Byte>, at: nat)
    ensures Splice(data, at, Zeros(0)) == data
  {
  }

  lemma SameKeys(before: View, after: View, chain: seq<nat>)
    requires SameElsewhere(before, after, chain)
    ensures before.Keys == after.Keys
  {
  }

  lemma SameElsewhereRefl(view: View, chain: seq<nat>)
    ensures SameElsewhere(view, view, chain)
  {
  }

  lemma SameElsewhereWider(before: View, after: View, a: seq<nat>, b: seq<nat>, second: bool)
    requires SameElsewhere(before, after, if second then b else a)
    ensures SameElsewhere(before, after, a + b)
  {
  }

  lemma SameElsewhereTrans(a: View, b: View, c: View, chain: seq<nat>)
    requires SameElsewhere(a, b, chain) && SameElsewhere(b, c, chain)
    ensures SameElsewhere(a, c, chain)
  {
  }
}
