/**
 Open files and what each has in hand: a handle that has accessed its file is parked on one
 cluster of its chain, and that is what keeps the cluster cached.
 */
module OpenFiles {
  import opened Arithmetic
  import opened FatTable
  import opened ClusterCache
  import opened FatChains

  /** A file as the handle that opened it knows it: where its chain starts, and its size. */
  datatype FileNode = FileNode(startCluster: nat, size: nat)

  /** The cluster a handle is parked on, 0 if none, and that cluster's place in the chain. */
  datatype AccessHelper = AccessHelper(currentCluster: nat, clusterIndex: nat)

  datatype OpenFile = OpenFile(inode: FileNode, helper: AccessHelper)

  type Handles = map<nat, OpenFile>

  const U32: nat := 0x1_0000_0000

  /** Files have at least one cluster at any point. */
  function ClustersFor(size: nat, bytesPerCluster: nat): (n: int)
    requires bytesPerCluster > 0
    ensures n >= 1
  {
    var n := (size + bytesPerCluster - 1) / bytesPerCluster;
    if n < 1 then 1 else n
  }

  /** These are the fewest clusters that hold the size, and never none. */
  lemma ClustersForIsLeast(size: nat, bytesPerCluster: nat)
    requires bytesPerCluster > 0
    ensures size <= ClustersFor(size, bytesPerCluster) * bytesPerCluster
    ensures forall m :: m >= 1 && size <= m * bytesPerCluster ==> ClustersFor(size, bytesPerCluster) <= m
  {
    var b := bytesPerCluster;
    var n := (size + b - 1) / b;
    DivBounds(size + b - 1, b);
    Distribute(n, 1, b);
    forall m | m >= 1 && size <= m * b ensures ClustersFor(size, b) <= m {
      if n > m {
        MulMonotone(m + 1, n, b);
        Distribute(m, 1, b);
      }
    }
  }

  /** A handle is parked on the chain `t`, whose first cluster counts as the one with index `base`. */
  ghost predicate StandsOn(chains: Chains, o: OpenFile, t: nat, base: int) {
    && o.helper.currentCluster != 0 && t in chains && 0 <= o.helper.clusterIndex - base < |chains[t]|
    && chains[t][o.helper.clusterIndex - base] == o.helper.currentCluster
  }

  /** Where in the bytes of that chain its cluster starts. */
  function StartIn(o: OpenFile, base: int, bytesPerCluster: nat): nat
    requires base <= o.helper.clusterIndex
  {
    var j: nat := o.helper.clusterIndex - base;
    j * bytesPerCluster
  }

  /** A handle has open a file, whose chain is long enough for the size it knows. */
  ghost predicate HandleSized(chains: Chains, lost: set<nat>, bytesPerCluster: nat, o: OpenFile)
    requires bytesPerCluster > 0
  {
    && o.inode.startCluster in chains && o.inode.startCluster !in lost && o.inode.size < U32
    && ClustersFor(o.inode.size, bytesPerCluster) <= |chains[o.inode.startCluster]|
  }

  /**
   A handle parked within its file is parked on the file's chain.  Past the end it may be parked anywhere,
   because it is moved before it is used.
   */
  ghost predicate HandleParked(chains: Chains, bytesPerCluster: nat, o: OpenFile)
    requires bytesPerCluster > 0
  {
    o.helper.currentCluster != 0 && o.helper.clusterIndex < ClustersFor(o.inode.size, bytesPerCluster) ==>
      StandsOn(chains, o, o.inode.startCluster, 0)
  }

  ghost predicate AllSized(chains: Chains, lost: set<nat>, bytesPerCluster: nat, handles: Handles)
    requires bytesPerCluster > 0
  {
    forall h :: h in handles ==> HandleSized(chains, lost, bytesPerCluster, handles[h])
  }

  /** All handles but those of `except` are parked well. */
  ghost predicate AllParked(chains: Chains, bytesPerCluster: nat, handles: Handles, except: set<nat>)
    requires bytesPerCluster > 0
  {
    forall h :: h in handles && h !in except ==> HandleParked(chains, bytesPerCluster, handles[h])
  }

  /** The handles parked on a cluster. */
  function Parked(handles: Handles, c: nat): set<nat> {
    set h | h in handles && handles[h].helper.currentCluster == c
  }

  /** Every reference count is the number of handles parked on the cluster. */
  ghost predicate CountsOk(cache: Cache, handles: Handles) {
    forall c: nat :: c != 0 ==> References(cache, c) == |Parked(handles, c)|
  }

  function Is(c: nat, d: nat): nat {
    if c == d then 1 else 0
  }

  /** Moving a handle between clusters keeps the counts if one use moves with it. */
  lemma Repark(before: Cache, after: Cache, handles: Handles, h: nat, o: OpenFile)
    requires h in handles && CountsOk(before, handles)
    requires forall c: nat :: c != 0 ==>
      References(after, c)
      == References(before, c) - Is(c, handles[h].helper.currentCluster) + Is(c, o.helper.currentCluster)
    ensures CountsOk(after, handles[h := o])
  {
    forall c: nat | c != 0 ensures References(after, c) == |Parked(handles[h := o], c)| {
      var (p, q) := (Parked(handles, c), Parked(handles[h := o], c));
      if c == o.helper.currentCluster {
        assert q == p + {h};
      } else {
        assert q == p - {h};
      }
    }
  }

  lemma ParkedIsCached(cache: Cache, handles: Handles, h: nat)
    requires CountsOk(cache, handles) && h in handles && handles[h].helper.currentCluster != 0
    ensures handles[h].helper.currentCluster in cache
  {
    assert h in Parked(handles, handles[h].helper.currentCluster);
  }

  /** Positions within a file lie within its clusters. */
  lemma PositionInChain(position: nat, size: nat, bytesPerCluster: nat)
    requires bytesPerCluster > 0 && position < size
    ensures 0 <= position / bytesPerCluster < ClustersFor(size, bytesPerCluster)
    ensures size <= ClustersFor(size, bytesPerCluster) * bytesPerCluster
  {
    var b := bytesPerCluster;
    DivBounds(position, b);
    DivBounds(size + b - 1, b);
    var n := (size + b - 1) / b;
    assert (n + 1) * b == n * b + b;
    if n <= position / b {
      MulMonotone(n, position / b, b);
    }
  }

  lemma SizeInClusters(size: nat, bytesPerCluster: nat)
    requires bytesPerCluster > 0
    ensures size <= ClustersFor(size, bytesPerCluster) * bytesPerCluster
  {
    if size > 0 {
      PositionInChain(0, size, bytesPerCluster);
    }
  }

  /** How many of `length` bytes from `position` lie within a file. */
  function Accessible(size: nat, position: nat, length: nat): nat {
    if position >= size then 0
    else if length < size - position then length else size - position
  }

  /** Copying in two steps. */
  lemma SpliceTwice(data: seq<Byte>, at: nat, a: seq<Byte>, b: seq<Byte>)
    requires at + |a| + |b| <= |data|
    ensures Splice(Splice(data, at, a), at + |a|, b) == Splice(data, at, a + b)
  {
    var (first, both) := (Splice(data, at, a), Splice(Splice(data, at, a), at + |a|, b));
    forall k | 0 <= k < |data| ensures both[k] == Splice(data, at, a + b)[k] {
      SpliceAt(data, at, a, k);
      SpliceAt(first, at + |a|, b, k);
      SpliceAt(data, at, a + b, k);
      hide Splice;
    }
  }

  lemma SpliceAt(data: seq<Byte>, at: nat, bytes: seq<Byte>, k: nat)
    requires at + |bytes| <= |data| && k < |data|
    ensures Splice(data, at, bytes)[k] == if at <= k < at + |bytes| then bytes[k - at] else data[k]
  {
  }

  lemma SliceTwice(data: seq<Byte>, at: nat, m: nat, n: nat)
    requires at + m + n <= |data|
    ensures Slice(data, at, m) + Slice(data, at + m, n) == Slice(data, at, m + n)
  {
  }

  /** How many of a file's clusters a resize keeps in place. */
  function ClustersKept(size: nat, newSize: nat, bytesPerCluster: nat): int
    requires bytesPerCluster > 0
  {
    var (current, wanted) := (ClustersFor(size, bytesPerCluster), ClustersFor(newSize, bytesPerCluster));
    if wanted < current then wanted else current
  }

  /** How many clusters a file lacks for `newSize` bytes. */
  function ClustersNeeded(size: nat, newSize: nat, bytesPerCluster: nat): int
    requires bytesPerCluster > 0
  {
    if newSize <= size then 0 else ClustersFor(newSize, bytesPerCluster) - ClustersFor(size, bytesPerCluster)
  }

  /** When a file may be resized through one of its handles: no other handle counts on clusters that do not stay. */
  ghost predicate MayResize(handles: Handles, h: nat, newSize: nat, bytesPerCluster: nat)
    requires bytesPerCluster > 0 && h in handles
  {
    ClustersFor(newSize, bytesPerCluster) != ClustersFor(handles[h].inode.size, bytesPerCluster) ==>
      forall x :: x in handles && x != h && handles[x].inode.startCluster == handles[h].inode.startCluster ==>
        ClustersFor(handles[x].inode.size, bytesPerCluster)
        <= ClustersKept(handles[h].inode.size, newSize, bytesPerCluster)
  }

  /** Growing a file whose chain is exactly as long as its size asks is always possible. */
  lemma ExactMayGrow(chains: Chains, lost: set<nat>, handles: Handles, h: nat, newSize: nat, bytesPerCluster: nat)
    requires bytesPerCluster > 0 && AllSized(chains, lost, bytesPerCluster, handles) && h in handles
    requires handles[h].inode.size <= newSize
    requires |chains[handles[h].inode.startCluster]| == ClustersFor(handles[h].inode.size, bytesPerCluster)
    ensures MayResize(handles, h, newSize, bytesPerCluster)
  {
    ClustersMonotone(handles[h].inode.size, newSize, bytesPerCluster);
  }

  /** The handle is parked past the clusters that stay, at an index that the file has once it is resized. */
  predicate LeftBehind(o: OpenFile, newSize: nat, bytesPerCluster: nat)
    requires bytesPerCluster > 0
  {
    && o.helper.currentCluster != 0
    && ClustersFor(o.inode.size, bytesPerCluster) <= o.helper.clusterIndex < ClustersFor(newSize, bytesPerCluster)
  }

  /**
   A write of `length` bytes at `position` goes astray: it makes the file longer, it starts with the first new
   cluster, and the handle is parked at that index already.
   */
  predicate Strays(o: OpenFile, position: nat, length: nat, bytesPerCluster: nat)
    requires bytesPerCluster > 0
  {
    var (size, current) := (o.inode.size, ClustersFor(o.inode.size, bytesPerCluster));
    && position >= size && ClustersFor(position + length, bytesPerCluster) > current
    && o.helper.currentCluster != 0 && o.helper.clusterIndex == current && size == current * bytesPerCluster
  }

  /**
   A handle that is left behind meets the first access to the longer file at its own index only if the write
   strays.
   */
  lemma StraysExactly(o: OpenFile, position: nat, length: nat, bytesPerCluster: nat)
    requires bytesPerCluster > 0 && position + length > o.inode.size
    ensures var (first, b) := (if position > o.inode.size then o.inode.size else position, bytesPerCluster);
      Strays(o, position, length, b) <==> LeftBehind(o, position + length, b) && o.helper.clusterIndex == first / b
  {
    var (size, b) := (o.inode.size, bytesPerCluster);
    var (first, current) := (if position > size then size else position, ClustersFor(size, b));
    SizeInClusters(size, b);
    DivBounds(first, b);
    if first / b >= current {
      MulMonotone(current, first / b, b);
    }
    if size == current * b && first == size {
      DivModOfSum(current, b, 0);
    }
  }

  /** The cluster a handle is parked on is in the chain of its file, or in one that nothing links to any more. */
  ghost predicate Tracked(chains: Chains, lost: set<nat>, o: OpenFile) {
    || StandsOn(chains, o, o.inode.startCluster, 0)
    || exists t :: t in lost && t in chains && o.helper.currentCluster in chains[t]
  }

  lemma ClustersMonotone(a: nat, b: nat, bytesPerCluster: nat)
    requires bytesPerCluster > 0 && a <= b
    ensures ClustersFor(a, bytesPerCluster) <= ClustersFor(b, bytesPerCluster)
  {
    var d := bytesPerCluster;
    DivBounds(a + d - 1, d);
    DivBounds(b + d - 1, d);
    if (b + d - 1) / d < (a + d - 1) / d {
      MulMonotone((b + d - 1) / d + 1, (a + d - 1) / d, d);
    }
  }

  /** A handle that moves keeps its file, and is well parked when it is parked nowhere. */
  lemma HandleMoved(chains: Chains, lost: set<nat>, bytesPerCluster: nat, handles: Handles, except: set<nat>, h: nat,
                    helper: AccessHelper)
    requires bytesPerCluster > 0 && h in handles && AllSized(chains, lost, bytesPerCluster, handles)
    requires AllParked(chains, bytesPerCluster, handles, except + {h})
    ensures handles[h].inode.size < U32
    ensures var handles' := handles[h := OpenFile(handles[h].inode, helper)];
      && AllSized(chains, lost, bytesPerCluster, handles')
      && AllParked(chains, bytesPerCluster, handles', except + {h})
      && (helper.currentCluster == 0 ==> AllParked(chains, bytesPerCluster, handles', except))
  {
    hide ClustersFor, StandsOn;
  }

  /** Handles stay good when their file's chain keeps `k` clusters and goes on in any way. */
  lemma HandlesResized(chains: Chains, lost: set<nat>, chains': Chains, lost': set<nat>, handles: Handles, h: nat,
                       except: set<nat>, k: nat, size: nat, bytesPerCluster: nat)
    requires bytesPerCluster > 0 && AllSized(chains, lost, bytesPerCluster, handles) && h in handles
    requires AllParked(chains, bytesPerCluster, handles, except) && h in except
    requires var s := handles[h].inode.startCluster;
      && s in chains' && k <= |chains[s]| && k <= |chains'[s]| && chains'[s][..k] == chains[s][..k]
      && (forall t :: t in chains && t != s ==> t in chains' && chains'[t] == chains[t])
      && (forall t :: t in chains && t in lost' ==> t in lost)
      && (forall x :: x in handles && x != h && handles[x].inode.startCluster == s ==>
            ClustersFor(handles[x].inode.size, bytesPerCluster) <= k)
      && size < U32 && ClustersFor(size, bytesPerCluster) <= |chains'[s]|
    ensures var handles' := handles[h := handles[h].(inode := handles[h].inode.(size := size))];
      && AllSized(chains', lost', bytesPerCluster, handles') && AllParked(chains', bytesPerCluster, handles', except)
  {
    hide ClustersFor;
    var s := handles[h].inode.startCluster;
    forall x | x in handles && x !in except ensures HandleParked(chains', bytesPerCluster, handles[x]) {
      assert HandleParked(chains, bytesPerCluster, handles[x])
          && HandleSized(chains, lost, bytesPerCluster, handles[x]);
      var i := handles[x].helper.clusterIndex;
      if handles[x].inode.startCluster == s && i < k {
        assert chains'[s][..k][i] == chains[s][..k][i];
      }
    }
  }

  /** A handle that is not left behind stays parked well. */
  lemma ParkedResized(chains: Chains, chains': Chains, o: OpenFile, k: nat, size: nat, bytesPerCluster: nat)
    requires bytesPerCluster > 0 && HandleParked(chains, bytesPerCluster, o)
    requires var s := o.inode.startCluster;
      s in chains && s in chains' && k <= |chains[s]| && k <= |chains'[s]| && chains'[s][..k] == chains[s][..k]
    requires k == ClustersKept(o.inode.size, size, bytesPerCluster) && !LeftBehind(o, size, bytesPerCluster)
    ensures HandleParked(chains', bytesPerCluster, o.(inode := o.inode.(size := size)))
  {
    hide ClustersFor;
    var (s, i) := (o.inode.startCluster, o.helper.clusterIndex);
    if i < k {
      assert chains'[s][..k][i] == chains[s][..k][i];
    }
  }

  // ---------------------------------------------------------------------------
  // A file as a plain byte sequence

  function Zeros(n: nat): (r: seq<Byte>)
    ensures |r| == n
  {
    seq(n, _ => 0)
  }

  /** A file's contents after `bytes` are written at `position`; a gap past the end reads as zeros. */
  function Written(contents: seq<Byte>, position: nat, bytes: seq<Byte>): seq<Byte> {
    if position > |contents| then contents + Zeros(position - |contents|) + bytes
    else if position + |bytes| > |contents| then contents[..position] + bytes
    else contents[..position] + bytes + contents[position + |bytes|..]
  }

  /** What a read of at most `length` bytes from `position` returns. */
  function ReadFrom(contents: seq<Byte>, position: nat, length: nat): seq<Byte> {
    Slice(contents, position, Accessible(|contents|, position, length))
  }

  /** The bytes of a file's clusters, after the gap is zeroed and the data copied in. */
  lemma WrittenInClusters(data: seq<Byte>, size: nat, position: nat, bytes: seq<Byte>)
    requires size <= |data| && position + |bytes| <= |data|
    ensures var zeroed := if position > size then Splice(data, size, Zeros(position - size)) else data;
      var newSize := if position + |bytes| > size then position + |bytes| else size;
      Splice(zeroed, position, bytes)[..newSize] == Written(data[..size], position, bytes)
  {
    var zeroed := if position > size then Splice(data, size, Zeros(position - size)) else data;
    var newSize := if position + |bytes| > size then position + |bytes| else size;
    if position > size {
      assert zeroed[..position] == data[..size] + Zeros(position - size);
    } else {
      assert zeroed[..position] == data[..size][..position];
    }
    var after := Splice(zeroed, position, bytes);
    assert after[..position] == zeroed[..position];
    assert after[position..position + |bytes|] == bytes;
    assert after[..newSize]
        == after[..position] + after[position..position + |bytes|] + after[position + |bytes|..newSize];
    if newSize > position + |bytes| {
      assert after[position + |bytes|..newSize] == data[..size][position + |bytes|..];
    }
  }

  /** Read your writes: any read that overlaps nothing else sees exactly what was written. */
  lemma ReadAfterWrite(contents: seq<Byte>, position: nat, bytes: seq<Byte>)
    ensures ReadFrom(Written(contents, position, bytes), position, |bytes|) == bytes
  {
  }

  /** A write, byte by byte: what was there stays, the gap is zero, and the bytes are where they were to go. */
  ghost predicate IsWritten(was: seq<Byte>, now: seq<Byte>, position: nat, bytes: seq<Byte>) {
    && |now| == (if position + |bytes| > |was| then position + |bytes| else |was|)
    && (forall k :: 0 <= k < position && k < |was| ==> now[k] == was[k])
    && (forall k :: |was| <= k < position ==> now[k] == 0)
    && (forall k :: position <= k < position + |bytes| ==> now[k] == bytes[k - position])
    && (forall k :: position + |bytes| <= k < |was| ==> now[k] == was[k])
  }

  lemma WrittenBytes(contents: seq<Byte>, position: nat, bytes: seq<Byte>)
    ensures IsWritten(contents, Written(contents, position, bytes), position, bytes)
  {
  }

  /** A read, byte by byte: as many bytes as are asked for and there. */
  ghost predicate IsRead(contents: seq<Byte>, position: nat, length: nat, accessed: nat, data: seq<Byte>) {
    && accessed == |data| <= length
    && (position >= |contents| ==> accessed == 0)
    && (position < |contents| ==> position + accessed <= |contents|)
    && (position < |contents| ==> accessed == length || position + accessed == |contents|)
    && (forall i :: 0 <= i < accessed ==> data[i] == contents[position + i])
  }

  lemma ReadBytes(contents: seq<Byte>, position: nat, length: nat)
    ensures var data := ReadFrom(contents, position, length);
      IsRead(contents, position, length, |data|, data)
  {
  }

  /** Zeroing in two steps. */
  lemma ZerosSum(m: nat, n: nat)
    ensures Zeros(m) + Zeros(n) == Zeros(m + n)
  {
  }
}
