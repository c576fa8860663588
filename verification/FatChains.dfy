/**
 Cluster chains: the linked lists the table spells out, and the byte sequence that the
 clusters of a chain hold together.
 */
module FatChains {
  import opened Arithmetic
  import opened FatTable
  import opened ClusterCache

  /** `chain` is the list of clusters from its first one to an end mark. */
  ghost predicate IsChain(entries: seq<FatEntry>, chain: seq<nat>) {
    && |chain| > 0
    && (forall k :: 0 <= k < |chain| ==> 2 <= chain[k] < |entries|)
    && (forall k :: 0 <= k < |chain| - 1 ==> entries[chain[k]] == Next(chain[k + 1]))
    && entries[chain[|chain| - 1]] == EndOfChain
  }

  /** The chains on a volume, by first cluster. */
  type Chains = map<nat, seq<nat>>

  ghost predicate ChainsOk(entries: seq<FatEntry>, chains: Chains) {
    && (forall s :: s in chains ==> IsChain(entries, chains[s]) && chains[s][0] == s)
    && (forall s, t, c :: s in chains && t in chains && s != t && c in chains[s] ==> c !in chains[t])
  }

  /** An end-marked chain visits no cluster twice. */
  lemma {:induction false} ChainAcyclic(entries: seq<FatEntry>, chain: seq<nat>, i: nat, j: nat)
    requires IsChain(entries, chain) && i < j < |chain|
    ensures chain[i] != chain[j]
    decreases |chain| - j
  {
    assert entries[chain[i]] == Next(chain[i + 1]);
    if j + 1 < |chain| {
      assert entries[chain[j]] == Next(chain[j + 1]);
      ChainAcyclic(entries, chain, i + 1, j + 1);
    }
  }

  lemma ChainDistinct(entries: seq<FatEntry>, chain: seq<nat>, k: nat)
    requires IsChain(entries, chain) && k < |chain|
    ensures forall i :: 0 <= i < |chain| && i != k ==> chain[i] != chain[k]
  {
    forall i | 0 <= i < |chain| && i != k ensures chain[i] != chain[k] {
      if i < k {
        ChainAcyclic(entries, chain, i, k);
      } else {
        ChainAcyclic(entries, chain, k, i);
      }
    }
  }

  /** Following the table from a cluster: where `n` links lead. */
  datatype WalkResult = At(cluster: nat) | UnexpectedEntry | OutOfTable

  function Walk(entries: seq<FatEntry>, cluster: nat, n: nat): WalkResult
    decreases n
  {
    if n == 0 then At(cluster)
    else if cluster >= |entries| then OutOfTable
    else if !entries[cluster].Next? then UnexpectedEntry
    else Walk(entries, entries[cluster].cluster, n - 1)
  }

  lemma {:induction false} WalkOnChain(entries: seq<FatEntry>, chain: seq<nat>, i: nat, n: nat)
    requires IsChain(entries, chain) && i + n < |chain|
    ensures Walk(entries, chain[i], n) == At(chain[i + n])
    decreases n
  {
    if n > 0 {
      WalkOnChain(entries, chain, i + 1, n - 1);
    }
  }

  // ---------------------------------------------------------------------------
  // Growing and shrinking

  lemma ChainEntryUsed(entries: seq<FatEntry>, chain: seq<nat>, k: nat)
    requires IsChain(entries, chain) && k < |chain|
    ensures 2 <= chain[k] < |entries|
    ensures entries[chain[k]] == if k == |chain| - 1 then EndOfChain else Next(chain[k + 1])
  {
  }

  /** `chain` cut to its first `k` clusters and continued by a free one. */
  lemma ExtendChain(entries: seq<FatEntry>, chain: seq<nat>, k: nat, c: nat)
    requires IsChain(entries, chain) && 0 < k <= |chain| && c in FreeClusters(entries)
    ensures IsChain(entries[chain[k - 1] := Next(c)][c := EndOfChain], chain[..k] + [c])
  {
    var (longer, after) := (chain[..k] + [c], entries[chain[k - 1] := Next(c)][c := EndOfChain]);
    forall i | 0 <= i < |longer| - 1 ensures after[longer[i]] == Next(longer[i + 1]) {
      ChainEntryUsed(entries, chain, i);
      if i < k - 1 {
        ChainAcyclic(entries, chain, i, k - 1);
      }
    }
  }

  /** A chain none of whose clusters is rewritten stays a chain. */
  lemma ChainFrame(before: seq<FatEntry>, after: seq<FatEntry>, chain: seq<nat>)
    requires IsChain(before, chain) && |after| == |before|
    requires forall k :: 0 <= k < |chain| ==> after[chain[k]] == before[chain[k]]
    ensures IsChain(after, chain)
  {
  }

  lemma FreeNotInChains(entries: seq<FatEntry>, chains: Chains, s: nat, c: nat)
    requires ChainsOk(entries, chains) && s in chains && c in FreeClusters(entries)
    ensures c !in chains[s]
  {
    var chain := chains[s];
    if c in chain {
      var k :| 0 <= k < |chain| && chain[k] == c;
      ChainEntryUsed(entries, chain, k);
    }
  }

  ghost function Elements(cs: seq<nat>): set<nat> {
    set c | c in cs
  }

  /**
   One chain keeps its first `k` clusters and goes on with `added`.  Its clusters from `m` on, if there are
   any, become a chain of their own that nothing links to.
   */
  ghost function Relinked(chains: Chains, s: nat, k: nat, m: nat, added: seq<nat>): Chains
    requires s in chains && k <= m <= |chains[s]|
  {
    var r := chains[s := chains[s][..k] + added];
    if m < |chains[s]| then r[chains[s][m] := chains[s][m..]] else r
  }

  /** The first clusters of the chains that nothing links to, with the one that a relinking adds. */
  ghost function LostWith(lost: set<nat>, chain: seq<nat>, m: nat): set<nat>
    requires m <= |chain|
  {
    if m < |chain| then lost + {chain[m]} else lost
  }

  /** A cluster further down a chain starts no chain. */
  lemma TailIsNew(entries: seq<FatEntry>, chains: Chains, s: nat, m: nat)
    requires ChainsOk(entries, chains) && s in chains && 0 < m < |chains[s]|
    ensures chains[s][m] !in chains && chains[s][m] != s
  {
    ChainAcyclic(entries, chains[s], 0, m);
    forall t | t in chains ensures t in chains[t] {
      assert chains[t][0] in chains[t];
    }
    assert chains[s][m] in chains[s];
  }

  lemma PartsApart(entries: seq<FatEntry>, chain: seq<nat>, k: nat, m: nat)
    requires IsChain(entries, chain) && k <= m <= |chain|
    ensures forall c :: c in chain[..k] ==> c in chain && c !in chain[m..]
    ensures forall c :: c in chain[m..] ==> c in chain
  {
    hide IsChain;
    forall c | c in chain[..k] ensures c in chain && c !in chain[m..] {
      var i :| 0 <= i < k && chain[..k][i] == c;
      assert chain[i] == c;
      if c in chain[m..] {
        var j :| 0 <= j < |chain[m..]| && chain[m..][j] == c;
        ChainAcyclic(entries, chain, i, m + j);
      }
    }
  }

  /** Relinking with clusters that are in no chain keeps the chains apart. */
  lemma RelinkedApart(entries: seq<FatEntry>, chains: Chains, s: nat, k: nat, m: nat, added: seq<nat>)
    requires ChainsOk(entries, chains) && s in chains && 0 < k <= m <= |chains[s]|
    requires forall c, t :: c in added && t in chains ==> c !in chains[t]
    ensures var r := Relinked(chains, s, k, m, added);
      && (forall t, u, c :: t in r && u in r && t != u && c in r[t] ==> c !in r[u])
      && (forall t :: t in chains && t != s ==> t in r && r[t] == chains[t])
      && s in r && r[s] == chains[s][..k] + added
      && (m < |chains[s]| ==>
            && chains[s][m] !in chains && r.Keys == chains.Keys + {chains[s][m]}
            && r[chains[s][m]] == chains[s][m..])
      && (m == |chains[s]| ==> r.Keys == chains.Keys)
  {
    hide IsChain;
    var (chain, r) := (chains[s], Relinked(chains, s, k, m, added));
    if m < |chain| {
      TailIsNew(entries, chains, s, m);
    }
    PartsApart(entries, chain, k, m);
  }

  lemma FreeIsNew(entries: seq<FatEntry>, chains: Chains, c: nat)
    requires ChainsOk(entries, chains) && c in FreeClusters(entries)
    ensures forall t :: t in chains ==> c !in chains[t]
  {
    hide ChainsOk;
    forall t | t in chains ensures c !in chains[t] {
      FreeNotInChains(entries, chains, t, c);
    }
  }

  /** No chain of a file counts as lost by a relinking. */
  lemma RelinkedLost(entries: seq<FatEntry>, chains: Chains, lost: set<nat>, s: nat, k: nat, m: nat, added: seq<nat>)
    requires ChainsOk(entries, chains) && s in chains && 0 < k <= m <= |chains[s]| && lost <= chains.Keys
    requires forall c, t :: c in added && t in chains ==> c !in chains[t]
    ensures var (r, lost') := (Relinked(chains, s, k, m, added), LostWith(lost, chains[s], m));
      && lost' <= r.Keys && chains.Keys <= r.Keys && lost <= lost'
      && (forall t :: t in chains && t in lost' ==> t in lost)
      && r[s] == chains[s][..k] + added && (forall t :: t in chains && t != s ==> r[t] == chains[t])
      && (m < |chains[s]| ==> chains[s][m] in lost' && r[chains[s][m]] == chains[s][m..])
  {
    hide Relinked;
    RelinkedApart(entries, chains, s, k, m, added);
  }

  /** Linking one cluster more. */
  lemma RelinkedMore(chains: Chains, lost: set<nat>, s: nat, k: nat, added: seq<nat>, c: nat)
    requires s in chains && 0 < k <= |chains[s]| && (k < |chains[s]| ==> chains[s][k] != s)
    ensures added == [] ==>
      s in Relinked(chains, s, k, k, [c]) && Relinked(chains, s, k, k, [c])[s] == chains[s][..k] + [c]
    ensures added != [] ==>
      var r := Relinked(chains, s, k, k, added);
      && s in r && r[s] == chains[s][..k] + added
      && Relinked(r, s, k + |added|, k + |added|, [c]) == Relinked(chains, s, k, k, added + [c])
      && LostWith(LostWith(lost, chains[s], k), r[s], k + |added|) == LostWith(lost, chains[s], k)
      && s in Relinked(chains, s, k, k, added + [c])
      && Relinked(chains, s, k, k, added + [c])[s] == chains[s][..k] + (added + [c])
  {
    if added != [] {
      var r := Relinked(chains, s, k, k, added);
      assert r[s][..k + |added|] + [c] == chains[s][..k] + (added + [c]);
    }
  }

  /** Relinking keeps every chain a chain if the table has the new links and no other chain is touched. */
  lemma RelinkedOk(entries: seq<FatEntry>, after: seq<FatEntry>, chains: Chains, s: nat, k: nat, m: nat,
                   added: seq<nat>)
    requires ChainsOk(entries, chains) && s in chains && 0 < k <= m <= |chains[s]| && |after| == |entries|
    requires forall c, t :: c in added && t in chains ==> c !in chains[t]
    requires IsChain(after, chains[s][..k] + added)
    requires forall t, i :: t in chains && t != s && 0 <= i < |chains[t]| ==>
      after[chains[t][i]] == entries[chains[t][i]]
    requires forall i :: m <= i < |chains[s]| ==> after[chains[s][i]] == entries[chains[s][i]]
    ensures ChainsOk(after, Relinked(chains, s, k, m, added))
  {
    hide Relinked;
    RelinkedApart(entries, chains, s, k, m, added);
    var (chain, r) := (chains[s], Relinked(chains, s, k, m, added));
    if m < |chain| {
      TailChain(entries, after, chain, m);
    }
    forall t | t in r ensures IsChain(after, r[t]) && r[t][0] == t {
      if t in chains && t != s {
        ChainFrame(entries, after, chains[t]);
      }
    }
  }

  lemma TailChain(entries: seq<FatEntry>, after: seq<FatEntry>, chain: seq<nat>, m: nat)
    requires IsChain(entries, chain) && 0 < m < |chain| && |after| == |entries|
    requires forall i :: m <= i < |chain| ==> after[chain[i]] == entries[chain[i]]
    ensures IsChain(after, chain[m..])
  {
    var tail := chain[m..];
    forall i | 0 <= i < |tail| - 1 ensures after[tail[i]] == Next(tail[i + 1]) {
      assert tail[i] == chain[m + i] && tail[i + 1] == chain[m + i + 1];
    }
  }

  /** Linking a free cluster after the first `k` of one chain keeps all chains apart. */
  lemma GrowChains(entries: seq<FatEntry>, chains: Chains, s: nat, k: nat, c: nat)
    requires ChainsOk(entries, chains) && s in chains && 0 < k <= |chains[s]| && c in FreeClusters(entries)
    ensures IsChain(entries, chains[s])
    ensures var after := entries[chains[s][k - 1] := Next(c)][c := EndOfChain];
      && ChainsOk(after, Relinked(chains, s, k, k, [c]))
      && FreeClusters(after) == FreeClusters(entries) - {c}
  {
    hide Relinked;
    var chain := chains[s];
    var after := entries[chain[k - 1] := Next(c)][c := EndOfChain];
    ExtendChain(entries, chain, k, c);
    ChainEntryUsed(entries, chain, k - 1);
    ChainDistinct(entries, chain, k - 1);
    forall t | t in chains ensures c !in chains[t] && (t != s ==> chain[k - 1] !in chains[t]) {
      FreeNotInChains(entries, chains, t, c);
      assert chain[k - 1] in chain;
    }
    RelinkedOk(entries, after, chains, s, k, k, [c]);
  }

  /** The table with the listed clusters marked free. */
  ghost function FreeAll(entries: seq<FatEntry>, cs: seq<nat>): (r: seq<FatEntry>)
    ensures |r| == |entries|
    ensures forall i :: 0 <= i < |r| ==> r[i] == if i in cs then Free else entries[i]
  {
    seq(|entries|, i requires 0 <= i < |entries| => if i in cs then Free else entries[i])
  }

  /** Cutting a chain to its first `k` clusters frees the ones that are marked so, and no others. */
  lemma CutChains(entries: seq<FatEntry>, chains: Chains, s: nat, k: nat, m: nat)
    requires ChainsOk(entries, chains) && s in chains && 0 < k <= m <= |chains[s]|
    ensures IsChain(entries, chains[s])
    ensures var after := FreeAll(entries, chains[s][k..m])[chains[s][k - 1] := EndOfChain];
      && ChainsOk(after, Relinked(chains, s, k, m, []))
      && FreeClusters(after) == FreeClusters(entries) + Elements(chains[s][k..m])
  {
    hide Relinked;
    var chain := chains[s];
    var after := FreeAll(entries, chain[k..m])[chain[k - 1] := EndOfChain];
    CutEntries(entries, chain, k, m);
    ChainEntryUsed(entries, chain, k - 1);
    FreedClusters(entries, chain[k..m], chain[k - 1]);
    assert chain[..k] + [] == chain[..k];
    forall t, i | t in chains && t != s && 0 <= i < |chains[t]| ensures after[chains[t][i]] == entries[chains[t][i]] {
      assert chains[t][i] in chains[t] && chain[k - 1] in chain;
      assert forall c :: c in chain[k..m] ==> c in chain;
    }
    RelinkedOk(entries, after, chains, s, k, m, []);
  }

  lemma FreedClusters(entries: seq<FatEntry>, cs: seq<nat>, last: nat)
    requires last < |entries| && last !in cs && entries[last] != Free
    requires forall i :: 0 <= i < |cs| ==> 2 <= cs[i] < |entries|
    ensures FreeClusters(FreeAll(entries, cs)[last := EndOfChain]) == FreeClusters(entries) + Elements(cs)
  {
  }

  lemma CutEntries(entries: seq<FatEntry>, chain: seq<nat>, k: nat, m: nat)
    requires IsChain(entries, chain) && 0 < k <= m <= |chain|
    ensures var after := FreeAll(entries, chain[k..m])[chain[k - 1] := EndOfChain];
      && IsChain(after, chain[..k]) && chain[k - 1] !in chain[k..m]
      && (forall i :: m <= i < |chain| ==> after[chain[i]] == entries[chain[i]])
  {
    var tail := chain[k..m];
    forall i | 0 <= i < |chain| && !(k <= i < m)
      ensures chain[i] !in tail && (i != k - 1 ==> chain[i] != chain[k - 1])
    {
      ChainDistinct(entries, chain, i);
    }
  }

  lemma {:induction false} ElementsCount(cs: seq<nat>)
    requires forall i, j :: 0 <= i < j < |cs| ==> cs[i] != cs[j]
    ensures |Elements(cs)| == |cs|
  {
    if cs != [] {
      ElementsCount(cs[1..]);
      assert Elements(cs) == {cs[0]} + Elements(cs[1..]);
      assert cs[0] !in Elements(cs[1..]);
    }
  }

  /** Clusters `k` up to `m` of a chain are distinct and in use. */
  lemma CutCount(entries: seq<FatEntry>, chain: seq<nat>, k: nat, m: nat)
    requires IsChain(entries, chain) && k <= m <= |chain|
    ensures |FreeClusters(entries) + Elements(chain[k..m])| == |FreeClusters(entries)| + m - k
  {
    hide IsChain;
    var tail := chain[k..m];
    forall i, j | 0 <= i < j < |tail| ensures tail[i] != tail[j] {
      ChainAcyclic(entries, chain, k + i, k + j);
    }
    ElementsCount(tail);
    forall i | 0 <= i < |tail| ensures tail[i] !in FreeClusters(entries) {
      ChainEntryUsed(entries, chain, k + i);
    }
    assert FreeClusters(entries) !! Elements(tail);
  }

  // ---------------------------------------------------------------------------
  // Bytes of a chain

  ghost predicate ViewCovers(view: View, size: nat, chain: seq<nat>) {
    forall k :: 0 <= k < |chain| ==> chain[k] in view && |view[chain[k]]| == size
  }

  ghost function ChainBytes(view: View, size: nat, chain: seq<nat>): (r: seq<Byte>)
    requires ViewCovers(view, size, chain)
    ensures |r| == |chain| * size
  {
    if chain == [] then [] else view[chain[0]] + ChainBytes(view, size, chain[1..])
  }

  lemma {:induction false} ChainBytesFrame(before: View, after: View, size: nat, chain: seq<nat>)
    requires ViewCovers(before, size, chain) && ViewCovers(after, size, chain)
    requires forall k :: 0 <= k < |chain| ==> after[chain[k]] == before[chain[k]]
    ensures ChainBytes(after, size, chain) == ChainBytes(before, size, chain)
  {
    if chain != [] {
      forall k | 0 <= k < |chain[1..]| ensures after[chain[1..][k]] == before[chain[1..][k]] {
        assert chain[1..][k] == chain[k + 1];
      }
      ChainBytesFrame(before, after, size, chain[1..]);
    }
  }

  lemma Associates(x: seq<Byte>, y: seq<Byte>, z: seq<Byte>)
    ensures x + (y + z) == x + y + z
  {
  }

  lemma {:induction false} ChainBytesConcat(view: View, size: nat, a: seq<nat>, b: seq<nat>)
    requires ViewCovers(view, size, a) && ViewCovers(view, size, b)
    ensures ViewCovers(view, size, a + b)
    ensures ChainBytes(view, size, a + b) == ChainBytes(view, size, a) + ChainBytes(view, size, b)
  {
    if a == [] {
      assert a + b == b;
    } else {
      ChainBytesConcat(view, size, a[1..], b);
      assert (a + b)[0] == a[0] && (a + b)[1..] == a[1..] + b;
      Associates(view[a[0]], ChainBytes(view, size, a[1..]), ChainBytes(view, size, b));
    }
  }

  /** A chain's bytes around its `k`-th cluster. */
  lemma ChainBytesAround(view: View, size: nat, chain: seq<nat>, k: nat)
    requires ViewCovers(view, size, chain) && k < |chain|
    ensures ViewCovers(view, size, chain[..k]) && ViewCovers(view, size, chain[k + 1..])
    ensures ChainBytes(view, size, chain)
         == ChainBytes(view, size, chain[..k]) + view[chain[k]] + ChainBytes(view, size, chain[k + 1..])
  {
    var (a, c, b) := (chain[..k], [chain[k]], chain[k + 1..]);
    ChainBytesConcat(view, size, c, b);
    ChainBytesConcat(view, size, a, c + b);
    assert chain == a + (c + b);
    assert ChainBytes(view, size, c) == view[chain[k]] by {
      assert c[1..] == [];
    }
  }

  lemma SpliceMiddle(a: seq<Byte>, v: seq<Byte>, b: seq<Byte>, at: nat, bytes: seq<Byte>)
    requires at + |bytes| <= |v|
    ensures Splice(a + v + b, |a| + at, bytes) == a + Splice(v, at, bytes) + b
  {
    if bytes != [] {
      assert Splice(a + v + b, |a| + at, bytes) == a + Splice(v, at, bytes) + b;
    }
  }

  /** Writing into one cluster of a chain writes into its byte sequence. */
  lemma ChainBytesSplice(view: View, size: nat, chain: seq<nat>, k: nat, at: nat, bytes: seq<Byte>)
    requires ViewCovers(view, size, chain) && k < |chain| && at + |bytes| <= size
    requires forall i :: 0 <= i < |chain| && i != k ==> chain[i] != chain[k]
    ensures var after := view[chain[k] := Splice(view[chain[k]], at, bytes)];
      && ViewCovers(after, size, chain)
      && k * size + at + |bytes| <= |chain| * size
      && ChainBytes(after, size, chain) == Splice(ChainBytes(view, size, chain), k * size + at, bytes)
  {
    var after := view[chain[k] := Splice(view[chain[k]], at, bytes)];
    assert ViewCovers(after, size, chain);
    MulMonotone(k + 1, |chain|, size);
    ChainBytesAround(view, size, chain, k);
    ChainBytesAround(after, size, chain, k);
    ChainBytesFrame(view, after, size, chain[..k]);
    ChainBytesFrame(view, after, size, chain[k + 1..]);
    SpliceMiddle(ChainBytes(view, size, chain[..k]), view[chain[k]], ChainBytes(view, size, chain[k + 1..]), at, bytes);
  }

  /** Reading from one cluster of a chain reads from its byte sequence. */
  lemma ChainBytesSlice(view: View, size: nat, chain: seq<nat>, k: nat, at: nat, n: nat)
    requires ViewCovers(view, size, chain) && k < |chain| && at + n <= size
    ensures k * size + at + n <= |chain| * size
    ensures view[chain[k]][at..at + n] == ChainBytes(view, size, chain)[k * size + at..k * size + at + n]
  {
    hide ChainBytes;
    MulMonotone(k + 1, |chain|, size);
    ChainBytesAround(view, size, chain, k);
    SliceMiddle(ChainBytes(view, size, chain[..k]), view[chain[k]], ChainBytes(view, size, chain[k + 1..]), at, n);
  }

  lemma SliceMiddle(a: seq<Byte>, v: seq<Byte>, b: seq<Byte>, at: nat, n: nat)
    requires at + n <= |v|
    ensures (a + v + b)[|a| + at..|a| + at + n] == v[at..at + n]
  {
  }

  /** Chains that start with the same clusters start with the same bytes. */
  lemma ChainBytesPrefix(view: View, size: nat, a: seq<nat>, b: seq<nat>, k: nat, n: nat)
    requires ViewCovers(view, size, a) && ViewCovers(view, size, b)
    requires k <= |a| && k <= |b| && a[..k] == b[..k] && n <= k * size
    ensures n <= |a| * size && n <= |b| * size
    ensures ChainBytes(view, size, a)[..n] == ChainBytes(view, size, b)[..n]
  {
    MulMonotone(k, |a|, size);
    MulMonotone(k, |b|, size);
    ChainBytesConcat(view, size, a[..k], a[k..]);
    ChainBytesConcat(view, size, b[..k], b[k..]);
    assert a == a[..k] + a[k..] && b == b[..k] + b[k..];
  }
}
