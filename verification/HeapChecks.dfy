/**
 The allocator's checks of its own free list: Floyd's two-pointer search for a cycle, and the
 comparison of the number of blocks forwards and backwards.
 */
module HeapChecks {
  import opened Arithmetic
  import opened HeapList

  /** The links from `head` stay within `nodes`, a finite part of memory. */
  ghost predicate Closed(blocks: Blocks, head: nat, nodes: set<nat>) {
    && nodes <= blocks.Keys && 0 !in nodes
    && (head != 0 ==> head in nodes)
    && (forall a :: a in nodes ==> blocks[a].next == 0 || blocks[a].next in nodes)
  }

  /** `n` links on from `a`; null stays null. */
  function Hop(blocks: Blocks, a: nat, n: nat): nat {
    if n == 0 then a
    else
      var b := Hop(blocks, a, n - 1);
      if b != 0 && b in blocks then blocks[b].next else 0
  }

  /** The list from `a` never ends. */
  ghost predicate Endless(blocks: Blocks, a: nat) {
    forall n: nat :: Hop(blocks, a, n) != 0
  }

  lemma {:induction false} HopClosed(blocks: Blocks, a: nat, n: nat, nodes: set<nat>)
    requires Closed(blocks, a, nodes)
    ensures Hop(blocks, a, n) == 0 || Hop(blocks, a, n) in nodes
  {
    if n > 0 {
      HopClosed(blocks, a, n - 1, nodes);
    }
  }

  lemma {:induction false} HopAdd(blocks: Blocks, a: nat, m: nat, n: nat)
    ensures Hop(blocks, a, m + n) == Hop(blocks, Hop(blocks, a, m), n)
    decreases n
  {
    if n > 0 {
      HopAdd(blocks, a, m, n - 1);
      assert m + n - 1 == m + (n - 1);
    }
  }

  lemma {:induction false} NullStays(blocks: Blocks, n: nat)
    ensures Hop(blocks, 0, n) == 0
  {
    if n > 0 {
      NullStays(blocks, n - 1);
    }
  }

  lemma EndedStays(blocks: Blocks, a: nat, m: nat, n: nat)
    requires Hop(blocks, a, m) == 0 && m <= n
    ensures Hop(blocks, a, n) == 0
  {
    HopAdd(blocks, a, m, n - m);
    NullStays(blocks, n - m);
  }

  /** From a repeated position on, the list repeats with that period. */
  lemma {:induction false} Repeats(blocks: Blocks, a: nat, i: nat, p: nat, q: nat)
    requires Hop(blocks, a, i + p) == Hop(blocks, a, i)
    ensures Hop(blocks, a, i + q * p) == Hop(blocks, a, i)
    decreases q
  {
    if q > 0 {
      Repeats(blocks, a, i, p, q - 1);
      assert i + q * p == i + p + (q - 1) * p;
      HopAdd(blocks, a, i + p, (q - 1) * p);
      HopAdd(blocks, a, i, (q - 1) * p);
    }
  }

  lemma RepeatsFrom(blocks: Blocks, a: nat, i: nat, p: nat, t: nat)
    requires Hop(blocks, a, i + p) == Hop(blocks, a, i) && i <= t
    ensures Hop(blocks, a, t + p) == Hop(blocks, a, t)
  {
    HopAdd(blocks, a, i, t - i);
    HopAdd(blocks, a, i + p, t - i);
    assert t + p == i + p + (t - i) && t == i + (t - i);
  }

  /** Some position repeats, since memory is finite. */
  lemma Collision(blocks: Blocks, head: nat, nodes: set<nat>) returns (i: nat, p: nat)
    requires Closed(blocks, head, nodes)
    ensures p > 0 && Hop(blocks, head, i + p) == Hop(blocks, head, i)
  {
    var seen: map<nat, nat> := map[];
    var n: nat := 0;
    while Hop(blocks, head, n) != 0 && Hop(blocks, head, n) !in seen
      invariant forall a :: a in seen ==> a in nodes && seen[a] < n && Hop(blocks, head, seen[a]) == a
      decreases nodes - seen.Keys
    {
      var a := Hop(blocks, head, n);
      HopClosed(blocks, head, n, nodes);
      assert nodes - (seen.Keys + {a}) < nodes - seen.Keys by {
        assert a in nodes - seen.Keys;
      }
      seen := seen[a := n];
      n := n + 1;
    }
    if Hop(blocks, head, n) == 0 {
      EndedStays(blocks, head, n, n + 1);
      i, p := n, 1;
    } else {
      i := seen[Hop(blocks, head, n)];
      p := n - i;
    }
  }

  /** The two pointers meet, at null if nowhere else. */
  lemma Meeting(blocks: Blocks, head: nat, nodes: set<nat>) returns (m: nat)
    requires Closed(blocks, head, nodes)
    ensures Hop(blocks, head, m) == Hop(blocks, head, 2 * m + 1)
  {
    var i, p := Collision(blocks, head, nodes);
    var r := (i + 1) % p;
    m := if r == 0 then i else i + (p - r);
    DivBounds(i + 1, p);
    var q := (i + 1) / p;
    var q' := if r == 0 then q else q + 1;
    assert m + 1 == q' * p by {
      assert (q + 1) * p == q * p + p;
    }
    RepeatsFrom(blocks, head, i, p, m);
    Repeats(blocks, head, m, p, q');
  }

  /** Meeting anywhere but at null means that the list never ends. */
  lemma MetIsEndless(blocks: Blocks, head: nat, k: nat)
    requires Hop(blocks, head, k) == Hop(blocks, head, 2 * k + 1) != 0
    ensures Endless(blocks, head)
  {
    forall n: nat ensures Hop(blocks, head, n) != 0 {
      if Hop(blocks, head, n) == 0 {
        Repeats(blocks, head, k, k + 1, n);
        assert n * (k + 1) >= n by {
          MulMonotone(1, k + 1, n);
        }
        EndedStays(blocks, head, n, k + n * (k + 1));
      }
    }
  }

  /** `is_free_blocks_in_cycle`: decides for every memory whether the list from `head` is endless. */
  method IsInCycle(blocks: Blocks, head: nat, ghost nodes: set<nat>) returns (r: bool)
    requires Closed(blocks, head, nodes)
    ensures r <==> Endless(blocks, head)
  {
    var slow, fast := head, head;
    assert Hop(blocks, head, 0) == head;
    if fast == 0 {
      return false;
    }
    fast := blocks[fast].next;
    ghost var m := Meeting(blocks, head, nodes);
    ghost var k: nat := 0;
    assert Hop(blocks, head, 1) == fast;
    while fast != slow
      invariant slow == Hop(blocks, head, k) && fast == Hop(blocks, head, 2 * k + 1) && slow != 0
      invariant k <= m
      decreases m - k
    {
      if fast == 0 {
        return false;
      }
      HopClosed(blocks, head, 2 * k + 1, nodes);
      assert Hop(blocks, head, 2 * k + 2) == blocks[fast].next;
      fast := blocks[fast].next;
      if fast == 0 {
        return false;
      }
      HopClosed(blocks, head, 2 * k + 2, nodes);
      assert Hop(blocks, head, 2 * k + 3) == blocks[fast].next;
      fast := blocks[fast].next;
      HopClosed(blocks, head, k, nodes);
      assert Hop(blocks, head, k + 1) == blocks[slow].next;
      slow := blocks[slow].next;
      k := k + 1;
      if slow == 0 {
        EndedStays(blocks, head, k, 2 * k);
        assert false;
      }
    }
    MetIsEndless(blocks, head, k);
    r := true;
  }

  /** The links of a proper list lead to its blocks one after the other, and then to null. */
  lemma {:induction false} HopLinked(blocks: Blocks, head: nat, list: seq<(nat, nat)>, n: nat)
    requires Linked(blocks, head, list) && Distinct(list) && n <= |list|
    ensures Hop(blocks, head, n) == Addr(list, n)
  {
    if n > 0 {
      HopLinked(blocks, head, list, n - 1);
    }
  }

  lemma LinkedListEnds(blocks: Blocks, head: nat, list: seq<(nat, nat)>)
    requires Linked(blocks, head, list) && Distinct(list)
    ensures Closed(blocks, head, set b | b in list :: b.0)
    ensures !Endless(blocks, head)
  {
    HopLinked(blocks, head, list, |list|);
  }

  function AtOrNull(path: seq<nat>, i: int): nat {
    if 0 <= i < |path| then path[i] else 0
  }

  /** Following one kind of link from `a` goes along `path`, and then ends. */
  ghost predicate Follows(blocks: Blocks, a: nat, path: seq<nat>, forward: bool) {
    && a == AtOrNull(path, 0)
    && forall i :: 0 <= i < |path| ==>
         && path[i] != 0 && path[i] in blocks
         && (if forward then blocks[path[i]].next else blocks[path[i]].prev) == AtOrNull(path, i + 1)
  }

  /** `check_free_blocks`: whether counting the blocks forwards and then backwards from the last one disagrees. */
  method CountsDiffer(blocks: Blocks, head: nat, ghost there: seq<nat>, ghost back: seq<nat>) returns (r: bool)
    requires Follows(blocks, head, there, true) && Follows(blocks, AtOrNull(there, |there| - 1), back, false)
    ensures r <==> |there| != |back|
  {
    var forwardCount, last := 0, 0;
    var current := head;
    while current != 0
      invariant 0 <= forwardCount <= |there|
      invariant current == AtOrNull(there, forwardCount) && last == AtOrNull(there, forwardCount - 1)
      decreases |there| - forwardCount
    {
      forwardCount := forwardCount + 1;
      last := current;
      current := blocks[current].next;
    }
    var backwardCount := 0;
    while last != 0
      invariant 0 <= backwardCount <= |back| && last == AtOrNull(back, backwardCount)
      decreases |back| - backwardCount
    {
      backwardCount := backwardCount + 1;
      last := blocks[last].prev;
    }
    r := forwardCount != backwardCount;
  }

  /** `check_issues`: a list that goes in circles, or that is not as long backwards as it is forwards. */
  method CheckIssues(blocks: Blocks, head: nat, ghost nodes: set<nat>, ghost there: seq<nat>, ghost back: seq<nat>)
    returns (r: bool)
    requires Closed(blocks, head, nodes)
    requires Endless(blocks, head)
          || (Follows(blocks, head, there, true) && Follows(blocks, AtOrNull(there, |there| - 1), back, false))
    ensures r <==> Endless(blocks, head) || |there| != |back|
  {
    hide Follows, Endless;
    r := IsInCycle(blocks, head, nodes);
    if !r {
      r := CountsDiffer(blocks, head, there, back);
    }
  }

  ghost function Addresses(list: seq<(nat, nat)>): (r: seq<nat>)
    ensures |r| == |list| && forall i :: 0 <= i < |list| ==> r[i] == list[i].0
  {
    seq(|list|, i requires 0 <= i < |list| => list[i].0)
  }

  ghost function AddressesBack(list: seq<(nat, nat)>): (r: seq<nat>)
    ensures |r| == |list| && forall i :: 0 <= i < |list| ==> r[i] == list[|list| - 1 - i].0
  {
    seq(|list|, i requires 0 <= i < |list| => list[|list| - 1 - i].0)
  }

  /** There is nothing to find in a proper list: it ends, and is as long backwards as it is forwards. */
  lemma NothingToFind(blocks: Blocks, head: nat, list: seq<(nat, nat)>)
    requires Linked(blocks, head, list) && Distinct(list)
    ensures Closed(blocks, head, set b | b in list :: b.0) && !Endless(blocks, head)
    ensures Follows(blocks, head, Addresses(list), true)
    ensures Follows(blocks, AtOrNull(Addresses(list), |list| - 1), AddressesBack(list), false)
  {
    LinkedListEnds(blocks, head, list);
  }
}
