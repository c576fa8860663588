/**
 The doubly linked free list, threaded through the free blocks themselves.  Memory is a map from
 the address of a block to the node stored there, and 0 is the null pointer.
 */
module HeapList {
  import opened HeapTiles

  datatype FreeBlock = FreeBlock(prev: nat, next: nat, size: nat)

  type Blocks = map<nat, FreeBlock>

  /** The address of the `i`-th block, null past either end. */
  function Addr(list: seq<(nat, nat)>, i: int): nat {
    if 0 <= i < |list| then list[i].0 else 0
  }

  function NodeAt(list: seq<(nat, nat)>, i: nat): FreeBlock
    requires i < |list|
  {
    FreeBlock(Addr(list, i - 1), Addr(list, i + 1), list[i].1)
  }

  /** From `head`, the links lead through `list` in both directions. */
  ghost predicate Linked(blocks: Blocks, head: nat, list: seq<(nat, nat)>) {
    && head == Addr(list, 0)
    && forall i :: 0 <= i < |list| ==> list[i].0 in blocks && blocks[list[i].0] == NodeAt(list, i)
  }

  /** Pointers identify blocks: null is no block, and no address occurs twice. */
  ghost predicate Distinct(list: seq<(nat, nat)>) {
    && (forall i :: 0 <= i < |list| ==> list[i].0 != 0)
    && (forall i, j :: 0 <= i < |list| && 0 <= j < |list| && list[i].0 == list[j].0 ==> i == j)
  }

  lemma SortedIsDistinct(list: seq<(nat, nat)>)
    requires Sorted(list)
    ensures Distinct(list)
  {
  }

  function First(list: seq<(nat, nat)>): nat {
    if list == [] then 0 else list[0].0
  }

  function Last(list: seq<(nat, nat)>): nat {
    if list == [] then 0 else list[|list| - 1].0
  }

  /** What is left of `pre` and `post` linked when the blocks between them change: all but their inner ends. */
  ghost predicate SameAround(before: Blocks, after: Blocks, pre: seq<(nat, nat)>, post: seq<(nat, nat)>, last: nat,
                             first: nat) {
    && (forall k :: 0 <= k < |pre| ==>
          && pre[k].0 in before && pre[k].0 in after
          && after[pre[k].0] == if k == |pre| - 1 then before[pre[k].0].(next := first) else before[pre[k].0])
    && (forall k :: 0 <= k < |post| ==>
          && post[k].0 in before && post[k].0 in after
          && after[post[k].0] == if k == 0 then before[post[k].0].(prev := last) else before[post[k].0])
  }

  /** Closing the gap between two linked parts with at most one block links the whole. */
  lemma LinkAround(before: Blocks, after: Blocks, pre: seq<(nat, nat)>, mid: seq<(nat, nat)>, mid': seq<(nat, nat)>,
                   post: seq<(nat, nat)>, head: nat)
    requires Linked(before, head, pre + mid + post) && |mid'| <= 1
    requires mid' != [] ==> mid'[0].0 in after && after[mid'[0].0] == FreeBlock(Last(pre), First(post), mid'[0].1)
    requires SameAround(before, after, pre, post,
                        if mid' == [] then Last(pre) else mid'[0].0, if mid' == [] then First(post) else mid'[0].0)
    ensures Linked(after, Addr(pre + mid' + post, 0), pre + mid' + post)
  {
    hide NodeAt, Addr;
    var now := pre + mid' + post;
    forall i | 0 <= i < |now| ensures now[i].0 in after && after[now[i].0] == NodeAt(now, i) {
      if i < |pre| {
        assert pre + (mid + post) == pre + mid + post;
        NodeInPre(before, head, pre, mid + post, i);
        NodeOfPre(pre, mid' + post, i);
        assert pre + (mid' + post) == now;
      } else if i < |pre| + |mid'| {
        assert mid' == [mid'[0]];
        NodeOfMid(pre, mid'[0], post);
      } else {
        var k := i - |pre| - |mid'|;
        NodeInPost(before, head, pre + mid, post, k);
        NodeOfPost(pre + mid', post, k);
      }
    }
  }

  /** The node of a block in the first part of a list. */
  lemma NodeOfPre(pre: seq<(nat, nat)>, rest: seq<(nat, nat)>, i: nat)
    requires i < |pre|
    ensures NodeAt(pre + rest, i) == FreeBlock(Addr(pre, i - 1), if i == |pre| - 1 then First(rest) else pre[i + 1].0,
                                               pre[i].1)
  {
  }

  lemma NodeInPre(blocks: Blocks, head: nat, pre: seq<(nat, nat)>, rest: seq<(nat, nat)>, i: nat)
    requires Linked(blocks, head, pre + rest) && i < |pre|
    ensures pre[i].0 in blocks
    ensures blocks[pre[i].0] == FreeBlock(Addr(pre, i - 1), if i == |pre| - 1 then First(rest) else pre[i + 1].0,
                                          pre[i].1)
  {
    NodeOfPre(pre, rest, i);
    assert (pre + rest)[i] == pre[i];
  }

  lemma NodeOfMid(pre: seq<(nat, nat)>, b: (nat, nat), post: seq<(nat, nat)>)
    ensures NodeAt(pre + [b] + post, |pre|) == FreeBlock(Last(pre), First(post), b.1)
  {
  }

  /** The node of a block in the second part of a list. */
  lemma NodeOfPost(rest: seq<(nat, nat)>, post: seq<(nat, nat)>, i: nat)
    requires i < |post|
    ensures NodeAt(rest + post, |rest| + i) == FreeBlock(if i == 0 then Last(rest) else post[i - 1].0,
                                                         Addr(post, i + 1), post[i].1)
  {
  }

  lemma NodeInPost(blocks: Blocks, head: nat, rest: seq<(nat, nat)>, post: seq<(nat, nat)>, i: nat)
    requires Linked(blocks, head, rest + post) && i < |post|
    ensures post[i].0 in blocks
    ensures blocks[post[i].0] == FreeBlock(if i == 0 then Last(rest) else post[i - 1].0, Addr(post, i + 1), post[i].1)
  {
    NodeOfPost(rest, post, i);
    assert (rest + post)[|rest| + i] == post[i];
  }

  /** `a` and `b` have no address in common, and no null. */
  ghost predicate Apart(a: seq<(nat, nat)>, b: seq<(nat, nat)>) {
    && Distinct(a) && Distinct(b)
    && forall i, j :: 0 <= i < |a| && 0 <= j < |b| ==> a[i].0 != b[j].0
  }

  lemma DistinctParts(pre: seq<(nat, nat)>, mid: seq<(nat, nat)>, post: seq<(nat, nat)>)
    requires Distinct(pre + mid + post)
    ensures Apart(pre, post)
    ensures forall k, i :: 0 <= k < |mid| && 0 <= i < |pre| ==> pre[i].0 != mid[k].0
    ensures forall k, i :: 0 <= k < |mid| && 0 <= i < |post| ==> post[i].0 != mid[k].0
    ensures forall k :: 0 <= k < |mid| ==> mid[k].0 != 0
  {
    var all := pre + mid + post;
    assert forall i :: 0 <= i < |pre| ==> all[i] == pre[i];
    assert forall i :: 0 <= i < |mid| ==> all[|pre| + i] == mid[i];
    assert forall i :: 0 <= i < |post| ==> all[|pre| + |mid| + i] == post[i];
  }

  /** The same for one block in the middle. */
  lemma DistinctAround(pre: seq<(nat, nat)>, b: (nat, nat), post: seq<(nat, nat)>)
    requires Distinct(pre + [b] + post)
    ensures Apart(pre, post) && b.0 != 0
    ensures forall i :: 0 <= i < |pre| ==> pre[i].0 != b.0
    ensures forall i :: 0 <= i < |post| ==> post[i].0 != b.0
  {
    DistinctParts(pre, [b], post);
    assert [b][0] == b;
  }

  /** What the links of the parts of a list say. */
  lemma LinkedParts(blocks: Blocks, head: nat, pre: seq<(nat, nat)>, mid: seq<(nat, nat)>, post: seq<(nat, nat)>)
    requires Linked(blocks, head, pre + mid + post)
    ensures forall i :: 0 <= i < |pre| ==> pre[i].0 in blocks
    ensures forall i :: 0 <= i < |post| ==> post[i].0 in blocks
    ensures head == First(pre + mid + post)
    ensures |mid| == 1 ==> mid[0].0 in blocks && blocks[mid[0].0] == FreeBlock(Last(pre), First(post), mid[0].1)
    ensures pre != [] ==> blocks[Last(pre)].next == First(mid + post)
  {
    hide NodeAt;
    assert pre + (mid + post) == pre + mid + post;
    forall i | 0 <= i < |pre| ensures pre[i].0 in blocks {
      NodeInPre(blocks, head, pre, mid + post, i);
    }
    forall i | 0 <= i < |post| ensures post[i].0 in blocks {
      NodeInPost(blocks, head, pre + mid, post, i);
    }
    if |mid| == 1 {
      NodeInPre(blocks, head, pre + mid, post, |pre|);
    }
    if pre != [] {
      NodeInPre(blocks, head, pre, mid + post, |pre| - 1);
    }
  }

  lemma EndsOf(pre: seq<(nat, nat)>, post: seq<(nat, nat)>)
    requires Apart(pre, post)
    ensures pre == [] <==> Last(pre) == 0
    ensures post == [] <==> First(post) == 0
    ensures pre != [] && post != [] ==> Last(pre) != First(post)
  {
  }

  lemma KeptAround(before: Blocks, after: Blocks, pre: seq<(nat, nat)>, post: seq<(nat, nat)>, last: nat, first: nat,
                   other: set<nat>)
    requires Apart(pre, post)
    requires forall i :: 0 <= i < |pre| ==> pre[i].0 in before && pre[i].0 !in other
    requires forall i :: 0 <= i < |post| ==> post[i].0 in before && post[i].0 !in other
    requires forall x :: x in before && x != Last(pre) && x != First(post) && x !in other ==>
      x in after && after[x] == before[x]
    requires pre != [] ==> Last(pre) in after && after[Last(pre)] == before[Last(pre)].(next := first)
    requires post != [] ==> First(post) in after && after[First(post)] == before[First(post)].(prev := last)
    ensures SameAround(before, after, pre, post, last, first)
  {
  }

  function SetPrev(blocks: Blocks, a: nat, prev: nat): Blocks
    requires a in blocks
  {
    blocks[a := blocks[a].(prev := prev)]
  }

  function SetNext(blocks: Blocks, a: nat, next: nat): Blocks
    requires a in blocks
  {
    blocks[a := blocks[a].(next := next)]
  }

  /** The free list of the allocator: its head and the nodes in memory. */
  class FreeBlocks {
    var head: nat
    var blocks: Blocks

    constructor ()
      ensures head == 0 && Linked(blocks, head, [])
    {
      head, blocks := 0, map[];
    }

    /** Puts a block of another address and size in the place of the block at `oldAddr`. */
    method Replace(oldAddr: nat, newAddr: nat, size: nat, ghost pre: seq<(nat, nat)>, ghost b: (nat, nat),
                   ghost post: seq<(nat, nat)>)
      requires Linked(blocks, head, pre + [b] + post) && Distinct(pre + [b] + post)
      requires oldAddr == b.0 && Distinct(pre + [(newAddr, size)] + post)
      modifies this
      ensures Linked(blocks, head, pre + [(newAddr, size)] + post)
    {
      hide Linked, SameAround;
      DistinctAround(pre, b, post);
      DistinctAround(pre, (newAddr, size), post);
      LinkedParts(blocks, head, pre, [b], post);
      var node := blocks[oldAddr];
      blocks := blocks[newAddr := FreeBlock(node.prev, node.next, size)];
      if node.next != 0 {
        blocks := SetPrev(blocks, node.next, newAddr);
      }
      if node.prev != 0 {
        blocks := SetNext(blocks, node.prev, newAddr);
      } else {
        head := newAddr;
      }
      KeptAround(old(blocks), blocks, pre, post, newAddr, newAddr, {newAddr});
      LinkAround(old(blocks), blocks, pre, [b], [(newAddr, size)], post, old(head));
    }

    /** Takes a block out of the list. */
    method Remove(addr: nat, ghost pre: seq<(nat, nat)>, ghost b: (nat, nat), ghost post: seq<(nat, nat)>)
      requires Linked(blocks, head, pre + [b] + post) && Distinct(pre + [b] + post) && addr == b.0
      modifies this
      ensures Linked(blocks, head, pre + post)
    {
      hide Linked, SameAround;
      DistinctAround(pre, b, post);
      LinkedParts(blocks, head, pre, [b], post);
      var node := blocks[addr];
      if node.prev != 0 {
        blocks := SetNext(blocks, node.prev, node.next);
      } else {
        head := node.next;
      }
      if node.next != 0 {
        blocks := SetPrev(blocks, node.next, node.prev);
      }
      KeptAround(old(blocks), blocks, pre, post, Last(pre), First(post), {});
      LinkAround(old(blocks), blocks, pre, [b], [], post, old(head));
      assert pre + [] + post == pre + post;
    }

    /** Adds `size` bytes to the block at `addr`. */
    method Extend(addr: nat, size: nat, ghost pre: seq<(nat, nat)>, ghost b: (nat, nat), ghost post: seq<(nat, nat)>)
      requires Linked(blocks, head, pre + [b] + post) && Distinct(pre + [b] + post) && addr == b.0
      modifies this
      ensures Linked(blocks, head, pre + [(addr, b.1 + size)] + post)
    {
      hide Linked, SameAround;
      LinkedParts(blocks, head, pre, [b], post);
      DistinctAround(pre, b, post);
      LinkedEnds(blocks, head, pre, b, post);
      blocks := blocks[addr := blocks[addr].(size := blocks[addr].size + size)];
      KeptAround(old(blocks), blocks, pre, post, addr, addr, {addr});
      LinkAround(old(blocks), blocks, pre, [b], [(addr, b.1 + size)], post, old(head));
    }

    /** Joins two consecutive blocks with the `size` bytes between them. */
    method JoinAcross(prev: nat, next: nat, size: nat, ghost pre: seq<(nat, nat)>, ghost b: (nat, nat),
                      ghost c: (nat, nat), ghost post: seq<(nat, nat)>)
      requires Linked(blocks, head, pre + [b, c] + post) && Distinct(pre + [b, c] + post)
      requires prev == b.0 && next == c.0
      modifies this
      ensures Linked(blocks, head, pre + [(prev, b.1 + size + c.1)] + post)
    {
      hide Linked, SameAround;
      assert pre + [b, c] + post == (pre + [b]) + [c] + post == pre + [b] + ([c] + post);
      DistinctAround(pre + [b], c, post);
      DistinctAround(pre, b, [c] + post);
      DistinctParts(pre, [b, c], post);
      LinkedParts(blocks, head, pre + [b], [c], post);
      LinkedParts(blocks, head, pre, [b], [c] + post);
      LinkedParts(blocks, head, pre, [b, c], post);
      LinkedEnds(blocks, head, pre, b, [c] + post);
      var node := blocks[next];
      blocks := blocks[prev := blocks[prev].(size := blocks[prev].size + size + node.size)];
      if node.next != 0 {
        blocks := SetPrev(blocks, node.next, prev);
      }
      if node.prev != 0 {
        blocks := SetNext(blocks, node.prev, prev);
      } else {
        assert false;
      }
      blocks := SetNext(blocks, prev, node.next);
      KeptAround(old(blocks), blocks, pre, post, prev, prev, {prev, next});
      LinkAround(old(blocks), blocks, pre, [b, c], [(prev, b.1 + size + c.1)], post, old(head));
    }

    /** Puts a block between two parts of the list, the first of which may be empty. */
    method Insert(closest: nat, addr: nat, size: nat, ghost pre: seq<(nat, nat)>, ghost post: seq<(nat, nat)>)
      requires Linked(blocks, head, pre + post) && Distinct(pre + [(addr, size)] + post) && closest == Last(pre)
      modifies this
      ensures Linked(blocks, head, pre + [(addr, size)] + post)
    {
      hide Linked, SameAround, NodeAt, Distinct;
      DistinctAround(pre, (addr, size), post);
      EndsOf(pre, post);
      assert pre + [] + post == pre + post;
      LinkedParts(blocks, head, pre, [], post);
      assert [] + post == post;
      if closest == 0 {
        blocks := blocks[addr := FreeBlock(0, head, size)];
        if head != 0 {
          blocks := SetPrev(blocks, head, addr);
        }
        head := addr;
      } else {
        var closestNext := blocks[closest].next;
        blocks := blocks[addr := FreeBlock(closest, closestNext, size)];
        blocks := SetNext(blocks, closest, addr);
        if closestNext != 0 {
          blocks := SetPrev(blocks, closestNext, addr);
        }
      }
      KeptAround(old(blocks), blocks, pre, post, addr, addr, {addr});
      LinkAround(old(blocks), blocks, pre, [], [(addr, size)], post, old(head));
    }

    /**
     Finds the block that ends where `[addr, addr + size)` starts, the one that starts where it
     ends, and the last one before it, each null if there is none.
     */
    method FindNeighbours(addr: nat, size: nat, ghost pre: seq<(nat, nat)>, ghost post: seq<(nat, nat)>)
      returns (prev: nat, next: nat, closest: nat)
      requires Linked(blocks, head, pre + post) && Distinct(pre + post)
      requires SidesOf(addr, size, pre, post)
      ensures closest == Last(pre)
      ensures prev == if pre != [] && EndOf(pre[|pre| - 1]) == addr then Last(pre) else 0
      ensures next == if post != [] && post[0].0 == addr + size then First(post) else 0
    {
      hide Distinct, Sorted;
      prev, next, closest := 0, 0, 0;
      var current := head;
      ghost var list := pre + post;
      ghost var i := 0;
      while current != 0
        invariant 0 <= i <= |list| && current == Addr(list, i)
        invariant closest == if i < |pre| then Addr(pre, i - 1) else Last(pre)
        invariant prev == if i >= |pre| && pre != [] && EndOf(pre[|pre| - 1]) == addr then Last(pre) else 0
        invariant next == if i > |pre| && post[0].0 == addr + size then First(post) else 0
        decreases |list| - i
      {
        NonNull(list, i);
        SideOf(addr, size, pre, post, i);
        var block := blocks[current];
        // neither a double free nor a block in the middle of another
        assert current != addr;
        assert addr + size <= current || addr >= current + block.size;
        if current + block.size == addr {
          prev := current;
        } else if addr + size == current {
          next := current;
        }
        if current < addr {
          if closest == 0 || current > closest {
            closest := current;
          }
        }
        current := block.next;
        i := i + 1;
      }
      NullAtEnd(list, i);
    }

    /** The first of the smallest blocks that are large enough, null if none is. */
    method FindBest(size: nat, ghost list: seq<(nat, nat)>) returns (best: nat, ghost k: nat)
      requires Linked(blocks, head, list) && Distinct(list)
      ensures BestAmong(list, |list|, size, best, k)
      ensures best == 0 <==> forall j :: 0 <= j < |list| ==> list[j].1 < size
      ensures best != 0 ==> best in blocks && blocks[best].size >= size
      ensures best != 0 ==> forall j :: 0 <= j < |list| && list[j].1 >= size ==> blocks[best].size <= list[j].1
    {
      hide Distinct, BestAmong, Linked;
      best, k := 0, 0;
      HeadIs(blocks, head, list);
      var current := head;
      ghost var i := 0;
      NoneYet(list, size);
      while current != 0
        invariant 0 <= i <= |list| && current == Addr(list, i)
        invariant BestAmong(list, i, size, best, k)
        invariant best != 0 ==> k < i && list[k].0 == best
        decreases |list| - i
      {
        NonNull(list, i);
        BestStep(list, i, size, best, k);
        NodeIs(blocks, head, list, i);
        if best != 0 {
          NodeIs(blocks, head, list, k);
        }
        var block := blocks[current];
        if block.size >= size && (best == 0 || block.size < blocks[best].size) {
          best, k := current, i;
        }
        current := block.next;
        i := i + 1;
      }
      NullAtEnd(list, i);
      BestIs(blocks, head, list, size, best, k);
    }
  }

  lemma HeadIs(blocks: Blocks, head: nat, list: seq<(nat, nat)>)
    requires Linked(blocks, head, list)
    ensures head == Addr(list, 0)
  {
  }

  lemma NodeIs(blocks: Blocks, head: nat, list: seq<(nat, nat)>, i: nat)
    requires Linked(blocks, head, list) && i < |list|
    ensures list[i].0 in blocks && blocks[list[i].0].size == list[i].1 && blocks[list[i].0].next == Addr(list, i + 1)
  {
  }

  lemma BestIs(blocks: Blocks, head: nat, list: seq<(nat, nat)>, size: nat, best: nat, k: nat)
    requires Linked(blocks, head, list) && BestAmong(list, |list|, size, best, k)
    ensures best == 0 <==> forall j :: 0 <= j < |list| ==> list[j].1 < size
    ensures best != 0 ==> best in blocks && blocks[best].size >= size
    ensures best != 0 ==> forall j :: 0 <= j < |list| && list[j].1 >= size ==> blocks[best].size <= list[j].1
  {
  }

  /**
   Among the first `n` blocks, `best` is the `k`-th, the first of the smallest of at least `size` bytes; or
   there is none.
   */
  ghost predicate BestAmong(list: seq<(nat, nat)>, n: nat, size: nat, best: nat, k: nat)
    requires n <= |list|
  {
    if best == 0 then forall j :: 0 <= j < n ==> list[j].1 < size
    else
      && k < n && list[k].0 == best && list[k].1 >= size
      && (forall j :: 0 <= j < n && list[j].1 >= size ==> list[k].1 <= list[j].1)
      && (forall j :: 0 <= j < k && list[j].1 >= size ==> list[k].1 < list[j].1)
  }

  lemma NoneYet(list: seq<(nat, nat)>, size: nat)
    ensures BestAmong(list, 0, size, 0, 0)
  {
  }

  lemma BestStep(list: seq<(nat, nat)>, n: nat, size: nat, best: nat, k: nat)
    requires n < |list| && list[n].0 != 0 && BestAmong(list, n, size, best, k)
    ensures best != 0 ==> k < n && list[k].0 == best
    ensures if list[n].1 >= size && (best == 0 || list[n].1 < list[k].1)
            then BestAmong(list, n + 1, size, list[n].0, n) else BestAmong(list, n + 1, size, best, k)
  {
  }

  /** `pre` lies before `[addr, addr + size)` and `post` after it. */
  ghost predicate SidesOf(addr: nat, size: nat, pre: seq<(nat, nat)>, post: seq<(nat, nat)>) {
    && size > 0 && Sorted(pre) && Sorted(post)
    && (forall j :: 0 <= j < |pre| ==> EndOf(pre[j]) <= addr)
    && (forall j :: 0 <= j < |post| ==> addr + size <= post[j].0)
  }

  lemma NonNull(list: seq<(nat, nat)>, i: int)
    requires 0 <= i && Addr(list, i) != 0
    ensures i < |list|
  {
  }

  lemma NullAtEnd(list: seq<(nat, nat)>, i: int)
    requires Distinct(list) && 0 <= i <= |list| && Addr(list, i) == 0
    ensures i == |list|
  {
  }

  /** Where the `i`-th block of `pre + post` lies. */
  lemma SideOf(addr: nat, size: nat, pre: seq<(nat, nat)>, post: seq<(nat, nat)>, i: nat)
    requires SidesOf(addr, size, pre, post) && i < |pre + post|
    ensures var b := (pre + post)[i];
      && b.1 > 0
      && (i < |pre| - 1 ==> EndOf(b) < addr) && (i < |pre| ==> EndOf(b) <= addr && b == pre[i])
      && (i < |pre| && i > 0 ==> pre[i - 1].0 < b.0)
      && (i >= |pre| ==> b == post[i - |pre|] && addr + size <= b.0)
      && (i > |pre| ==> addr + size < b.0)
  {
    if i < |pre| - 1 {
      assert EndOf(pre[i]) < pre[|pre| - 1].0 <= EndOf(pre[|pre| - 1]);
    }
    if i > |pre| {
      assert EndOf(post[0]) < post[i - |pre|].0;
    }
  }

  lemma LinkedEnds(blocks: Blocks, head: nat, pre: seq<(nat, nat)>, b: (nat, nat), post: seq<(nat, nat)>)
    requires Linked(blocks, head, pre + [b] + post)
    ensures pre != [] ==> Last(pre) in blocks && blocks[Last(pre)].next == b.0
    ensures post != [] ==> First(post) in blocks && blocks[First(post)].prev == b.0
  {
    var all := pre + [b] + post;
    if pre != [] {
      assert blocks[all[|pre| - 1].0] == NodeAt(all, |pre| - 1);
    }
    if post != [] {
      assert blocks[all[|pre| + 1].0] == NodeAt(all, |pre| + 1);
    }
  }
}
