/**
 The access a page has: the flags that every entry on the way to it carries.
 */
module PageAccess {
  import opened Options
  import opened PageWalk

  /** The flags common to all entries of a walk. */
  function Access(tables: Tables, f: nat, path: seq<nat>): Option<set<nat>>
    requires path != []
    decreases |path|
  {
    if !(f in tables && path[0] < |tables[f]| && tables[f][path[0]].Present()) then None
    else if |path| == 1 then Some(tables[f][path[0]].flags)
    else
      match Access(tables, tables[f][path[0]].addr, path[1..])
      case None => None
      case Some(flags) => Some(tables[f][path[0]].flags * flags)
  }

  /** No access is lost. */
  predicate Leq(a: Option<set<nat>>, b: Option<set<nat>>) {
    a.Some? ==> b.Some? && a.value <= b.value
  }

  /** No page, and no table on the way to one, loses access. */
  ghost predicate AccessKept(before: Tables, after: Tables, root: nat) {
    forall p: seq<nat> :: 0 < |p| <= 4 ==> Leq(Access(before, root, p), Access(after, root, p))
  }

  /** The walk along `p` has at least the flags `want`. */
  predicate Grants(tables: Tables, root: nat, p: seq<nat>, want: set<nat>) {
    p == [] || (Access(tables, root, p).Some? && want <= Access(tables, root, p).value)
  }

  lemma {:induction false} AccessAfterFlags(tables: Tables, f: nat, i: nat, e: Entry, g: nat, path: seq<nat>)
    requires f in tables && i < |tables[f]| && path != []
    requires e.addr == tables[f][i].addr && tables[f][i].flags <= e.flags && (e.Present() ==> tables[f][i].Present())
    ensures Leq(Access(tables, g, path), Access(Written(tables, f, i, e), g, path))
    decreases |path|
  {
    if g in tables && path[0] < |tables[g]| && tables[g][path[0]].Present() && |path| > 1 {
      AccessAfterFlags(tables, f, i, e, tables[g][path[0]].addr, path[1..]);
    }
  }

  lemma {:induction false} AccessAfterFill(tables: Tables, after: Tables, f: nat, i: nat, g: nat, path: seq<nat>)
    requires Differs(tables, after, f, i) && path != []
    requires f in tables && i < |tables[f]| && !tables[f][i].Present()
    ensures Leq(Access(tables, g, path), Access(after, g, path))
    decreases |path|
  {
    if g in tables && path[0] < |tables[g]| && tables[g][path[0]].Present() && |path| > 1 {
      AccessAfterFill(tables, after, f, i, tables[g][path[0]].addr, path[1..]);
    }
  }

  lemma {:induction false} AccessElsewhere(
    tables: Tables, place: Places, root: nat, after: Tables, f: nat, i: nat, g: nat, path: seq<nat>)
    requires TreeOk(tables, place, root) && Differs(tables, after, f, i) && f in tables
    requires g in tables && path != [] && |place[g]| + |path| <= 4
    requires !(place[f] + [i] <= place[g] + path)
    ensures Access(after, g, path) == Access(tables, g, path)
    decreases |path|
  {
    if path[0] < ENTRIES {
      if f == g {
        assert place[g] + path == place[f] + [path[0]] + path[1..];
        assert path[0] != i;
      }
      assert after[g][path[0]] == tables[g][path[0]];
      if tables[g][path[0]].Present() && |path| > 1 {
        assert ChildOk(tables, place, g, path[0]);
        var child := tables[g][path[0]].addr;
        assert place[child] + path[1..] == place[g] + path;
        AccessElsewhere(tables, place, root, after, f, i, child, path[1..]);
      }
    }
  }

  /** One entry more on the way. */
  lemma {:induction false} AccessSnoc(tables: Tables, g: nat, p: seq<nat>, f: nat, i: nat)
    requires p != [] && Resolve(tables, g, p) == Some(f) && Access(tables, g, p).Some?
    requires f in tables && i < |tables[f]| && tables[f][i].Present()
    ensures Access(tables, g, p + [i]) == Some(Access(tables, g, p).value * tables[f][i].flags)
    decreases |p|
  {
    assert (p + [i])[1..] == p[1..] + [i];
    if |p| == 1 {
      assert p[1..] == [];
    } else {
      AccessSnoc(tables, tables[g][p[0]].addr, p[1..], f, i);
      var (a, b, c) := (tables[g][p[0]].flags, Access(tables, tables[g][p[0]].addr, p[1..]).value, tables[f][i].flags);
      assert a * (b * c) == a * b * c;
    }
  }

  lemma GrantsNext(tables: Tables, place: Places, root: nat, f: nat, i: nat, want: set<nat>)
    requires TreeOk(tables, place, root) && f in tables && i < ENTRIES
    requires Grants(tables, root, place[f], want) && tables[f][i].Present() && want <= tables[f][i].flags
    ensures Grants(tables, root, place[f] + [i], want)
  {
    if place[f] == [] {
      assert f == root;
    } else {
      AccessSnoc(tables, root, place[f], f, i);
    }
  }

  lemma GrantsKept(before: Tables, after: Tables, root: nat, p: seq<nat>, want: set<nat>)
    requires AccessKept(before, after, root) && |p| <= 4 && Grants(before, root, p, want)
    ensures Grants(after, root, p, want)
  {}

  lemma AccessKeptTwice(a: Tables, b: Tables, c: Tables, root: nat)
    requires AccessKept(a, b, root) && AccessKept(b, c, root)
    ensures AccessKept(a, c, root)
  {
    forall p: seq<nat> | 0 < |p| <= 4 ensures Leq(Access(a, root, p), Access(c, root, p)) {
      assert Leq(Access(a, root, p), Access(b, root, p)) && Leq(Access(b, root, p), Access(c, root, p));
    }
  }

  /** A walk has no flag that some entry on its way lacks. */
  lemma {:induction false} AccessWithin(tables: Tables, g: nat, p: seq<nat>, f: nat, i: nat, q: seq<nat>)
    requires Resolve(tables, g, p) == Some(f) && p + [i] <= q && Access(tables, g, q).Some?
    ensures f in tables && i < |tables[f]| && Access(tables, g, q).value <= tables[f][i].flags
    decreases |p|
  {
    if p == [] {
      assert (p + [i])[0] == i;
    } else {
      assert (p + [i])[0] == p[0] && (p + [i])[1..] == p[1..] + [i];
      assert (p + [i])[1..] <= q[1..];
      AccessWithin(tables, tables[g][p[0]].addr, p[1..], f, i, q[1..]);
    }
  }

  /** What is left of an access that loses some flags. */
  function Less(a: Option<set<nat>>, flags: set<nat>): Option<set<nat>> {
    if a.Some? then Some(a.value - flags) else None
  }

  /** Walks that start below the written entry do not come back to it. */
  lemma {:induction false} AccessBelow(
    tables: Tables, place: Places, root: nat, after: Tables, f: nat, i: nat, g: nat, path: seq<nat>)
    requires TreeOk(tables, place, root) && Differs(tables, after, f, i) && f in tables
    requires g in tables && path != [] && |place[f]| < |place[g]| && |place[g]| + |path| <= 4
    ensures Access(after, g, path) == Access(tables, g, path)
    decreases |path|
  {
    if path[0] < ENTRIES && tables[g][path[0]].Present() && |path| > 1 {
      assert ChildOk(tables, place, g, path[0]);
      AccessBelow(tables, place, root, after, f, i, tables[g][path[0]].addr, path[1..]);
    }
  }

  /** Taking flags from an entry above the last level takes them from every walk through it. */
  lemma {:induction false} AccessThrough(
    tables: Tables, place: Places, root: nat, f: nat, i: nat, flags: set<nat>, g: nat, path: seq<nat>)
    requires TreeOk(tables, place, root) && f in tables && i < ENTRIES && tables[f][i].Present()
      && PTE_PRESENT !in flags
    requires g in tables && |place[g]| <= |place[f]| < 3 && |place[g]| + |path| == 4
      && place[f] + [i] <= place[g] + path
    ensures Access(Written(tables, f, i, tables[f][i].(flags := tables[f][i].flags - flags)), g, path)
         == Less(Access(tables, g, path), flags)
    decreases |path|
  {
    hide Access, Less, Meet;
    var entry := tables[f][i].(flags := tables[f][i].flags - flags);
    var after := Written(tables, f, i, entry);
    PathThrough(place[f], i, place[g], path);
    AccessStep(tables, g, path);
    AccessStep(after, g, path);
    if |place[g]| == |place[f]| {
      PlacesDistinct(tables, place, root, f, g);
      assert ChildOk(tables, place, f, i);
      AccessBelow(tables, place, root, after, f, i, entry.addr, path[1..]);
      MeetLess(tables[f][i].flags, Access(tables, entry.addr, path[1..]), flags);
    } else if path[0] < ENTRIES && tables[g][path[0]].Present() {
      assert ChildOk(tables, place, g, path[0]);
      var child := tables[g][path[0]].addr;
      AccessThrough(tables, place, root, f, i, flags, child, path[1..]);
      MeetLess(tables[g][path[0]].flags, Access(tables, child, path[1..]), flags);
    } else {
      NothingLess(flags);
    }
  }

  lemma PathThrough(p: seq<nat>, i: nat, q: seq<nat>, path: seq<nat>)
    requires p + [i] <= q + path && |q| <= |p|
    ensures path != [] && (|q| == |p| ==> q == p && path[0] == i)
    ensures q + [path[0]] + path[1..] == q + path
  {
    assert q == (q + path)[..|q|] == (p + [i])[..|q|];
    assert (q + path)[|q|] == path[0] && (p + [i])[|p|] == i;
    FirstApart(q, path);
  }

  lemma FirstApart(q: seq<nat>, path: seq<nat>)
    requires path != []
    ensures q + [path[0]] + path[1..] == q + path
  {
    assert [path[0]] + path[1..] == path;
  }

  /** What an entry and the way below it grant together. */
  function Meet(flags: set<nat>, below: Option<set<nat>>): Option<set<nat>> {
    if below.Some? then Some(flags * below.value) else None
  }

  lemma AccessStep(tables: Tables, f: nat, path: seq<nat>)
    requires |path| > 1
    ensures Access(tables, f, path) ==
      if f in tables && path[0] < |tables[f]| && tables[f][path[0]].Present()
      then Meet(tables[f][path[0]].flags, Access(tables, tables[f][path[0]].addr, path[1..])) else None
  {
  }

  lemma MeetLess(own: set<nat>, below: Option<set<nat>>, flags: set<nat>)
    ensures Meet(own - flags, below) == Less(Meet(own, below), flags) == Meet(own, Less(below, flags))
  {
    if below.Some? {
      assert (own - flags) * below.value == own * below.value - flags == own * (below.value - flags);
    }
  }

  lemma NothingLess(flags: set<nat>)
    ensures Less(None, flags) == None
  {
  }

  /** Every page below `p` loses the flags and nothing else, and every other page keeps its access. */
  ghost predicate Stripped(before: Tables, after: Tables, root: nat, p: seq<nat>, flags: set<nat>) {
    forall q: seq<nat> :: |q| == 4 ==>
      Access(after, root, q) == if p <= q then Less(Access(before, root, q), flags) else Access(before, root, q)
  }

  lemma StrippedByEntry(tables: Tables, place: Places, root: nat, f: nat, i: nat, flags: set<nat>)
    requires TreeOk(tables, place, root) && f in tables && |place[f]| < 3 && i < ENTRIES
    requires tables[f][i].Present() && PTE_PRESENT !in flags
    ensures Stripped(tables, Written(tables, f, i, tables[f][i].(flags := tables[f][i].flags - flags)), root,
                     place[f] + [i], flags)
  {
    hide TreeOk, Access, Written, Less;
    TreeShape(tables, place, root, f);
    var after := Written(tables, f, i, tables[f][i].(flags := tables[f][i].flags - flags));
    forall q: seq<nat> | |q| == 4
      ensures Access(after, root, q)
           == if place[f] + [i] <= q then Less(Access(tables, root, q), flags) else Access(tables, root, q)
    {
      assert place[root] + q == q;
      if place[f] + [i] <= q {
        AccessThrough(tables, place, root, f, i, flags, root, q);
      } else {
        AccessElsewhere(tables, place, root, after, f, i, root, q);
      }
    }
  }

  /** Taking the same flags again further down changes nothing more. */
  lemma StrippedTwice(a: Tables, b: Tables, c: Tables, root: nat, p: seq<nat>, p': seq<nat>, flags: set<nat>)
    requires Stripped(a, b, root, p, flags) && Stripped(b, c, root, p', flags) && p <= p'
    ensures Stripped(a, c, root, p, flags)
  {
    hide Access;
    forall q: seq<nat> | |q| == 4
      ensures Access(c, root, q) == if p <= q then Less(Access(a, root, q), flags) else Access(a, root, q)
    {
      var x := Access(a, root, q);
      assert Access(b, root, q) == if p <= q then Less(x, flags) else x;
      assert p' <= q ==> p <= q;
      assert x.Some? ==> x.value - flags - flags == x.value - flags;
    }
  }

  /** One page has no access any more, pages below the same top entry lose the flags, all others keep their access. */
  ghost predicate AccessTaken(before: Tables, after: Tables, root: nat, path: seq<nat>, flags: set<nat>)
    requires path != []
  {
    forall q: seq<nat> :: |q| == 4 ==>
      Access(after, root, q) ==
      if q == path then None
      else if q[0] == path[0] then Less(Access(before, root, q), flags)
      else Access(before, root, q)
  }

  /** Every page but one has the access it had. */
  ghost predicate AccessSameBut(before: Tables, after: Tables, root: nat, path: seq<nat>) {
    forall q: seq<nat> :: |q| == 4 && q != path ==> Access(after, root, q) == Access(before, root, q)
  }

  lemma TakenBy(before: Tables, walked: Tables, after: Tables, root: nat, path: seq<nat>, flags: set<nat>)
    requires |path| == 4 && Stripped(before, walked, root, path[..1], flags)
    requires AccessSameBut(walked, after, root, path) && Access(after, root, path) == None
    ensures AccessTaken(before, after, root, path, flags)
  {
    hide Access, Less;
    forall q: seq<nat> | |q| == 4 ensures path[..1] <= q <==> q[0] == path[0] {
    }
  }

  /** A page whose way grants what its last entry says has exactly that access. */
  lemma ExactAccess(tables: Tables, root: nat, q: seq<nat>, e: Entry)
    requires |q| == 4 && LeafOf(tables, root, q) == Some(e) && Grants(tables, root, q, e.flags)
    ensures Access(tables, root, q) == Some(e.flags)
  {
    assert q == q[..3] + [q[3]];
    AccessWithin(tables, root, q[..3], Resolve(tables, root, q[..3]).value, q[3], q);
    assert Access(tables, root, q).value == e.flags;
  }
}
