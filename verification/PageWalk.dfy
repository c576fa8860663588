/**
 The four levels of page tables as a tree: how an address is split into indexes, what a walk through
 the tables finds, and what writing one entry does to all walks.
 */
module PageWalk {
  import opened Arithmetic
  import opened Options

  const ENTRIES: nat := 512
  /** Pages of a 48-bit address space. */
  const PAGES: nat := 0x10_0000_0000

  /** Bit numbers of the entry flags the mapper gives meaning to. */
  const PTE_PRESENT: nat := 0
  const PTE_WRITABLE: nat := 1
  const PTE_USER: nat := 2
  const PTE_HUGE_PAGE: nat := 7

  /** A table entry: its address bits and the set of its flag bits. */
  datatype Entry = Entry(addr: nat, flags: set<nat>)
  {
    predicate Present() {
      PTE_PRESENT in flags
    }
  }

  const EMPTY: Entry := Entry(0, {})

  /** `& ADDR_MASK`: the bits 12 to 31. */
  function Masked(physical: nat): nat {
    physical % 0x1_0000_0000 / 0x1000 * 0x1000
  }

  /** The number of an address's page within the 48-bit space. */
  function PageOf(v: nat): (n: nat)
    ensures n < PAGES
  {
    v / 0x1000 % PAGES
  }

  /** The base-512 digits of a page number, the most significant first. */
  function Digits(n: nat, levels: nat): (p: seq<nat>)
    ensures |p| == levels && forall k :: 0 <= k < levels ==> p[k] < ENTRIES
  {
    if levels == 0 then [] else Digits(n / ENTRIES, levels - 1) + [n % ENTRIES]
  }

  function PathOf(n: nat): (p: seq<nat>)
    ensures |p| == 4 && forall k :: 0 <= k < 4 ==> p[k] < ENTRIES
  {
    Digits(n, 4)
  }

  function GetL4(v: nat): nat { v / 0x80_0000_0000 % ENTRIES }
  function GetL3(v: nat): nat { v / 0x4000_0000 % ENTRIES }
  function GetL2(v: nat): nat { v / 0x20_0000 % ENTRIES }
  function GetL1(v: nat): nat { v / 0x1000 % ENTRIES }

  lemma TwoDigits(a: int, b: int, r: int, m: int, d: int, n: int)
    requires 0 <= b < m && 0 <= r < d && n == (a * m + b) * d + r
    ensures n % (m * d) == b * d + r
  {
    assert n == a * (m * d) + (b * d + r) by {
      assert (a * m) * d == a * (m * d);
    }
    MulMonotone(b + 1, m, d);
    MulMonotone(0, b, d);
    DivModOfSum(a, m * d, b * d + r);
  }

  lemma ModMod(n: int, m: int, d: int)
    requires 0 < m && 0 < d
    ensures 0 < m * d && n % (m * d) / d == n / d % m && n % (m * d) % d == n % d
  {
    var (q, r) := (n / d, n % d);
    var b := q % m;
    DivBounds(n, d);
    DivBounds(q, m);
    MulMonotone(1, m, d);
    TwoDigits(q / m, b, r, m, d, n);
    DivModOfSum(b, d, r);
  }

  /** The four shift-and-mask indexes of an address are the digits of its page number. */
  lemma IndexesArePath(v: nat)
    ensures PathOf(PageOf(v)) == [GetL4(v), GetL3(v), GetL2(v), GetL1(v)]
  {
    var n := v / 0x1000;
    ModMod(n, 0x800_0000, 512);
    ModMod(n / 512, 0x4_0000, 512);
    ModMod(n / 512 / 512, 0x200, 512);
    Shift(v);
    var p := PageOf(v);
    DigitsUnroll(p);
  }

  lemma DigitsUnroll(p: nat)
    ensures PathOf(p) == [p / 512 / 512 / 512 % 512, p / 512 / 512 % 512, p / 512 % 512, p % 512]
  {
    var q := p / 512 / 512;
    assert Digits(q / 512, 1) == [q / 512 % 512];
    assert Digits(q, 2) == [q / 512 % 512, q % 512];
    assert Digits(p / 512, 3) == Digits(q, 2) + [p / 512 % 512];
  }

  lemma Shift(v: nat)
    ensures v / 0x1000 / 512 == v / 0x20_0000
    ensures v / 0x1000 / 512 / 512 == v / 0x4000_0000
    ensures v / 0x1000 / 512 / 512 / 512 == v / 0x80_0000_0000
  {}

  /** Different pages have different paths. */
  lemma {:induction false} DigitsDetermine(n: nat, m: nat, levels: nat, bound: nat)
    requires n < bound && m < bound && bound == Power512(levels)
    requires Digits(n, levels) == Digits(m, levels)
    ensures n == m
  {
    if levels > 0 {
      var (a, b) := (Digits(n, levels), Digits(m, levels));
      assert a[levels - 1] == n % ENTRIES && b[levels - 1] == m % ENTRIES;
      assert a[..levels - 1] == Digits(n / ENTRIES, levels - 1) && b[..levels - 1] == Digits(m / ENTRIES, levels - 1);
      DigitsDetermine(n / ENTRIES, m / ENTRIES, levels - 1, Power512(levels - 1));
    }
  }

  function Power512(k: nat): nat {
    if k == 0 then 1 else ENTRIES * Power512(k - 1)
  }

  lemma PathDetermines(n: nat, m: nat)
    requires n < PAGES && m < PAGES && PathOf(n) == PathOf(m)
    ensures n == m
  {
    assert Power512(4) == 512 * 512 * 512 * 512 == PAGES;
    DigitsDetermine(n, m, 4, PAGES);
  }

  type Tables = map<nat, seq<Entry>>

  /** A walk: one entry per index, from the table at `f`; the last entry may lead to anything. */
  function Resolve(tables: Tables, f: nat, path: seq<nat>): Option<nat>
    decreases |path|
  {
    if path == [] then Some(f)
    else if f in tables && path[0] < |tables[f]| && tables[f][path[0]].Present()
    then Resolve(tables, tables[f][path[0]].addr, path[1..])
    else None
  }

  lemma {:induction false} ResolveConcat(tables: Tables, f: nat, p: seq<nat>, q: seq<nat>)
    ensures Resolve(tables, f, p + q)
         == match Resolve(tables, f, p) case None => None case Some(g) => Resolve(tables, g, q)
    decreases |p|
  {
    if p == [] {
      assert p + q == q;
    } else {
      assert (p + q)[1..] == p[1..] + q;
      if f in tables && p[0] < |tables[f]| && tables[f][p[0]].Present() {
        ResolveConcat(tables, tables[f][p[0]].addr, p[1..], q);
      }
    }
  }

  /** The place of a table is the path that leads to it; places make the tables a tree. */
  type Places = map<nat, seq<nat>>

  ghost predicate TreeOk(tables: Tables, place: Places, root: nat) {
    && place.Keys == tables.Keys && root in tables && place[root] == []
    && (forall f :: f in tables ==> |tables[f]| == ENTRIES && |place[f]| <= 3)
    && (forall f, i :: f in tables && |place[f]| < 3 && 0 <= i < ENTRIES && tables[f][i].Present() ==>
          ChildOk(tables, place, f, i))
    && (forall f :: f in tables ==> Resolve(tables, root, place[f]) == Some(f))
  }

  /** An entry above the last level leads to a table one index further. */
  ghost predicate ChildOk(tables: Tables, place: Places, f: nat, i: nat)
    requires f in tables && f in place && i < |tables[f]|
  {
    && tables[f][i].addr in tables && tables[f][i].addr in place
    && place[tables[f][i].addr] == place[f] + [i]
  }

  lemma TreeShape(tables: Tables, place: Places, root: nat, f: nat)
    requires TreeOk(tables, place, root) && f in tables
    ensures f in place && place.Keys == tables.Keys && |tables[f]| == ENTRIES && |place[f]| <= 3
    ensures root in tables && place[root] == []
  {}

  /** Two tables never share a place, so there is one way to each of them. */
  lemma PlacesDistinct(tables: Tables, place: Places, root: nat, f: nat, g: nat)
    requires TreeOk(tables, place, root) && f in tables && g in tables && place[f] == place[g]
    ensures f == g
  {
    assert Resolve(tables, root, place[f]) == Resolve(tables, root, place[g]);
  }

  /** Up to the last level, a walk leads to the table whose place it is. */
  lemma {:induction false} WalkIsPlace(tables: Tables, place: Places, root: nat, p: seq<nat>)
    requires TreeOk(tables, place, root) && |p| <= 3 && Resolve(tables, root, p).Some?
    ensures Resolve(tables, root, p).value in tables && place[Resolve(tables, root, p).value] == p
    decreases |p|
  {
    if p != [] {
      var (before, i) := (p[..|p| - 1], p[|p| - 1]);
      assert p == before + [i];
      ResolveConcat(tables, root, before, [i]);
      WalkIsPlace(tables, place, root, before);
      var f := Resolve(tables, root, before).value;
      assert [i][1..] == [];
      assert ChildOk(tables, place, f, i);
    }
  }

  /** The entry that a full walk ends with: where the page is, and how it may be accessed. */
  function LeafOf(tables: Tables, root: nat, q: seq<nat>): Option<Entry>
    requires |q| == 4
  {
    match Resolve(tables, root, q[..3])
    case None => None
    case Some(f) =>
      if f in tables && q[3] < |tables[f]| && tables[f][q[3]].Present() then Some(tables[f][q[3]]) else None
  }

  /** The entry above a page's last table carries the flag of a 2 MB page. */
  predicate HugeAbove(tables: Tables, root: nat, q: seq<nat>)
    requires |q| == 4
  {
    match Resolve(tables, root, q[..2])
    case None => false
    case Some(f) =>
      f in tables && q[2] < |tables[f]| && tables[f][q[2]].Present() && PTE_HUGE_PAGE in tables[f][q[2]].flags
  }

  lemma LeafAt(tables: Tables, place: Places, root: nat, f: nat, i: nat)
    requires TreeOk(tables, place, root) && f in tables && |place[f]| == 3 && i < ENTRIES
    ensures LeafOf(tables, root, place[f] + [i]) == if tables[f][i].Present() then Some(tables[f][i]) else None
  {
    assert (place[f] + [i])[..3] == place[f];
  }

  /** `after` is `tables` with some other entry at `(f, i)`, and perhaps with more tables. */
  ghost predicate Differs(tables: Tables, after: Tables, f: nat, i: nat) {
    && (forall g :: g in tables ==> g in after && |after[g]| == |tables[g]|)
    && (forall g, j :: g in tables && 0 <= j < |tables[g]| && (g, j) != (f, i) ==> after[g][j] == tables[g][j])
  }

  function Written(tables: Tables, f: nat, i: nat, e: Entry): (after: Tables)
    requires f in tables && i < |tables[f]|
    ensures Differs(tables, after, f, i) && after.Keys == tables.Keys
    ensures |after[f]| == |tables[f]| && after[f][i] == e
  {
    tables[f := tables[f][i := e]]
  }

  /** Walks that do not come through the written entry do not change. */
  lemma {:induction false} WriteElsewhere(
    tables: Tables, place: Places, root: nat, after: Tables, f: nat, i: nat, g: nat, path: seq<nat>)
    requires TreeOk(tables, place, root) && Differs(tables, after, f, i) && f in tables
    requires g in tables && |place[g]| + |path| <= 4
    requires !(place[f] + [i] <= place[g] + path)
    ensures Resolve(after, g, path) == Resolve(tables, g, path)
    decreases |path|
  {
    if path != [] && path[0] < ENTRIES {
      if f == g {
        assert place[g] + path == place[f] + [path[0]] + path[1..];
        assert path[0] != i;
      }
      assert after[g][path[0]] == tables[g][path[0]];
      if tables[g][path[0]].Present() && |path| > 1 {
        assert ChildOk(tables, place, g, path[0]);
        var child := tables[g][path[0]].addr;
        assert place[child] + path[1..] == place[g] + path;
        WriteElsewhere(tables, place, root, after, f, i, child, path[1..]);
      }
    }
  }

  /** Changing flags other than the present bit changes no walk. */
  lemma {:induction false} SameWalk(tables: Tables, f: nat, i: nat, e: Entry, g: nat, path: seq<nat>)
    requires f in tables && i < |tables[f]|
    requires e.Present() == tables[f][i].Present() && e.addr == tables[f][i].addr
    ensures Resolve(Written(tables, f, i, e), g, path) == Resolve(tables, g, path)
    decreases |path|
  {
    if path != [] && g in tables && path[0] < |tables[g]| && tables[g][path[0]].Present() {
      SameWalk(tables, f, i, e, tables[g][path[0]].addr, path[1..]);
    }
  }

  lemma FlagsKeepTree(tables: Tables, place: Places, root: nat, f: nat, i: nat, flags: set<nat>)
    requires TreeOk(tables, place, root) && f in tables && |place[f]| < 3 && i < ENTRIES
    requires (PTE_PRESENT in flags <==> tables[f][i].Present())
    ensures var after := Written(tables, f, i, tables[f][i].(flags := flags));
      TreeOk(after, place, root) && forall q :: |q| == 4 ==> LeafOf(after, root, q) == LeafOf(tables, root, q)
  {
    var e := tables[f][i].(flags := flags);
    var after := Written(tables, f, i, e);
    forall q ensures Resolve(after, root, q) == Resolve(tables, root, q) {
      SameWalk(tables, f, i, e, root, q);
    }
    forall g, j | g in after && |place[g]| < 3 && 0 <= j < ENTRIES && after[g][j].Present()
      ensures ChildOk(after, place, g, j)
    {
      assert ChildOk(tables, place, g, j);
    }
    forall q: seq<nat> | |q| == 4 ensures LeafOf(after, root, q) == LeafOf(tables, root, q) {
      if Resolve(tables, root, q[..3]).Some? {
        WalkIsPlace(tables, place, root, q[..3]);
      }
    }
  }

  /** Walks that got through still do when an absent entry is filled. */
  lemma {:induction false} FillKeeps(tables: Tables, after: Tables, f: nat, i: nat, g: nat, path: seq<nat>)
    requires Differs(tables, after, f, i)
    requires f in tables && i < |tables[f]| && !tables[f][i].Present()
    requires Resolve(tables, g, path).Some?
    ensures Resolve(after, g, path) == Resolve(tables, g, path)
    decreases |path|
  {
    if path != [] {
      FillKeeps(tables, after, f, i, tables[g][path[0]].addr, path[1..]);
    }
  }

  function NoEntries(): (r: seq<Entry>)
    ensures |r| == ENTRIES && forall i :: 0 <= i < ENTRIES ==> r[i] == EMPTY
  {
    seq(ENTRIES, i => EMPTY)
  }

  /** Hanging a new, empty table below an absent entry. */
  function Hung(tables: Tables, f: nat, i: nat, page: nat): (after: Tables)
    requires f in tables && i < |tables[f]| && page !in tables
    ensures Differs(tables, after, f, i) && after.Keys == tables.Keys + {page}
    ensures after[f] == tables[f][i := Entry(page, {PTE_PRESENT})] && after[page] == NoEntries()
  {
    Written(tables, f, i, Entry(page, {PTE_PRESENT}))[page := NoEntries()]
  }

  lemma HungReach(tables: Tables, place: Places, root: nat, f: nat, i: nat, page: nat)
    requires TreeOk(tables, place, root) && f in tables && |place[f]| < 3 && i < ENTRIES
    requires !tables[f][i].Present() && page !in tables
    ensures Resolve(Hung(tables, f, i, page), root, place[f] + [i]) == Some(page)
  {
    var after := Hung(tables, f, i, page);
    FillKeeps(tables, after, f, i, root, place[f]);
    ResolveConcat(after, root, place[f], [i]);
    assert [i][1..] == [];
  }

  lemma HungKeepsTree(tables: Tables, place: Places, root: nat, f: nat, i: nat, page: nat)
    requires TreeOk(tables, place, root) && f in tables && |place[f]| < 3 && i < ENTRIES
    requires !tables[f][i].Present() && page !in tables
    ensures TreeOk(Hung(tables, f, i, page), place[page := place[f] + [i]], root)
  {
    var after := Hung(tables, f, i, page);
    var place' := place[page := place[f] + [i]];
    forall g | g in after ensures Resolve(after, root, place'[g]) == Some(g) {
      if g == page {
        HungReach(tables, place, root, f, i, page);
      } else {
        FillKeeps(tables, after, f, i, root, place[g]);
      }
    }
    forall g, j | g in after && |place'[g]| < 3 && 0 <= j < ENTRIES && after[g][j].Present()
      ensures ChildOk(after, place', g, j)
    {
      assert g != page;
      if (g, j) != (f, i) {
        assert ChildOk(tables, place, g, j);
      }
    }
  }

  /** A new table translates nothing: every full walk finds what it found before. */
  lemma HungKeepsWalks(tables: Tables, place: Places, root: nat, f: nat, i: nat, page: nat, q: seq<nat>)
    requires TreeOk(tables, place, root) && f in tables && |place[f]| < 3 && i < ENTRIES
    requires !tables[f][i].Present() && page !in tables && |q| == 4
    ensures LeafOf(Hung(tables, f, i, page), root, q) == LeafOf(tables, root, q)
  {
    hide Hung;
    var (after, place') := (Hung(tables, f, i, page), place[page := place[f] + [i]]);
    HungKeepsTree(tables, place, root, f, i, page);
    if Resolve(tables, root, q[..3]).Some? {
      WalkIsPlace(tables, place, root, q[..3]);
      FillKeeps(tables, after, f, i, root, q[..3]);
    } else if Resolve(after, root, q[..3]).Some? {
      WalkIsPlace(after, place', root, q[..3]);
    }
  }

  /** An entry of the last level decides one page and no other. */
  lemma LeafWritten(tables: Tables, place: Places, root: nat, f: nat, i: nat, e: Entry, q: seq<nat>)
    requires TreeOk(tables, place, root) && f in tables && |place[f]| == 3 && i < ENTRIES && |q| == 4
    ensures LeafOf(Written(tables, f, i, e), root, q)
         == if q != place[f] + [i] then LeafOf(tables, root, q) else if e.Present() then Some(e) else None
  {
    var after := Written(tables, f, i, e);
    assert place[root] + q[..3] == q[..3];
    WriteElsewhere(tables, place, root, after, f, i, root, q[..3]);
    assert q == q[..3] + [q[3]];
    if Resolve(tables, root, q[..3]).Some? {
      WalkIsPlace(tables, place, root, q[..3]);
    }
  }

  lemma LeafKeepsTree(tables: Tables, place: Places, root: nat, f: nat, i: nat, e: Entry)
    requires TreeOk(tables, place, root) && f in tables && |place[f]| == 3 && i < ENTRIES
    ensures TreeOk(Written(tables, f, i, e), place, root)
  {
    var after := Written(tables, f, i, e);
    forall g | g in after ensures Resolve(after, root, place[g]) == Some(g) {
      assert place[root] + place[g] == place[g];
      WriteElsewhere(tables, place, root, after, f, i, root, place[g]);
    }
    forall g, j | g in after && |place[g]| < 3 && 0 <= j < ENTRIES && after[g][j].Present()
      ensures ChildOk(after, place, g, j)
    {
      assert ChildOk(tables, place, g, j);
    }
  }

  /** A place is taken by a table exactly when the entry above it is present. */
  lemma PlaceTaken(tables: Tables, place: Places, root: nat, f: nat, i: nat)
    requires TreeOk(tables, place, root) && f in tables && |place[f]| < 3 && i < ENTRIES
    ensures place[f] + [i] in place.Values <==> tables[f][i].Present()
  {
    if tables[f][i].Present() {
      assert ChildOk(tables, place, f, i);
    } else if place[f] + [i] in place.Values {
      var g :| g in place && place[g] == place[f] + [i];
      assert Resolve(tables, root, place[g]) == Some(g);
      ResolveConcat(tables, root, place[f], [i]);
    }
  }
}
