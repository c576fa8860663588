/**
 Mounts: a tree of mounted filesystems, and the resolution of paths across it.
 */
module Mounts {
  import opened Options
  import opened PathWords
  import opened Paths

  /** A mounted filesystem; nodes are named by their position in the list of all nodes. */
  datatype MountNode = MountNode(filesystem: nat, parent: Option<nat>, children: map<string, nat>)

  /** A name that a component can have. */
  predicate GoodName(name: string) {
    name != "" && name != "." && name != ".." && '/' !in name
  }

  /** The components of a list of names. */
  function Names(names: seq<string>): (r: seq<Component>)
    ensures |r| == |names| && forall i :: 0 <= i < |names| ==> r[i] == Normal(names[i])
  {
    seq(|names|, i requires 0 <= i < |names| => Normal(names[i]))
  }

  lemma NamesSnoc(names: seq<string>, name: string)
    ensures Names(names + [name]) == Names(names) + [Normal(name)]
  {}

  /** The mount node that the longest possible walk along the components ends at, from `node`. */
  function MountOf(nodes: seq<MountNode>, node: nat, components: seq<Component>): nat
    decreases |components|
  {
    if components != [] && components[0].Normal? && node < |nodes| && components[0].name in nodes[node].children
    then MountOf(nodes, nodes[node].children[components[0].name], components[1..])
    else node
  }

  /** The mount tree: every node but the root hangs in its parent under the last name of its place. */
  ghost predicate TreeOk(nodes: seq<MountNode>, places: seq<seq<string>>) {
    && |places| == |nodes| > 0 && places[0] == [] && nodes[0].parent == None
    && (forall n :: 0 < n < |nodes| ==> HangsOn(nodes, places, n))
    && (forall n, name :: 0 <= n < |nodes| && name in nodes[n].children ==>
         GoodName(name) && nodes[n].children[name] < |nodes| && places[nodes[n].children[name]] == places[n] + [name])
  }

  ghost predicate HangsOn(nodes: seq<MountNode>, places: seq<seq<string>>, n: nat)
    requires n < |nodes| == |places|
  {
    && nodes[n].parent.Some? && nodes[n].parent.value < n && places[n] != []
    && var (p, name) := (nodes[n].parent.value, places[n][|places[n]| - 1]);
      && places[n] == places[p] + [name]
      && name in nodes[p].children && nodes[p].children[name] == n
  }

  /** Walking the place of a node leads to it. */
  lemma {:induction false} PlaceLeads(nodes: seq<MountNode>, places: seq<seq<string>>, n: nat, rest: seq<Component>)
    requires TreeOk(nodes, places) && n < |nodes|
    ensures MountOf(nodes, 0, Names(places[n]) + rest) == MountOf(nodes, n, rest)
    decreases n
  {
    if n > 0 {
      assert HangsOn(nodes, places, n);
      var (p, name) := (nodes[n].parent.value, places[n][|places[n]| - 1]);
      assert Names(places[n]) + rest == Names(places[p]) + ([Normal(name)] + rest);
      PlaceLeads(nodes, places, p, [Normal(name)] + rest);
      assert ([Normal(name)] + rest)[1..] == rest;
    } else {
      assert Names(places[n]) + rest == rest;
    }
  }

  lemma {:induction false} WalkGoesOn(nodes: seq<MountNode>, places: seq<seq<string>>, m: nat, rest: seq<Component>)
    requires TreeOk(nodes, places) && m < |nodes|
    ensures var n := MountOf(nodes, 0, Names(places[m]) + rest);
      && n < |nodes| && |places[n]| >= |places[m]|
      && Names(places[n]) <= Names(places[m]) + rest
    decreases |rest|
  {
    PlaceLeads(nodes, places, m, rest);
    if rest != [] && rest[0].Normal? && rest[0].name in nodes[m].children {
      var c := nodes[m].children[rest[0].name];
      NamesSnoc(places[m], rest[0].name);
      assert rest[0] == Normal(rest[0].name) && rest == [rest[0]] + rest[1..];
      assert Names(places[m]) + rest == Names(places[c]) + rest[1..];
      WalkGoesOn(nodes, places, c, rest[1..]);
    }
  }

  /** The walk finds the longest mounted prefix: the node's place is one, and no mounted place that is one is longer. */
  lemma MountOfIsLongest(nodes: seq<MountNode>, places: seq<seq<string>>, components: seq<Component>)
    requires TreeOk(nodes, places)
    ensures var n := MountOf(nodes, 0, components);
      && n < |nodes| && Names(places[n]) <= components
      && forall m :: 0 <= m < |nodes| && Names(places[m]) <= components ==> |places[m]| <= |places[n]|
  {
    assert Names(places[0]) + components == components;
    WalkGoesOn(nodes, places, 0, components);
    forall m | 0 <= m < |nodes| && Names(places[m]) <= components
      ensures |places[m]| <= |places[MountOf(nodes, 0, components)]|
    {
      var rest := components[|places[m]|..];
      assert components == Names(places[m]) + rest;
      WalkGoesOn(nodes, places, m, rest);
    }
  }

  /** A new node below `p`. */
  function Inserted(nodes: seq<MountNode>, p: nat, name: string, filesystem: nat): seq<MountNode>
    requires p < |nodes|
  {
    nodes[p := nodes[p].(children := nodes[p].children[name := |nodes|])] + [MountNode(filesystem, Some(p), map[])]
  }

  lemma InsertKeepsTree(nodes: seq<MountNode>, places: seq<seq<string>>, p: nat, name: string, filesystem: nat)
    requires TreeOk(nodes, places) && p < |nodes| && GoodName(name) && name !in nodes[p].children
    ensures TreeOk(Inserted(nodes, p, name, filesystem), places + [places[p] + [name]])
  {
    var (after, places') := (Inserted(nodes, p, name, filesystem), places + [places[p] + [name]]);
    forall n | 0 < n < |after| ensures HangsOn(after, places', n) {
      if n < |nodes| {
        assert HangsOn(nodes, places, n);
      }
    }
  }

  lemma {:induction false} PiecesAreNames(s: string, i: nat)
    requires i < |Pieces(s)|
    ensures '/' !in Pieces(s)[i]
  {
    if s != "" {
      var rest := Pieces(s[1..]);
      if s[0] == '/' {
        if i > 0 {
          PiecesAreNames(s[1..], i - 1);
        }
      } else {
        PiecesAreNames(s[1..], i);
      }
    }
  }

  lemma {:induction false} NamedAreGood(pieces: seq<string>, c: Component)
    requires c in Named(pieces) && c.Normal? && forall i :: 0 <= i < |pieces| ==> '/' !in pieces[i]
    ensures GoodName(c.name)
  {
    if c !in Single(pieces[0]) {
      NamedAreGood(pieces[1..], c);
    }
  }

  /** The names in a path are good names. */
  lemma ParsedNamesAreGood(s: string, c: Component)
    requires c in Parse(s) && c.Normal?
    ensures GoodName(c.name)
  {
    var t := s[|Head(s)|..];
    forall i | 0 <= i < |Pieces(t)| ensures '/' !in Pieces(t)[i] {
      PiecesAreNames(t, i);
    }
    NamedAreGood(Pieces(t), c);
  }

  /** Pushing a name onto an absolute path adds one component. */
  lemma PushName(path: string, name: string)
    requires HasRoot(path) && GoodName(name)
    ensures HasRoot(Pushed(path, name)) && Parse(Pushed(path, name)) == Parse(path) + [Normal(name)]
  {
    PushParse(path, name);
    OnePiece(name);
  }

  /** No walk from `node` goes along the components. */
  predicate Stops(nodes: seq<MountNode>, node: nat, components: seq<Component>)
    requires node < |nodes|
  {
    components == [] || !components[0].Normal? || components[0].name !in nodes[node].children
  }

  datatype MountError = MustBeAbsolute | InvalidPath | PartOfParentNotMounted | AlreadyMounted

  /** Success, an error, or the end of the kernel. */
  datatype MountResult = Mounted | Refused(error: MountError) | Panicked

  /** What a filesystem answers about a name in a directory. */
  datatype Lookup = NotFound | IsDirectory | IsFile | IsUnusableDevice

  /** An opened path: its canonical text, the mount it is on, and the names from the root of that mount to the inode. */
  datatype OpenResult = Opened(canonical: string, node: nat, inode: seq<string>) | NotAbsolute | NotADirectory
    | NoSuchFile

  /** Names read from left to right, where `..` takes back the last one if there is one. */
  function Lexical(components: seq<Component>): seq<string> {
    if components == [] then []
    else LexicalStep(Lexical(components[..|components| - 1]), components[|components| - 1])
  }

  function LexicalStep(names: seq<string>, c: Component): seq<string> {
    if c.Normal? then (if c.name == "" then names else names + [c.name])
    else if c.ParentDir? && names != [] then names[..|names| - 1]
    else names
  }

  class FileSystemMapping {
    var nodes: seq<MountNode>
    ghost var places: seq<seq<string>>

    ghost predicate Valid()
      reads this
    {
      TreeOk(nodes, places)
    }

    /** The root node with the empty filesystem 0. */
    constructor ()
      ensures Valid() && |nodes| == 1 && nodes[0].filesystem == 0 && nodes[0].children == map[]
    {
      nodes, places := [MountNode(0, None, map[])], [[]];
    }

    /** The mount node for a path, the path of the node, and the path from there on. */
    method GetMapping(path: string) returns (ok: bool, mapping: string, remaining: string, node: nat)
      requires Valid()
      ensures ok <==> HasRoot(path)
      ensures ok ==> node < |nodes| && node == MountOf(nodes, 0, Parse(path)[1..])
      ensures ok ==> HasRoot(mapping) && Parse(mapping) == [RootDir] + Names(places[node])
      ensures ok ==> Parse(path) == [RootDir] + Names(places[node]) + Parse(remaining)
      ensures ok ==> Stops(nodes, node, Parse(remaining))
    {
      hide Body, Cursor.Ok, Cursor.Remaining, Parse, TreeOk, Names, MountOf, Along;
      var components := new Components(path);
      var current := new PathBuf("/");
      node := 0;
      RootIs(path);
      TreeRoot(nodes, places);
      AlongStart(Parse(path));
      var first := components.Next();
      if first != Some(RootDir) {
        return false, "", "", 0;
      }
      ok := true;
      var c := components.Peek();
      while c.Some? && c.value.Normal? && c.value.name in nodes[node].children
        invariant components.Now().Ok() && fresh(components) && fresh(current)
        invariant node < |nodes| && node < |places| && HasRoot(current.inner)
        invariant Along(Parse(current.inner), Names(places[node]), [])
        invariant Along(Parse(path), Names(places[node]), components.Now().Remaining())
        invariant c == if components.Now().Remaining() == [] then None else Some(components.Now().Remaining()[0])
        decreases |components.Now().Remaining()|
      {
        ChildPlace(nodes, places, node, c.value.name);
        AlongNext(Parse(path), Names(places[node]), components.Now().Remaining());
        AlongPush(current.inner, Names(places[node]), c.value.name);
        current.Push(c.value.name);
        node := nodes[node].children[c.value.name];
        var _ := components.Next();
        c := components.Peek();
      }
      mapping := current.inner;
      remaining := components.AsPath();
      AlongEnd(Parse(path), Names(places[node]), Parse(remaining));
      AlongEnd(Parse(mapping), Names(places[node]), []);
      WalkEnds(nodes, places, node, Parse(remaining));
    }

    /** The names that are left of an iterator, if they are all names. */
    static method AllNames(components: Components) returns (all: bool, names: seq<string>)
      requires components.Now().Ok()
      ensures all <==> OnlyNames(components.Now().Remaining())
      ensures all ==> names == NamesOf(components.Now().Remaining())
    {
      hide Cursor.Ok, Cursor.Remaining, NamesOf;
      var clone := new Components.Clone(components);
      ghost var rest := clone.Now().Remaining();
      names := [];
      var c := clone.Next();
      while c.Some?
        invariant clone.Now().Ok() && fresh(clone) && |names| <= |rest|
        invariant forall i :: 0 <= i < |names| ==> rest[i] == Normal(names[i])
        invariant c.Some? ==>
          |names| < |rest| && c.value == rest[|names|] && clone.Now().Remaining() == rest[|names| + 1..]
        invariant c.None? ==> |names| == |rest|
        decreases |rest| - |names|
      {
        if !c.value.Normal? {
          return false, [];
        }
        names := names + [c.value.name];
        c := clone.Next();
      }
      NamesRead(rest, names);
      all := true;
    }

    /** Walks along the names, and hangs a node below the last but one. */
    method MountAt(names: seq<string>, filesystem: nat) returns (r: MountResult)
      requires Valid() && forall i :: 0 <= i < |names| ==> GoodName(names[i])
      modifies this
      ensures Valid() && r == MountOutcome(old(places), names)
      ensures r != Mounted ==> nodes == old(nodes) && places == old(places)
      ensures r == Mounted ==> places == old(places) + [names]
      ensures r == Mounted ==> nodes[|nodes| - 1].filesystem == filesystem && Kept(old(nodes), nodes)
    {
      hide TreeOk, HasPlace;
      TreeRoot(nodes, places);
      var node: nat, i := 0, 0;
      while i < |names|
        invariant i <= |names| && (names != [] ==> i < |names|)
        invariant node < |nodes| == |places| && places[node] == names[..i]
        invariant nodes == old(nodes) && places == old(places)
        decreases |names| - i
      {
        var name := names[i];
        var isLast := i == |names| - 1;
        assert names[..i + 1] == names[..i] + [name];
        assert isLast ==> names[..i + 1] == names;
        if name !in nodes[node].children {
          NotMounted(nodes, places, node, name, names);
          if isLast {
            PlaceOf(places, node);
            InsertKeepsTree(nodes, places, node, name, filesystem);
            nodes := Inserted(nodes, node, name, filesystem);
            places := places + [names];
            return Mounted;
          } else {
            NotMounted(nodes, places, node, name, names[..|names| - 1]);
            return Refused(PartOfParentNotMounted);
          }
        } else {
          ChildNode(nodes, places, node, name);
          if isLast {
            PlaceOf(places, nodes[node].children[name]);
            return Refused(AlreadyMounted);
          }
          node := nodes[node].children[name];
        }
        i := i + 1;
      }
      r := Panicked;
    }

    /** Mounts a filesystem; the text `/` is for the root, whose filesystem is set once. */
    method Mount(path: string, filesystem: nat) returns (r: MountResult)
      requires Valid()
      modifies this
      ensures Valid()
      ensures path == "/" ==> places == old(places)
      ensures path == "/" && old(nodes[0].filesystem) == 0 ==>
        r == Mounted && nodes == old(nodes)[0 := old(nodes[0]).(filesystem := filesystem)]
      ensures path == "/" && old(nodes[0].filesystem) != 0 ==> r == Refused(AlreadyMounted) && nodes == old(nodes)
      ensures r == Refused(MustBeAbsolute) <==> !HasRoot(path)
      ensures r == Refused(InvalidPath) <==> HasRoot(path) && !OnlyNames(Parse(path)[1..])
      ensures r == Panicked <==> path != "/" && Parse(path) == [RootDir]
      ensures path != "/" && HasRoot(path) && OnlyNames(Parse(path)[1..]) ==>
        r == MountOutcome(old(places), NamesOf(Parse(path)[1..]))
      ensures path != "/" && HasRoot(path) && OnlyNames(Parse(path)[1..]) ==>
        var names := NamesOf(Parse(path)[1..]);
        && (r == Refused(AlreadyMounted) <==> names != [] && names in old(places))
        && (r == Mounted <==> names != [] && names !in old(places) && names[..|names| - 1] in old(places))
      ensures path != "/" && r == Mounted ==>
        HasRoot(path) && OnlyNames(Parse(path)[1..]) && places == old(places) + [NamesOf(Parse(path)[1..])]
      ensures path != "/" && r == Mounted ==> nodes[|nodes| - 1].filesystem == filesystem && Kept(old(nodes), nodes)
      ensures path != "/" && r != Mounted ==> nodes == old(nodes) && places == old(places)
    {
      hide Body, Cursor.Ok, Cursor.Remaining, Parse, Kept, HasPlace, TreeOk, NamesOf, OnlyNames;
      RootIs(path);
      NoNames();
      if path == "/" {
        assert Parse(path)[1..] == [];
        TreeRoot(nodes, places);
        if nodes[0].filesystem == 0 {
          RootKeepsTree(nodes, places, filesystem);
          nodes := nodes[0 := nodes[0].(filesystem := filesystem)];
          return Mounted;
        }
        return Refused(AlreadyMounted);
      }
      var components := new Components(path);
      var first := components.Next();
      if first != Some(RootDir) {
        return Refused(MustBeAbsolute);
      }
      assert components.Now().Remaining() == Parse(path)[1..];
      var all, names := AllNames(components);
      if !all {
        return Refused(InvalidPath);
      }
      NamesAreGood(path, Parse(path)[1..]);
      NamesOfLength(Parse(path)[1..]);
      OutcomeIs(places, names);
      hide MountOutcome;
      r := MountAt(names, filesystem);
    }

    /** One component of the search: it moves the canonical path, and the mount node with it. */
    method Advance(c: Component, node: nat, deep: nat, canonical: PathBuf, ghost extra: seq<string>,
                   ghost done: seq<Component>)
      returns (node': nat, deep': nat, move: Move, ghost extra': seq<string>)
      requires Valid() && At(nodes, places, node, extra, canonical.inner, done) && deep == |extra|
      requires c.Normal? ==> GoodName(c.name)
      modifies canonical
      ensures At(nodes, places, node', extra', canonical.inner, done + [c]) && deep' == |extra'|
      ensures move == Remounted <==> Enters(places, done + [c], |done|)
      ensures move == Descended <==> Asks(places, done + [c], |done|)
    {
      hide Parse, TreeOk, Names, Lexical, Pushed, HasPlace;
      MoveIs(nodes, places, node, extra, done, c);
      node', deep', move, extra' := node, deep, Stayed, extra;
      assert node < |nodes| == |places|;
      hide At;
      match c {
        case RootDir =>
          AtSkip(nodes, places, node, extra, canonical.inner, done, c);
        case CurDir =>
          AtSkip(nodes, places, node, extra, canonical.inner, done, c);
        case ParentDir =>
          if deep == 0 {
            AtUp(nodes, places, node, canonical.inner, done);
            if nodes[node].parent.Some? {
              node', move := nodes[node].parent.value, Remounted;
              var popped := canonical.Pop();
              assert popped;
            }
          } else {
            AtBack(nodes, places, node, extra, canonical.inner, done);
            deep', extra' := deep - 1, extra[..deep - 1];
            var popped := canonical.Pop();
            assert popped;
          }
        case Normal(name) =>
          if deep == 0 && name in nodes[node].children {
            AtDown(nodes, places, node, canonical.inner, done, name);
            node', move := nodes[node].children[name], Remounted;
            canonical.Push(name);
          } else {
            AtInto(nodes, places, node, extra, canonical.inner, done, name);
            deep', move, extra' := deep + 1, Descended, extra + [name];
            canonical.Push(name);
          }
      }
    }

    /**
     One component, and what the filesystems say to it: a failure, or an open mount node and an entry to go on from.
     Only a name, or a change of the mount, changes the directory `dir` of the search; `..` within a mount does not.
     */
    method Take(c: Component, node: nat, deep: nat, dir: seq<string>, canonical: PathBuf, more: bool, openingDir: bool,
                opens: nat -> bool, lookup: (nat, seq<string>) -> Lookup, ghost extra: seq<string>,
                ghost done: seq<Component>)
      returns (failure: Option<OpenResult>, node': nat, deep': nat, dir': seq<string>, ghost extra': seq<string>)
      requires Valid() && At(nodes, places, node, extra, canonical.inner, done) && deep == |extra|
      requires c.Normal? ==> GoodName(c.name)
      requires dir == Trail(places, done)
      modifies canonical
      ensures At(nodes, places, node', extra', canonical.inner, done + [c]) && deep' == |extra'|
      ensures dir' == Trail(places, done + [c])
      ensures failure.None? ==>
        StepOk(World(nodes, places, opens, lookup), done + [c], |done|, !more && !openingDir)
      ensures failure.Some? ==>
        StepFails(World(nodes, places, opens, lookup), done + [c], |done|, !more && !openingDir, failure.value)
    {
      hide At, Lexical, HasPlace, Trail, Asks, Enters, NodeAt, EntryAt, StepOk, StepFails, TreeOk, Stands;
      failure, dir' := None, dir;
      ghost var (w, all, last) := (World(nodes, places, opens, lookup), done + [c], !more && !openingDir);
      var move;
      node', deep', move, extra' := Advance(c, node, deep, canonical, extra, done);
      AtStands(nodes, places, node', extra', canonical.inner, done + [c]);
      StandsOnMount(w, node', extra', all);
      TrailNext(places, done, c);
      MovesApart(places, all, |done|);
      match move {
        case Stayed =>
          StaysOk(w, all, |done|, last);
        case Remounted =>
          dir' := [];
          EntersDecided(w, all, |done|, last, node');
          if !opens(node') {
            failure := Some(NoSuchFile);
          }
        case Descended =>
          dir' := dir + [c.name];
          var entry := lookup(node', dir');
          EntryIs(w, all, node', dir');
          AsksDecided(w, all, |done|, last, entry);
          if entry == NotFound {
            failure := Some(NoSuchFile);
          } else if more || openingDir {
            if entry != IsDirectory {
              failure := Some(NotADirectory);
            }
          } else if entry == IsUnusableDevice {
            failure := Some(NoSuchFile);
          }
      }
    }

    /** The search from the root directory of the mount node that a path starts on. */
    method SearchFrom(path: string, mapping: string, remaining: string, start: nat, openingDir: bool,
                      opens: nat -> bool, lookup: (nat, seq<string>) -> Lookup, ghost all: seq<Component>,
                      ghost prefix: seq<Component>)
      returns (r: OpenResult)
      requires Valid() && Parse(path) != [] && all == Parse(path)[1..] && all == prefix + Parse(remaining)
      requires At(nodes, places, start, [], mapping, prefix) && Trail(places, prefix) == []
      requires start == MountOf(nodes, 0, all) && opens(start)
      requires |prefix| == Start(World(nodes, places, opens, lookup), all)
      ensures r.Opened? ==> HasRoot(r.canonical) && Parse(r.canonical) == [RootDir] + Names(Lexical(all))
      ensures r.Opened? ==> r.node < |nodes| && r.node == MountOf(nodes, 0, Parse(r.canonical)[1..])
      ensures r.Opened? ==> r.inode == Trail(places, all)
      ensures r != NotAbsolute && (r.Opened? <==> SearchOk(World(nodes, places, opens, lookup), all, openingDir))
      ensures !r.Opened? ==> SearchFails(World(nodes, places, opens, lookup), all, openingDir, r)
    {
      hide Body, Cursor.Ok, Cursor.Remaining, Parse, TreeOk, Names, MountOf, Lexical, At, StepOk, StepFails, Trail,
           Passed, SearchFails, Start, GoodName, HasRoot;
      var node := start;
      ghost var (done, extra) := (prefix, []);
      ghost var w := World(nodes, places, opens, lookup);
      SearchStarts(w, all, |done|, openingDir);
      var canonical := new PathBuf(mapping);
      var components := new Components(remaining);
      var deep, dir := 0, [];
      var next := components.Next();
      while next.Some?
        invariant components.Now().Ok() && fresh(components) && fresh(canonical)
        invariant At(nodes, places, node, extra, canonical.inner, done) && deep == |extra|
        invariant all == done + Pending(next, components.Now().Remaining())
        invariant next.None? ==> components.Now().Remaining() == []
        invariant dir == Trail(places, done) && Start(w, all) <= |done|
        invariant Passed(w, all, Start(w, all), |done|, next.None? && !openingDir)
        decreases |components.Now().Remaining()|, if next.Some? then 1 else 0
      {
        var c := next.value;
        PendingFirst(path, all, done, next, components.Now().Remaining());
        next := components.Next();
        var failure;
        failure, node, deep, dir, extra :=
          Take(c, node, deep, dir, canonical, next.Some?, openingDir, opens, lookup, extra, done);
        StepWithin(w, done + [c], Pending(next, components.Now().Remaining()), |done|);
        if failure.Some? {
          FirstFailure(w, all, |done|, openingDir, failure.value);
          return failure.value;
        }
        PassedMore(w, all, Start(w, all), |done|, next.None? && !openingDir);
        done := done + [c];
      }
      assert done == all;
      AtEnd(nodes, places, node, extra, canonical.inner, done);
      r := Opened(canonical.inner, node, dir);
    }

    /**
     Resolves an absolute path across the mounts.  `opens` says which nodes have a root directory, and `lookup` what a
     node has at the names from its root directory.  The path opens exactly if every mount that the search enters has
     a root directory and every name it asks for is a directory, or a file at the very end; else the first of them
     that is not decides the error.  The canonical path is the path with its dots resolved, and belongs to the mount
     node that the search ended on.
     */
    method OpenInode(path: string, opens: nat -> bool, lookup: (nat, seq<string>) -> Lookup)
      returns (r: OpenResult)
      requires Valid()
      ensures r == NotAbsolute <==> !HasRoot(path)
      ensures r.Opened? ==> HasRoot(r.canonical) && Parse(r.canonical) == [RootDir] + Names(Lexical(Parse(path)[1..]))
      ensures r.Opened? ==> r.node < |nodes| && r.node == MountOf(nodes, 0, Parse(r.canonical)[1..])
      ensures r.Opened? ==> r.inode == Trail(places, Parse(path)[1..])
      ensures HasRoot(path) ==>
        (r.Opened? <==> SearchOk(World(nodes, places, opens, lookup), Parse(path)[1..], path[|path| - 1] == '/'))
      ensures HasRoot(path) && !r.Opened? ==>
        SearchFails(World(nodes, places, opens, lookup), Parse(path)[1..], path[|path| - 1] == '/', r)
    {
      hide Body, Cursor.Ok, Cursor.Remaining, Parse, TreeOk, Names, MountOf, Lexical, At, StepOk, StepFails, Trail,
           Passed, SearchFails;
      TreeRoot(nodes, places);
      var ok, mapping, remaining, node := GetMapping(path);
      if !ok {
        return NotAbsolute;
      }
      var openingDir := path[|path| - 1] == '/';
      ghost var (all, done, extra) := (Parse(path)[1..], Names(places[node]), []);
      ghost var w := World(nodes, places, opens, lookup);
      AtMount(nodes, places, node, mapping);
      MountsOnly(nodes, places, node);
      assert all == done + Parse(remaining);
      SearchStarts(w, all, |done|, openingDir);
      if !opens(node) {
        return NoSuchFile;
      }
      if remaining == "/" || remaining == "" {
        RestIsRoot(remaining);
        AtSkip(nodes, places, node, extra, mapping, done, RootDir);
        RootSkipped(w, done);
        assert done + [] == done;
        if remaining == "/" {
          PassedMore(w, all, |done|, |done|, !openingDir);
        }
        AtEnd(nodes, places, node, extra, mapping, all);
        return Opened(mapping, node, []);
      }
      r := SearchFrom(path, mapping, remaining, node, openingDir, opens, lookup, all, done);
    }
  }

  // What a search does.

  /** The mounted filesystems, and what they say. */
  datatype World = World(nodes: seq<MountNode>, places: seq<seq<string>>, opens: nat -> bool,
                         lookup: (nat, seq<string>) -> Lookup)

  /** Component `i` is a name that is not a mount, for which a filesystem is asked. */
  ghost predicate Asks(places: seq<seq<string>>, components: seq<Component>, i: nat)
    requires i < |components|
  {
    components[i].Normal? && !HasPlace(places, Lexical(components[..i + 1]))
  }

  /** Component `i` leads to another mount: into one, or up from the root directory of one. */
  ghost predicate Enters(places: seq<seq<string>>, components: seq<Component>, i: nat)
    requires i < |components|
  {
    var names := Lexical(components[..i]);
    if components[i].Normal? then HasPlace(places, Lexical(components[..i + 1]))
    else components[i].ParentDir? && HasPlace(places, names) && names != []
  }

  /** The directory of the search: every name asked for since the last change of the mount. */
  ghost function Trail(places: seq<seq<string>>, components: seq<Component>): seq<string> {
    if components == [] then []
    else
      var (i, before) := (|components| - 1, Trail(places, components[..|components| - 1]));
      if Enters(places, components, i) then []
      else if Asks(places, components, i) then before + [components[i].name]
      else before
  }

  /** The mount that the search is on after component `i`. */
  ghost function NodeAt(w: World, components: seq<Component>, i: nat): nat
    requires i < |components|
  {
    MountOf(w.nodes, 0, Names(Lexical(components[..i + 1])))
  }

  ghost function EntryAt(w: World, components: seq<Component>, i: nat): Lookup
    requires i < |components|
  {
    w.lookup(NodeAt(w, components, i), Trail(w.places, components[..i + 1]))
  }

  /** The search gets past component `i`. */
  ghost predicate StepOk(w: World, components: seq<Component>, i: nat, fileAllowed: bool)
    requires i < |components|
  {
    && (Asks(w.places, components, i) ==>
          || EntryAt(w, components, i) == IsDirectory
          || (fileAllowed && EntryAt(w, components, i) == IsFile))
    && (Enters(w.places, components, i) ==> w.opens(NodeAt(w, components, i)))
  }

  /** The search ends with an error at component `i`: `last` is whether a file would do there. */
  ghost predicate StepFails(w: World, components: seq<Component>, i: nat, last: bool, r: OpenResult): (fails: bool)
    requires i < |components|
    ensures fails ==> r == NoSuchFile || r == NotADirectory
  {
    match r
    case NotADirectory =>
      && Asks(w.places, components, i) && !last
      && (EntryAt(w, components, i) == IsFile || EntryAt(w, components, i) == IsUnusableDevice)
    case NoSuchFile =>
      || (Enters(w.places, components, i) && !w.opens(NodeAt(w, components, i)))
      || (Asks(w.places, components, i) && EntryAt(w, components, i) == NotFound)
      || (Asks(w.places, components, i) && last && EntryAt(w, components, i) == IsUnusableDevice)
    case _ => false
  }

  /** How many components the longest mounted prefix has, which is where the search starts. */
  ghost function Start(w: World, components: seq<Component>): nat {
    var node := MountOf(w.nodes, 0, components);
    if node < |w.places| then |w.places[node]| else 0
  }

  /** The search gets past the components from `i` up to `k`; the last of those may be a file if `fileAllowed`. */
  ghost predicate Passed(w: World, components: seq<Component>, i: nat, k: nat, fileAllowed: bool)
    requires k <= |components|
  {
    && (forall j: nat :: i <= j < k - 1 ==> StepOk(w, components, j, false))
    && (i < k ==> StepOk(w, components, k - 1, fileAllowed))
  }

  /** A path opens: the mount that it starts on is there, and the search gets past all other components. */
  ghost predicate SearchOk(w: World, components: seq<Component>, slash: bool) {
    && w.opens(MountOf(w.nodes, 0, components))
    && Passed(w, components, Start(w, components), |components|, !slash)
  }

  /** A path does not open: the mount that it starts on is not there, or one component is the first to fail. */
  ghost predicate SearchFails(w: World, components: seq<Component>, slash: bool, r: OpenResult) {
    if !w.opens(MountOf(w.nodes, 0, components)) then r == NoSuchFile
    else
      exists i: nat :: Start(w, components) <= i < |components| && Passed(w, components, Start(w, components), i, false)
        && StepFails(w, components, i, i == |components| - 1 && !slash, r)
  }

  lemma PassedMore(w: World, components: seq<Component>, i: nat, k: nat, fileAllowed: bool)
    requires k < |components| && Passed(w, components, i, k, false) && StepOk(w, components, k, fileAllowed)
    ensures Passed(w, components, i, k + 1, fileAllowed)
  {
    hide StepOk;
  }

  lemma SearchStarts(w: World, components: seq<Component>, k: nat, slash: bool)
    requires k == Start(w, components) <= |components|
    ensures forall b :: Passed(w, components, k, k, b)
    ensures !w.opens(MountOf(w.nodes, 0, components)) ==>
      SearchFails(w, components, slash, NoSuchFile) && !SearchOk(w, components, slash)
  {
  }

  /** The first component to fail decides that the path does not open, and with which error. */
  lemma FirstFailure(w: World, components: seq<Component>, k: nat, slash: bool, r: OpenResult)
    requires w.opens(MountOf(w.nodes, 0, components)) && Start(w, components) <= k < |components|
    requires Passed(w, components, Start(w, components), k, false)
    requires StepFails(w, components, k, k == |components| - 1 && !slash, r)
    ensures SearchFails(w, components, slash, r) && !SearchOk(w, components, slash)
  {
    hide Asks, Enters, EntryAt, NodeAt, MountOf, Start;
    FailsIsNotOk(w, components, k, k == |components| - 1 && !slash, r);
    hide StepOk, StepFails;
  }

  lemma FailsIsNotOk(w: World, components: seq<Component>, k: nat, last: bool, r: OpenResult)
    requires k < |components| && StepFails(w, components, k, last, r)
    ensures !StepOk(w, components, k, last) && !StepOk(w, components, k, false)
  {
    hide Asks, Enters, EntryAt, NodeAt;
  }

  /** A component that neither asks nor enters is passed. */
  lemma StaysOk(w: World, components: seq<Component>, i: nat, last: bool)
    requires i < |components| && !Asks(w.places, components, i) && !Enters(w.places, components, i)
    ensures StepOk(w, components, i, last)
  {
    hide Asks, Enters;
  }

  lemma EntersDecided(w: World, components: seq<Component>, i: nat, last: bool, node: nat)
    requires i < |components| && Enters(w.places, components, i) && NodeAt(w, components, i) == node
    ensures if w.opens(node) then StepOk(w, components, i, last) else StepFails(w, components, i, last, NoSuchFile)
  {
    assert !Asks(w.places, components, i);
    hide Asks, Enters, NodeAt;
  }

  lemma AsksDecided(w: World, components: seq<Component>, i: nat, last: bool, entry: Lookup)
    requires i < |components| && Asks(w.places, components, i) && EntryAt(w, components, i) == entry
    ensures match entry
      case NotFound => StepFails(w, components, i, last, NoSuchFile)
      case IsDirectory => StepOk(w, components, i, last)
      case IsFile =>
        if last then StepOk(w, components, i, last) else StepFails(w, components, i, last, NotADirectory)
      case IsUnusableDevice => StepFails(w, components, i, last, if last then NoSuchFile else NotADirectory)
  {
    assert !Enters(w.places, components, i);
    hide Asks, Enters, EntryAt;
  }

  lemma EntryIs(w: World, components: seq<Component>, node: nat, dir: seq<string>)
    requires components != [] && NodeAt(w, components, |components| - 1) == node && Trail(w.places, components) == dir
    ensures EntryAt(w, components, |components| - 1) == w.lookup(node, dir)
  {
    hide NodeAt, Trail;
    assert components[..|components|] == components;
  }

  /** A step does not depend on what comes after it. */
  lemma StepWithin(w: World, components: seq<Component>, rest: seq<Component>, i: nat)
    requires i < |components|
    ensures forall b :: StepOk(w, components, i, b) == StepOk(w, components + rest, i, b)
    ensures forall b, r :: StepFails(w, components, i, b, r) == StepFails(w, components + rest, i, b, r)
  {
    hide Trail, Lexical, HasPlace;
    assert (components + rest)[..i + 1] == components[..i + 1] && (components + rest)[..i] == components[..i];
    assert (components + rest)[i] == components[i];
  }

  lemma TrailNext(places: seq<seq<string>>, done: seq<Component>, c: Component)
    ensures Trail(places, done + [c]) ==
      if Enters(places, done + [c], |done|) then []
      else if Asks(places, done + [c], |done|) then Trail(places, done) + [c.name]
      else Trail(places, done)
  {
    hide Asks, Enters;
    assert (done + [c])[..|done|] == done;
  }

  lemma MovesApart(places: seq<seq<string>>, components: seq<Component>, i: nat)
    requires i < |components|
    ensures !(Asks(places, components, i) && Enters(places, components, i))
    ensures Asks(places, components, i) ==> components[i].Normal?
  {
    hide Lexical, HasPlace;
  }

  /** What the next component does, by where the search is. */
  lemma MoveIs(nodes: seq<MountNode>, places: seq<seq<string>>, node: nat, extra: seq<string>, done: seq<Component>,
               c: Component)
    requires TreeOk(nodes, places) && Stands(nodes, places, node, extra, done)
    requires c.Normal? ==> GoodName(c.name)
    ensures Enters(places, done + [c], |done|) <==>
      extra == [] && (if c.Normal? then c.name in nodes[node].children else c.ParentDir? && nodes[node].parent.Some?)
    ensures Asks(places, done + [c], |done|) <==> c.Normal? && !(extra == [] && c.name in nodes[node].children)
  {
    hide Parse, Lexical, TreeOk, HasPlace;
    assert (done + [c])[..|done|] == done && (done + [c])[..|done| + 1] == done + [c];
    IsMountPlace(nodes, places, node, extra);
    if c.Normal? {
      LexicalNext(done, c);
      assert places[node] + extra + [c.name] == places[node] + (extra + [c.name]);
      NextIsMountPlace(nodes, places, node, extra, c.name);
    }
  }

  /** Where the search is on a mount: at its root directory, or below names that are not mounted. */
  lemma IsMountPlace(nodes: seq<MountNode>, places: seq<seq<string>>, node: nat, extra: seq<string>)
    requires TreeOk(nodes, places) && node < |nodes| == |places| && (extra != [] ==> extra[0] !in nodes[node].children)
    ensures HasPlace(places, places[node] + extra) <==> extra == []
    ensures places[node] == [] <==> nodes[node].parent.None?
  {
    assert places[node] + [] == places[node];
    if extra != [] {
      assert places[node] + extra == places[node] + [extra[0]] + extra[1..];
      NotMounted(nodes, places, node, extra[0], places[node] + extra);
    }
    assert node > 0 ==> HangsOn(nodes, places, node);
  }

  lemma NextIsMountPlace(nodes: seq<MountNode>, places: seq<seq<string>>, node: nat, extra: seq<string>, name: string)
    requires TreeOk(nodes, places) && node < |nodes| == |places| && (extra != [] ==> extra[0] !in nodes[node].children)
    ensures HasPlace(places, places[node] + (extra + [name])) <==> extra == [] && name in nodes[node].children
  {
    if extra == [] && name in nodes[node].children {
      assert places[nodes[node].children[name]] == places[node] + [name];
      assert extra + [name] == [name];
    } else {
      assert (extra + [name])[0] == if extra == [] then name else extra[0];
      IsMountPlace(nodes, places, node, extra + [name]);
    }
  }

  /** The names of a mount are mounts all the way, so no filesystem is asked for them. */
  lemma {:induction false} MountsOnly(nodes: seq<MountNode>, places: seq<seq<string>>, n: nat)
    requires TreeOk(nodes, places) && n < |nodes|
    ensures Trail(places, Names(places[n])) == []
    decreases n
  {
    if n > 0 {
      assert HangsOn(nodes, places, n);
      var (p, name) := (nodes[n].parent.value, places[n][|places[n]| - 1]);
      MountsOnly(nodes, places, p);
      NamesSnoc(places[p], name);
      TrailNext(places, Names(places[p]), Normal(name));
      var all := Names(places[n]);
      assert all[..|places[p]| + 1] == all;
      PlaceNamesAreGood(nodes, places, n);
      LexicalNames(places[n]);
    }
  }

  lemma RootSkipped(w: World, done: seq<Component>)
    ensures Trail(w.places, done + [RootDir]) == Trail(w.places, done)
    ensures forall b :: StepOk(w, done + [RootDir], |done|, b)
  {
    hide Trail;
    TrailNext(w.places, done, RootDir);
  }

  // The plain case: names below one mount.

  lemma {:induction false} TrailBelow(nodes: seq<MountNode>, places: seq<seq<string>>, node: nat, extra: seq<string>,
                                      k: nat)
    requires TreeOk(nodes, places) && node < |nodes| && k <= |extra|
    requires "" !in extra && (extra != [] ==> extra[0] !in nodes[node].children)
    ensures Lexical(Names(places[node] + extra[..k])) == places[node] + extra[..k]
    ensures Trail(places, Names(places[node] + extra[..k])) == extra[..k]
    ensures HasPlace(places, places[node] + extra[..k]) <==> k == 0
  {
    hide TreeOk, Lexical, Trail, HasPlace;
    TreeRoot(nodes, places);
    PlaceNamesAreGood(nodes, places, node);
    LexicalNames(places[node] + extra[..k]);
    IsMountPlace(nodes, places, node, extra[..k]);
    if k == 0 {
      assert places[node] + extra[..0] == places[node];
      MountsOnly(nodes, places, node);
    } else {
      var (before, name) := (places[node] + extra[..k - 1], extra[k - 1]);
      assert places[node] + extra[..k] == before + [name] && extra[..k] == extra[..k - 1] + [name];
      TrailBelow(nodes, places, node, extra, k - 1);
      NamesSnoc(before, name);
      TrailNext(places, Names(before), Normal(name));
      var all := Names(before) + [Normal(name)];
      assert all[..|before| + 1] == all;
    }
  }

  lemma NameStep(w: World, node: nat, extra: seq<string>, k: nat, fileAllowed: bool)
    requires TreeOk(w.nodes, w.places) && node < |w.nodes| == |w.places| && k < |extra|
    requires "" !in extra && extra[0] !in w.nodes[node].children
    ensures var (all, i) := (Names(w.places[node] + extra), |w.places[node]| + k);
      StepOk(w, all, i, fileAllowed) <==>
      || w.lookup(node, extra[..k + 1]) == IsDirectory
      || (fileAllowed && w.lookup(node, extra[..k + 1]) == IsFile)
  {
    hide TreeOk, Lexical, Trail, HasPlace, MountOf;
    var (all, i, names) := (Names(w.places[node] + extra), |w.places[node]| + k, w.places[node] + extra[..k + 1]);
    TrailBelow(w.nodes, w.places, node, extra, k + 1);
    assert all[..i + 1] == Names(names);
    NamesConcat(w.places[node], extra[..k + 1]);
    WalkEnds(w.nodes, w.places, node, Names(extra[..k + 1]));
    assert Asks(w.places, all, i) && !Enters(w.places, all, i);
    assert NodeAt(w, all, i) == node && EntryAt(w, all, i) == w.lookup(node, extra[..k + 1]);
    hide Asks, Enters, NodeAt, EntryAt;
  }

  /**
   A path of names below one mount opens if and only if the mount has a root directory, all names but the last are
   directories, and the last is a directory, or a file where the path does not end with a separator.
   */
  lemma NamesOpen(w: World, node: nat, extra: seq<string>, slash: bool)
    requires TreeOk(w.nodes, w.places) && node < |w.nodes| && "" !in extra
    requires extra != [] ==> extra[0] !in w.nodes[node].children
    ensures node < |w.places|
    ensures SearchOk(w, Names(w.places[node] + extra), slash) <==>
      && w.opens(node)
      && (forall k :: 0 < k < |extra| ==> w.lookup(node, extra[..k]) == IsDirectory)
      && (extra == [] || w.lookup(node, extra) == IsDirectory || (!slash && w.lookup(node, extra) == IsFile))
  {
    hide Lexical, Trail, HasPlace, StepOk;
    TreeRoot(w.nodes, w.places);
    var (all, start, n) := (Names(w.places[node] + extra), |w.places[node]|, |extra|);
    NamesConcat(w.places[node], extra);
    WalkEnds(w.nodes, w.places, node, Names(extra));
    hide TreeOk, MountOf;
    assert extra[..n] == extra;
    if n > 0 {
      NameStep(w, node, extra, n - 1, !slash);
    }
    if Passed(w, all, start, start + n, !slash) {
      forall k | 0 < k < n ensures w.lookup(node, extra[..k]) == IsDirectory {
        NameStep(w, node, extra, k - 1, false);
        assert StepOk(w, all, start + k - 1, false);
      }
    }
    if forall k :: 0 < k < n ==> w.lookup(node, extra[..k]) == IsDirectory {
      forall j: nat | start <= j < start + n - 1 ensures StepOk(w, all, j, false) {
        NameStep(w, node, extra, j - start, false);
        assert w.lookup(node, extra[..j - start + 1]) == IsDirectory;
      }
    }
  }

  /** `..` takes back the name before it. */
  lemma {:induction false} LexicalCancels(a: seq<Component>, name: string, b: seq<Component>)
    requires name != ""
    ensures Lexical(a + [Normal(name), ParentDir] + b) == Lexical(a + b)
  {
    var gone := [Normal(name), ParentDir];
    if b == [] {
      assert a + gone + b == a + [Normal(name)] + [ParentDir] && a + b == a;
      LexicalNext(a, Normal(name));
      LexicalNext(a + [Normal(name)], ParentDir);
      hide Lexical;
    } else {
      var (rest, c) := (b[..|b| - 1], b[|b| - 1]);
      LexicalCancels(a, name, rest);
      hide Lexical;
      assert b == rest + [c];
      assert a + gone + b == a + gone + rest + [c] && a + b == a + rest + [c];
      LexicalNext(a + gone + rest, c);
      LexicalNext(a + rest, c);
    }
  }

  /** At the very start it takes back nothing. */
  lemma {:induction false} LexicalAtRoot(b: seq<Component>)
    ensures Lexical([ParentDir] + b) == Lexical(b)
  {
    if b == [] {
      assert [ParentDir] + b == [] + [ParentDir];
      LexicalNext([], ParentDir);
    } else {
      var (rest, c) := (b[..|b| - 1], b[|b| - 1]);
      LexicalAtRoot(rest);
      hide Lexical;
      assert b == rest + [c] && [ParentDir] + b == [ParentDir] + rest + [c];
      LexicalNext([ParentDir] + rest, c);
      LexicalNext(rest, c);
    }
  }

  // Which inode is opened.

  /** Component `i` goes back within a mount. */
  ghost predicate GoesBack(places: seq<seq<string>>, components: seq<Component>, i: nat)
    requires i < |components|
  {
    components[i].ParentDir? && !HasPlace(places, Lexical(components[..i]))
  }

  /** After every step back within a mount, the search comes to another mount. */
  ghost predicate BackForgotten(places: seq<seq<string>>, components: seq<Component>) {
    forall i :: 0 <= i < |components| && GoesBack(places, components, i) ==>
      exists j :: i < j < |components| && Enters(places, components, j)
  }

  lemma AtStands(nodes: seq<MountNode>, places: seq<seq<string>>, node: nat, extra: seq<string>, canonical: string,
                 done: seq<Component>)
    requires At(nodes, places, node, extra, canonical, done)
    ensures Stands(nodes, places, node, extra, done)
  {
  }

  lemma StandsOnMount(w: World, node: nat, extra: seq<string>, done: seq<Component>)
    requires TreeOk(w.nodes, w.places) && Stands(w.nodes, w.places, node, extra, done)
    ensures node < |w.nodes| && MountOf(w.nodes, 0, Names(Lexical(done))) == node
    ensures done != [] ==> NodeAt(w, done, |done| - 1) == node
  {
    hide Lexical, TreeOk, MountOf;
    NamesConcat(w.places[node], extra);
    WalkEnds(w.nodes, w.places, node, Names(extra));
    assert done[..|done|] == done;
  }

  /** Names that a path can have. */
  predicate GoodNames(components: seq<Component>) {
    forall i :: 0 <= i < |components| && components[i].Normal? ==> GoodName(components[i].name)
  }

  lemma EntersBefore(places: seq<seq<string>>, done: seq<Component>, c: Component, i: nat)
    requires i < |done|
    ensures Enters(places, done + [c], i) == Enters(places, done, i)
    ensures GoesBack(places, done + [c], i) == GoesBack(places, done, i)
  {
    hide Lexical, HasPlace;
    assert (done + [c])[..i + 1] == done[..i + 1] && (done + [c])[..i] == done[..i];
  }

  lemma BackNext(places: seq<seq<string>>, done: seq<Component>, c: Component)
    ensures BackForgotten(places, done + [c]) <==>
      Enters(places, done + [c], |done|) || (!GoesBack(places, done + [c], |done|) && BackForgotten(places, done))
  {
    var (all, n) := (done + [c], |done|);
    assert !(Enters(places, all, n) && GoesBack(places, all, n));
    forall i | 0 <= i < n
      ensures Enters(places, all, i) == Enters(places, done, i) && GoesBack(places, all, i) == GoesBack(places, done, i)
    {
      EntersBefore(places, done, c, i);
    }
    hide Enters, GoesBack;
    if BackForgotten(places, all) && !Enters(places, all, n) {
      assert !GoesBack(places, all, n);
      forall i | 0 <= i < n && GoesBack(places, done, i) ensures exists j :: i < j < n && Enters(places, done, j) {
        assert GoesBack(places, all, i);
        var j :| i < j < n + 1 && Enters(places, all, j);
        assert j != n;
      }
    }
    if Enters(places, all, n) || (!GoesBack(places, all, n) && BackForgotten(places, done)) {
      forall i | 0 <= i < n + 1 && GoesBack(places, all, i)
        ensures exists j :: i < j < n + 1 && Enters(places, all, j)
      {
        assert i < n;
        if !Enters(places, all, n) {
          assert GoesBack(places, done, i);
          var j :| i < j < n && Enters(places, done, j);
          assert Enters(places, all, j);
        }
      }
    }
  }

  /** Where a search stands, and whether its directory is where it stands. */
  lemma {:induction false} TrailOrLost(nodes: seq<MountNode>, places: seq<seq<string>>, components: seq<Component>)
    returns (node: nat, extra: seq<string>)
    requires TreeOk(nodes, places) && GoodNames(components)
    ensures Stands(nodes, places, node, extra, components)
    ensures if BackForgotten(places, components) then Trail(places, components) == extra
            else |Trail(places, components)| > |extra|
  {
    if components == [] {
      node, extra := 0, [];
    } else {
      var (done, c) := (components[..|components| - 1], components[|components| - 1]);
      assert components == done + [c];
      node, extra := TrailOrLost(nodes, places, done);
      TrailNext(places, done, c);
      BackNext(places, done, c);
      MoveIs(nodes, places, node, extra, done, c);
      node, extra := StandsNext(nodes, places, node, extra, done, c);
    }
  }

  lemma StandsNext(nodes: seq<MountNode>, places: seq<seq<string>>, node: nat, extra: seq<string>,
                   done: seq<Component>, c: Component)
    returns (node': nat, extra': seq<string>)
    requires TreeOk(nodes, places) && Stands(nodes, places, node, extra, done)
    requires c.Normal? ==> GoodName(c.name)
    ensures Stands(nodes, places, node', extra', done + [c])
    ensures extra' ==
      if Enters(places, done + [c], |done|) then []
      else if Asks(places, done + [c], |done|) then extra + [c.name]
      else if c.ParentDir? && extra != [] then extra[..|extra| - 1] else extra
    ensures GoesBack(places, done + [c], |done|) <==> c.ParentDir? && extra != []
  {
    hide Lexical, HasPlace, Asks, Enters;
    MoveIs(nodes, places, node, extra, done, c);
    LexicalNext(done, c);
    IsMountPlace(nodes, places, node, extra);
    assert (done + [c])[..|done|] == done;
    node', extra' := node, extra;
    if Enters(places, done + [c], |done|) {
      extra' := [];
      if c.Normal? {
        node' := nodes[node].children[c.name];
        assert places[node] + extra + [c.name] == places[node'] + [];
      } else {
        node' := nodes[node].parent.value;
        assert HangsOn(nodes, places, node);
        assert (places[node] + extra)[..|places[node]| - 1] == places[node'] + [];
      }
    } else if c.Normal? {
      extra' := extra + [c.name];
      assert places[node] + extra + [c.name] == places[node] + extra';
    } else if c.ParentDir? && extra != [] {
      extra' := extra[..|extra| - 1];
      assert (places[node] + extra)[..|places[node] + extra| - 1] == places[node] + extra';
    }
  }

  /**
   The inode that is opened is the one that the canonical path names, if and only if the search comes to another mount
   after every step back within a mount.
   */
  lemma OpensCanonical(nodes: seq<MountNode>, places: seq<seq<string>>, path: string)
    requires TreeOk(nodes, places) && HasRoot(path)
    ensures var components := Parse(path)[1..];
      var node := MountOf(nodes, 0, Names(Lexical(components)));
      && node < |places|
      && (places[node] + Trail(places, components) == Lexical(components) <==> BackForgotten(places, components))
  {
    RootIs(path);
    hide Parse, Lexical, Trail, BackForgotten, TreeOk, MountOf;
    var components := Parse(path)[1..];
    forall i | 0 <= i < |components| && components[i].Normal? ensures GoodName(components[i].name) {
      assert components[i] in Parse(path);
      ParsedNamesAreGood(path, components[i]);
    }
    var node, extra := TrailOrLost(nodes, places, components);
    StandsOnMount(World(nodes, places, n => true, (n, s) => NotFound), node, extra, components);
    assert |places[node] + Trail(places, components)| == |places[node]| + |Trail(places, components)|;
  }

  /** With nothing but the root mounted, the path `/a/../b` is `/b`, but what is opened is `/a/b`. */
  lemma BackExample()
    ensures var components := [Normal("a"), ParentDir, Normal("b")];
      && Parse("/a/../b") == [RootDir] + components
      && Lexical(components) == ["b"] && Trail([[]], components) == ["a", "b"]
  {
    hide Parse, Lexical, Trail;
    ExampleText();
    ExampleNames();
    ExampleTrail();
  }

  lemma ExampleNames()
    ensures var (a, b) := (Normal("a"), Normal("b"));
      && Lexical([]) == [] && Lexical([a]) == ["a"] && Lexical([a, ParentDir]) == []
      && Lexical([a, ParentDir, b]) == ["b"]
  {
    var (a, b) := (Normal("a"), Normal("b"));
    assert [] + [a] == [a] && [a] + [ParentDir] == [a, ParentDir] && [a, ParentDir] + [b] == [a, ParentDir, b];
    LexicalNext([], a);
    LexicalNext([a], ParentDir);
    LexicalNext([a, ParentDir], b);
  }

  lemma ExampleTrail()
    ensures Trail([[]], [Normal("a"), ParentDir, Normal("b")]) == ["a", "b"]
  {
    ExampleNames();
    hide Lexical;
    var (a, b) := (Normal("a"), Normal("b"));
    assert [] + [a] == [a] && [a] + [ParentDir] == [a, ParentDir] && [a, ParentDir] + [b] == [a, ParentDir, b];
    assert [a][..1] == [a] && [a, ParentDir][..1] == [a] && [a, ParentDir, b][..3] == [a, ParentDir, b];
    TrailNext([[]], [], a);
    TrailNext([[]], [a], ParentDir);
    TrailNext([[]], [a, ParentDir], b);
  }

  lemma ExampleText()
    ensures Parse("/a/../b") == [RootDir, Normal("a"), ParentDir, Normal("b")]
  {
    hide Body, Pieces, Named;
    assert "/a/../b"[1..] == "a" + "/" + (".." + "/" + "b");
    BodyJoin("a", ".." + "/" + "b");
    BodyJoin("..", "b");
    OnePiece("a");
    OnePiece("..");
    OnePiece("b");
  }

  /** What one component does to the search. */
  datatype Move = Stayed | Remounted | Descended

  function Pending(next: Option<Component>, rest: seq<Component>): seq<Component> {
    if next.Some? then [next.value] + rest else rest
  }

  lemma PendingFirst(path: string, all: seq<Component>, done: seq<Component>, next: Option<Component>,
                     rest: seq<Component>)
    requires Parse(path) != [] && all == Parse(path)[1..] && all == done + Pending(next, rest) && next.Some?
    ensures next.value.Normal? ==> GoodName(next.value.name)
    ensures all == done + [next.value] + rest
  {
    hide Parse;
    assert next.value in all && next.value in Parse(path);
    if next.value.Normal? {
      ParsedNamesAreGood(path, next.value);
    }
  }

  /** The search has come along `done` to `extra` below a mount, and to no other mount on the way. */
  ghost predicate At(nodes: seq<MountNode>, places: seq<seq<string>>, node: nat, extra: seq<string>, canonical: string,
                     done: seq<Component>)
  {
    && Stands(nodes, places, node, extra, done)
    && HasRoot(canonical) && Parse(canonical) == [RootDir] + Names(places[node] + extra)
  }

  ghost predicate Stands(nodes: seq<MountNode>, places: seq<seq<string>>, node: nat, extra: seq<string>,
                         done: seq<Component>)
  {
    && node < |nodes| == |places|
    && Lexical(done) == places[node] + extra
    && (extra != [] ==> extra[0] !in nodes[node].children)
  }

  lemma RestIsRoot(s: string)
    requires s == "/" || s == ""
    ensures Parse(s) == if s == "" then [] else [RootDir]
  {
    RootIs(s);
    EmptyPath();
  }

  /** Two texts other than `/` that are the root alone. */
  lemma OtherRoots()
    ensures Parse("//") == [RootDir] && Parse("/.") == [RootDir]
  {
    assert "//"[1..] == "/" && "/"[1..] == "" && Pieces("/") == ["", ""];
    assert "/."[1..] == "." && "."[1..] == "" && Pieces("") == [""];
    assert ['.'] + "" == "." && Grown('.', [""]) == ["."];
    assert Named(["."]) == Single(".") + Named([]);
    assert Named(["", ""]) == Named([""]) + Named([""]) == [];
  }

  lemma NamesConcat(a: seq<string>, b: seq<string>)
    ensures Names(a + b) == Names(a) + Names(b)
  {}

  lemma {:induction false} PlaceNamesAreGood(nodes: seq<MountNode>, places: seq<seq<string>>, n: nat)
    requires TreeOk(nodes, places) && n < |nodes|
    ensures "" !in places[n]
    decreases n
  {
    if n > 0 {
      assert HangsOn(nodes, places, n);
      var (p, name) := (nodes[n].parent.value, places[n][|places[n]| - 1]);
      assert name in nodes[p].children && GoodName(name);
      PlaceNamesAreGood(nodes, places, p);
    }
  }

  lemma AtMount(nodes: seq<MountNode>, places: seq<seq<string>>, node: nat, mapping: string)
    requires TreeOk(nodes, places) && node < |nodes| == |places|
    requires HasRoot(mapping) && Parse(mapping) == [RootDir] + Names(places[node])
    ensures At(nodes, places, node, [], mapping, Names(places[node]))
  {
    PlaceNamesAreGood(nodes, places, node);
    LexicalNames(places[node]);
    assert places[node] + [] == places[node];
  }

  lemma AtSkip(nodes: seq<MountNode>, places: seq<seq<string>>, node: nat, extra: seq<string>, canonical: string,
               done: seq<Component>, c: Component)
    requires At(nodes, places, node, extra, canonical, done) && (c.RootDir? || c.CurDir?)
    ensures At(nodes, places, node, extra, canonical, done + [c])
  {
    LexicalNext(done, c);
  }

  /** Taking the last name from the canonical path. */
  lemma Popped(canonical: string, names: seq<string>)
    requires Parse(canonical) == [RootDir] + Names(names) && names != []
    ensures var all := Parse(canonical);
      && all != [] && all[|all| - 1] != RootDir
      && forall s :: Parse(s) == all[..|all| - 1] ==>
           HasRoot(s) && Parse(s) == [RootDir] + Names(names[..|names| - 1])
  {
    hide Parse, Names, HasRoot;
    var (all, before) := (Parse(canonical), names[..|names| - 1]);
    assert names == before + [names[|names| - 1]];
    NamesSnoc(before, names[|names| - 1]);
    assert all[..|all| - 1] == [RootDir] + Names(before);
    forall s | Parse(s) == all[..|all| - 1] ensures HasRoot(s) {
      RootIs(s);
    }
  }

  lemma AtUp(nodes: seq<MountNode>, places: seq<seq<string>>, node: nat, canonical: string, done: seq<Component>)
    requires TreeOk(nodes, places) && At(nodes, places, node, [], canonical, done)
    ensures nodes[node].parent.None? ==> At(nodes, places, node, [], canonical, done + [ParentDir])
    ensures nodes[node].parent.Some? ==>
      var (p, all) := (nodes[node].parent.value, Parse(canonical));
      && all != [] && all[|all| - 1] != RootDir
      && forall s :: Parse(s) == all[..|all| - 1] ==>
           At(nodes, places, p, [], s, done + [ParentDir])
  {
    LexicalNext(done, ParentDir);
    assert places[node] + [] == places[node];
    assert node > 0 ==> HangsOn(nodes, places, node);
    if nodes[node].parent.Some? {
      var p := nodes[node].parent.value;
      assert places[node][..|places[node]| - 1] == places[p] && places[p] + [] == places[p];
      Popped(canonical, places[node]);
      hide Parse, Lexical;
    }
  }

  lemma AtBack(nodes: seq<MountNode>, places: seq<seq<string>>, node: nat, extra: seq<string>, canonical: string,
               done: seq<Component>)
    requires At(nodes, places, node, extra, canonical, done) && extra != []
    ensures var all := Parse(canonical);
      && all != [] && all[|all| - 1] != RootDir
      && forall s :: Parse(s) == all[..|all| - 1] ==>
           At(nodes, places, node, extra[..|extra| - 1], s, done + [ParentDir])
  {
    LexicalNext(done, ParentDir);
    var names := places[node] + extra;
    assert names[..|names| - 1] == places[node] + extra[..|extra| - 1];
    Popped(canonical, names);
    hide Parse, Lexical;
  }

  lemma AtDown(nodes: seq<MountNode>, places: seq<seq<string>>, node: nat, canonical: string, done: seq<Component>,
               name: string)
    requires TreeOk(nodes, places) && At(nodes, places, node, [], canonical, done) && name in nodes[node].children
    ensures At(nodes, places, nodes[node].children[name], [], Pushed(canonical, name), done + [Normal(name)])
  {
    hide Parse, Lexical, Pushed, TreeOk, Names;
    ChildPlace(nodes, places, node, name);
    ChildNode(nodes, places, node, name);
    LexicalNext(done, Normal(name));
    PushName(canonical, name);
    assert places[node] + [] == places[node];
    var c := nodes[node].children[name];
    assert places[c] + [] == places[c];
    assert [RootDir] + Names(places[node]) + [Normal(name)] == [RootDir] + Names(places[c]);
  }

  lemma AtInto(nodes: seq<MountNode>, places: seq<seq<string>>, node: nat, extra: seq<string>, canonical: string,
               done: seq<Component>, name: string)
    requires At(nodes, places, node, extra, canonical, done) && GoodName(name)
    requires extra != [] || name !in nodes[node].children
    ensures At(nodes, places, node, extra + [name], Pushed(canonical, name), done + [Normal(name)])
  {
    LexicalNext(done, Normal(name));
    PushName(canonical, name);
    hide Parse, Lexical, Pushed;
    var names := places[node] + extra;
    NamesSnoc(names, name);
    assert names + [name] == places[node] + (extra + [name]);
    assert [RootDir] + Names(names) + [Normal(name)] == [RootDir] + (Names(names) + [Normal(name)]);
  }

  lemma AtEnd(nodes: seq<MountNode>, places: seq<seq<string>>, node: nat, extra: seq<string>, canonical: string,
              done: seq<Component>)
    requires TreeOk(nodes, places) && At(nodes, places, node, extra, canonical, done)
    ensures node < |nodes| && HasRoot(canonical) && Parse(canonical) == [RootDir] + Names(Lexical(done))
    ensures MountOf(nodes, 0, Parse(canonical)[1..]) == node
  {
    hide Parse, Lexical;
    NamesConcat(places[node], extra);
    assert Parse(canonical)[1..] == Names(places[node]) + Names(extra);
    WalkEnds(nodes, places, node, Names(extra));
  }

  lemma {:induction false} LexicalNames(names: seq<string>)
    requires "" !in names
    ensures Lexical(Names(names)) == names
  {
    if names != [] {
      var (before, last) := (names[..|names| - 1], names[|names| - 1]);
      assert names == before + [last];
      NamesSnoc(before, last);
      assert Names(names)[..|names| - 1] == Names(before);
      LexicalNames(before);
    }
  }

  lemma LexicalNext(done: seq<Component>, c: Component)
    ensures Lexical(done + [c]) == LexicalStep(Lexical(done), c)
  {
    assert (done + [c])[..|done|] == done;
  }

  predicate OnlyNames(components: seq<Component>) {
    forall i :: 0 <= i < |components| ==> components[i].Normal?
  }

  function NamesOf(components: seq<Component>): (names: seq<string>)
    requires OnlyNames(components)
  {
    seq(|components|, i requires 0 <= i < |components| => components[i].name)
  }

  lemma NoNames()
    ensures OnlyNames([]) && NamesOf([]) == []
  {}

  lemma NamesRead(components: seq<Component>, names: seq<string>)
    requires |names| == |components| && forall i :: 0 <= i < |names| ==> components[i] == Normal(names[i])
    ensures OnlyNames(components) && names == NamesOf(components)
  {
  }

  lemma NamesOfLength(components: seq<Component>)
    requires OnlyNames(components)
    ensures |NamesOf(components)| == |components|
  {}

  lemma NamesAreGood(path: string, components: seq<Component>)
    requires OnlyNames(components) && forall c :: c in components ==> c in Parse(path)
    ensures forall i :: 0 <= i < |NamesOf(components)| ==> GoodName(NamesOf(components)[i])
  {
    forall i | 0 <= i < |components| ensures GoodName(components[i].name) {
      ParsedNamesAreGood(path, components[i]);
    }
  }

  lemma RootKeepsTree(nodes: seq<MountNode>, places: seq<seq<string>>, filesystem: nat)
    requires TreeOk(nodes, places)
    ensures TreeOk(nodes[0 := nodes[0].(filesystem := filesystem)], places)
  {
    var after := nodes[0 := nodes[0].(filesystem := filesystem)];
    forall n | 0 < n < |after| ensures HangsOn(after, places, n) {
      assert HangsOn(nodes, places, n);
    }
  }

  ghost predicate HasPlace(places: seq<seq<string>>, names: seq<string>) {
    exists n :: 0 <= n < |places| && places[n] == names
  }

  lemma PlaceOf(places: seq<seq<string>>, n: nat)
    requires n < |places|
    ensures HasPlace(places, places[n])
  {}

  /** What mounting at some names comes to, given the places that are mounted. */
  ghost function MountOutcome(places: seq<seq<string>>, names: seq<string>): MountResult {
    if names == [] then Panicked
    else if HasPlace(places, names) then Refused(AlreadyMounted)
    else if HasPlace(places, names[..|names| - 1]) then Mounted
    else Refused(PartOfParentNotMounted)
  }

  lemma OutcomeIs(places: seq<seq<string>>, names: seq<string>)
    ensures MountOutcome(places, names) == Panicked <==> names == []
    ensures MountOutcome(places, names) == Refused(AlreadyMounted) <==> names != [] && names in places
    ensures MountOutcome(places, names) == Mounted <==>
      names != [] && names !in places && names[..|names| - 1] in places
    ensures MountOutcome(places, names) != Refused(MustBeAbsolute)
    ensures MountOutcome(places, names) != Refused(InvalidPath)
  {
  }

  /** Nodes keep their parents, their filesystems and their children. */
  ghost predicate Kept(before: seq<MountNode>, after: seq<MountNode>) {
    && |before| <= |after|
    && (forall n :: 0 <= n < |before| ==>
         after[n].filesystem == before[n].filesystem && after[n].parent == before[n].parent)
    && (forall n, name :: 0 <= n < |before| && name in before[n].children ==>
         name in after[n].children && after[n].children[name] == before[n].children[name])
  }

  lemma PlacesDistinct(nodes: seq<MountNode>, places: seq<seq<string>>, a: nat, b: nat)
    requires TreeOk(nodes, places) && a < |nodes| && b < |nodes| && places[a] == places[b]
    ensures a == b
  {
    PlaceLeads(nodes, places, a, []);
    PlaceLeads(nodes, places, b, []);
  }

  /** Without the child, nothing is mounted at or below its place. */
  lemma {:induction false} NothingBelow(nodes: seq<MountNode>, places: seq<seq<string>>, node: nat, name: string,
                                        n: nat)
    requires TreeOk(nodes, places) && node < |nodes| && name !in nodes[node].children && n < |nodes|
    ensures !(places[node] + [name] <= places[n])
    decreases n
  {
    if n > 0 && places[node] + [name] <= places[n] {
      assert HangsOn(nodes, places, n);
      var p := nodes[n].parent.value;
      if |places[node]| + 1 == |places[n]| {
        assert places[p] == places[n][..|places[node]|] == places[node];
        PlacesDistinct(nodes, places, p, node);
      } else {
        assert places[p] == places[n][..|places[n]| - 1];
        NothingBelow(nodes, places, node, name, p);
      }
    }
  }

  lemma NotMounted(nodes: seq<MountNode>, places: seq<seq<string>>, node: nat, name: string, names: seq<string>)
    requires TreeOk(nodes, places) && node < |nodes| && name !in nodes[node].children
    requires |places| == |nodes| && places[node] + [name] <= names
    ensures !HasPlace(places, names)
  {
    forall n | 0 <= n < |places| ensures places[n] != names {
      NothingBelow(nodes, places, node, name, n);
    }
  }

  lemma ChildNode(nodes: seq<MountNode>, places: seq<seq<string>>, node: nat, name: string)
    requires TreeOk(nodes, places) && node < |nodes| && name in nodes[node].children
    ensures |places| == |nodes| && nodes[node].children[name] < |nodes|
    ensures places[nodes[node].children[name]] == places[node] + [name]
  {}

  /** An absolute path is `names`, and then `rest`. */
  ghost predicate Along(all: seq<Component>, names: seq<Component>, rest: seq<Component>) {
    all == [RootDir] + names + rest
  }

  lemma AlongStart(all: seq<Component>)
    ensures all != [] && all[0] == RootDir ==> Along(all, [], all[1..])
    ensures Along([RootDir], [], [])
  {}

  lemma AlongNext(all: seq<Component>, names: seq<Component>, rest: seq<Component>)
    requires Along(all, names, rest) && rest != []
    ensures Along(all, names + [rest[0]], rest[1..])
  {
    assert rest == [rest[0]] + rest[1..];
  }

  lemma AlongPush(path: string, names: seq<Component>, name: string)
    requires HasRoot(path) && Along(Parse(path), names, []) && GoodName(name)
    ensures HasRoot(Pushed(path, name)) && Along(Parse(Pushed(path, name)), names + [Normal(name)], [])
  {
    PushName(path, name);
    hide Parse, Pushed;
  }

  lemma AlongEnd(all: seq<Component>, names: seq<Component>, rest: seq<Component>)
    requires Along(all, names, rest)
    ensures all == [RootDir] + names + rest && all[1..] == names + rest
    ensures rest == [] ==> all == [RootDir] + names
  {}

  lemma RootIs(path: string)
    ensures HasRoot(path) <==> Parse(path) != [] && Parse(path)[0] == RootDir
    ensures HasRoot("/") && Parse("/") == [RootDir]
  {
    NoBody();
    assert "/"[1..] == "";
    if !HasRoot(path) && Parse(path) != [] && Parse(path)[0] == RootDir {
      BodyIsNames(Pieces(path[|Head(path)|..]), RootDir);
    }
  }

  lemma TreeRoot(nodes: seq<MountNode>, places: seq<seq<string>>)
    requires TreeOk(nodes, places)
    ensures |places| == |nodes| > 0 && places[0] == [] && Names(places[0]) == []
  {}

  lemma ChildPlace(nodes: seq<MountNode>, places: seq<seq<string>>, n: nat, name: string)
    requires TreeOk(nodes, places) && n < |nodes| && name in nodes[n].children
    ensures |places| == |nodes| && GoodName(name) && nodes[n].children[name] < |nodes|
    ensures Names(places[nodes[n].children[name]]) == Names(places[n]) + [Normal(name)]
  {
    NamesSnoc(places[n], name);
  }

  lemma WalkEnds(nodes: seq<MountNode>, places: seq<seq<string>>, n: nat, rest: seq<Component>)
    requires TreeOk(nodes, places) && n < |nodes|
    requires Stops(nodes, n, rest)
    ensures MountOf(nodes, 0, Names(places[n]) + rest) == n
  {
    PlaceLeads(nodes, places, n, rest);
  }
}
