/**
 Paths: the double-ended iterator over components, and the operations built on it.
 */
module Paths {
  import opened Options
  import opened PathWords

  /** How far an end of the iterator has come. */
  datatype Phase = Prefix | StartDir | InBody | Done
  {
    function Rank(): nat {
      match this
      case Prefix => 0
      case StartDir => 1
      case InBody => 2
      case Done => 3
    }
  }

  /** The path that is left, and the phases of the two ends. */
  datatype Cursor = Cursor(path: string, hasRoot: bool, front: Phase, back: Phase)
  {
    predicate Finished() {
      front == Done || back == Done || front.Rank() > back.Rank()
    }

    predicate BeforeBody() {
      front.Rank() <= 1
    }

    predicate IncludeCurDir() {
      !hasRoot && LeadingDot(path)
    }

    function LenBeforeBody(): nat {
      if !BeforeBody() then 0 else (if hasRoot then 1 else 0) + (if IncludeCurDir() then 1 else 0)
    }

    /** The start of the path, if it has not been taken from either end. */
    function Start(): seq<Component> {
      if !BeforeBody() || back.Rank() == 0 then []
      else if hasRoot then [RootDir] else if IncludeCurDir() then [CurDir] else []
    }

    /** The components not yet taken. */
    function Remaining(): seq<Component>
      requires Ok()
    {
      if Finished() then [] else Start() + (if back == InBody then Body(path[LenBeforeBody()..]) else [])
    }

    predicate Ok() {
      && (back == StartDir || back == InBody ==>
            LenBeforeBody() <= |path| && (BeforeBody() ==> hasRoot == HasRoot(path)))
      && (back == StartDir ==> |path| == LenBeforeBody())
      && (back == Prefix || back == Done ==> path == "")
      && (front == Done ==> path == "")
    }
  }

  function Whole(path: string): (c: Cursor)
    ensures c.Ok() && c.Remaining() == Parse(path)
  {
    Cursor(path, HasRoot(path), Prefix, InBody)
  }

  /** The first piece of a body, and what is left after its separator. */
  lemma FirstPiece(s: string, i: nat)
    requires i <= |s| && '/' !in s[..i] && (i < |s| ==> s[i] == '/')
    ensures Body(s) == Single(s[..i]) + Body(s[if i < |s| then i + 1 else i..])
  {
    OnePiece(s[..i]);
    if i < |s| {
      assert s == s[..i] + "/" + s[i + 1..];
      BodyJoin(s[..i], s[i + 1..]);
    } else {
      assert s[..i] == s && s[i..] == "";
      assert [""][1..] == [];
    }
  }

  /** The last piece of a body, and what is left before its separator. */
  lemma LastPiece(s: string, i: nat)
    requires i <= |s| && '/' !in s[i..] && (i > 0 ==> s[i - 1] == '/')
    ensures Body(s) == Body(s[..if i > 0 then i - 1 else 0]) + Single(s[i..])
  {
    OnePiece(s[i..]);
    if i > 0 {
      assert s == s[..i - 1] + "/" + s[i..];
      BodyJoin(s[..i - 1], s[i..]);
    } else {
      assert s[i..] == s && s[..0] == "";
      assert [""][1..] == [];
    }
  }

  /** The start stays the start when a piece is cut off the end. */
  lemma CutBack(c: Cursor, size: nat)
    requires c.Ok() && c.back == InBody && 0 < size <= |c.path| - c.LenBeforeBody()
    requires var end := |c.path| - size; end > c.LenBeforeBody() ==> c.path[end] == '/'
    ensures var d := c.(path := c.path[..|c.path| - size]);
      d.Ok() && d.LenBeforeBody() == c.LenBeforeBody() && d.Start() == c.Start()
  {
    hide Body;
  }

  // What each step of the iteration does to the remaining components.

  lemma PassPrefix(c: Cursor)
    requires c.Ok() && c.front == Prefix && !c.Finished()
    ensures var d := c.(front := StartDir); d.Ok() && d.Remaining() == c.Remaining()
  {
    hide Body;
  }

  lemma TakeStart(c: Cursor)
    requires c.Ok() && c.front == StartDir && !c.Finished()
    ensures c.LenBeforeBody() <= |c.path| && (c.hasRoot || c.IncludeCurDir() <==> c.Start() != [])
    ensures c.hasRoot || c.IncludeCurDir() ==>
      c.LenBeforeBody() == 1 && c.Start() == [if c.hasRoot then RootDir else CurDir]
    ensures !c.hasRoot && !c.IncludeCurDir() ==> c.LenBeforeBody() == 0
    ensures var d := c.(front := InBody, path := c.path[c.LenBeforeBody()..]);
      d.Ok() && c.Remaining() == c.Start() + d.Remaining()
  {
    hide Body;
  }

  lemma TakeFirst(c: Cursor, size: nat, piece: seq<Component>)
    requires c.Ok() && c.front == InBody && !c.Finished() && size <= |c.path|
    requires Body(c.path) == piece + Body(c.path[size..])
    ensures var d := c.(path := c.path[size..]); d.Ok() && c.Remaining() == piece + d.Remaining()
  {
    hide Body;
  }

  lemma TakeLast(c: Cursor, size: nat, piece: seq<Component>)
    requires c.Ok() && c.back == InBody && !c.Finished() && 0 < size <= |c.path| - c.LenBeforeBody()
    requires var end := |c.path| - size; end > c.LenBeforeBody() ==> c.path[end] == '/'
    requires var (start, end) := (c.LenBeforeBody(), |c.path| - size);
      Body(c.path[start..]) == Body(c.path[start..end]) + piece
    ensures var d := c.(path := c.path[..|c.path| - size]);
      d.Ok() && d.LenBeforeBody() == c.LenBeforeBody() && c.Remaining() == d.Remaining() + piece
  {
    hide Body, Cursor.Ok, Cursor.Start, Cursor.LenBeforeBody;
    CutBack(c, size);
    var (start, end) := (c.LenBeforeBody(), |c.path| - size);
    assert c.path[..end][start..] == c.path[start..end];
    assert c.Start() + (Body(c.path[start..end]) + piece) == (c.Start() + Body(c.path[start..end])) + piece;
  }

  lemma EndBack(c: Cursor)
    requires c.Ok() && c.back == InBody && !c.Finished() && |c.path| <= c.LenBeforeBody()
    ensures var d := c.(back := StartDir); d.Ok() && d.Remaining() == c.Remaining()
  {
    NoBody();
    assert c.path[c.LenBeforeBody()..] == "";
  }

  lemma TakeStartBack(c: Cursor)
    requires c.Ok() && c.back == StartDir && !c.Finished()
    ensures |c.path| == c.LenBeforeBody() && c.Remaining() == c.Start()
    ensures c.hasRoot || c.IncludeCurDir() ==> |c.path| == 1 && c.Start() == [if c.hasRoot then RootDir else CurDir]
    ensures !c.hasRoot && !c.IncludeCurDir() ==> c.path == "" && c.Start() == []
    ensures var d := c.(back := Prefix, path := ""); d.Ok() && d.Remaining() == []
  {
    hide Body;
  }

  lemma EndFront(c: Cursor)
    requires c.Ok() && c.front == InBody && !c.Finished() && c.path == ""
    ensures var d := c.(front := Done); d.Ok() && c.Remaining() == [] == d.Remaining()
  {
    NoBody();
  }

  method FirstSeparator(s: string) returns (i: nat)
    ensures i <= |s| && '/' !in s[..i] && (i < |s| ==> s[i] == '/')
  {
    i := 0;
    while i < |s| && s[i] != '/'
      invariant i <= |s| && '/' !in s[..i]
    {
      i := i + 1;
    }
  }

  /** The position after the last separator. */
  method AfterLastSeparator(s: string) returns (i: nat)
    ensures i <= |s| && '/' !in s[i..] && (i > 0 ==> s[i - 1] == '/')
  {
    i := |s|;
    while i > 0 && s[i - 1] != '/'
      invariant i <= |s| && '/' !in s[i..]
    {
      i := i - 1;
    }
  }

  method ParseSingle(piece: string) returns (c: Option<Component>)
    ensures Single(piece) == if c.Some? then [c.value] else []
  {
    if piece == "." {
      c := None;
    } else if piece == ".." {
      c := Some(ParentDir);
    } else if piece == "" {
      c := None;
    } else {
      c := Some(Normal(piece));
    }
  }

  class Components {
    var path: string
    var hasRoot: bool
    var front: Phase
    var back: Phase

    ghost function Now(): Cursor
      reads this
    {
      Cursor(path, hasRoot, front, back)
    }

    constructor (path: string)
      ensures Now() == Whole(path)
    {
      this.path, hasRoot, front, back := path, HasRoot(path), Prefix, InBody;
    }

    constructor Clone(other: Components)
      ensures Now() == other.Now()
    {
      path, hasRoot, front, back := other.path, other.hasRoot, other.front, other.back;
    }

    predicate Finished()
      reads this
      ensures Finished() == Now().Finished()
    {
      front == Done || back == Done || front.Rank() > back.Rank()
    }

    predicate IncludeCurDir()
      reads this
      ensures IncludeCurDir() == Now().IncludeCurDir()
    {
      !hasRoot && LeadingDot(path)
    }

    function LenBeforeBody(): nat
      reads this
      ensures LenBeforeBody() == Now().LenBeforeBody()
    {
      (if front.Rank() <= 1 && hasRoot then 1 else 0) + (if front.Rank() <= 1 && IncludeCurDir() then 1 else 0)
    }

    /** The component at the front of the body, and how much of the path it takes. */
    method ParseNextComponent() returns (size: nat, c: Option<Component>)
      requires front == InBody
      ensures size <= |path| && (path != "" ==> size > 0)
      ensures Body(path) == (if c.Some? then [c.value] else []) + Body(path[size..])
      ensures c.Some? ==> Head(path) == []
    {
      var i := FirstSeparator(path);
      FirstPiece(path, i);
      size := if i < |path| then i + 1 else i;
      c := ParseSingle(path[..i]);
    }

    /** The component at the back of the body, and how much of the path it takes. */
    method ParseNextComponentBack() returns (size: nat, c: Option<Component>)
      requires back == InBody && LenBeforeBody() < |path|
      ensures 0 < size <= |path| - LenBeforeBody()
      ensures var (start, end) := (LenBeforeBody(), |path| - size);
        Body(path[start..]) == Body(path[start..end]) + if c.Some? then [c.value] else []
      ensures |path| - size > LenBeforeBody() ==> path[|path| - size] == '/'
      ensures |path| - size == 0 || path[|path| - size] == '/' || |path| - size == LenBeforeBody()
    {
      hide Body, Single, LeadingDot;
      var start := LenBeforeBody();
      var i := AfterLastSeparator(path[start..]);
      LastPiece(path[start..], i);
      size := |path| - start - i + if i > 0 then 1 else 0;
      c := ParseSingle(path[start..][i..]);
      assert path[start..][..if i > 0 then i - 1 else 0] == path[start..|path| - size];
    }

    /** Takes the first of the remaining components. */
    method Next() returns (r: Option<Component>)
      requires Now().Ok()
      modifies this
      ensures Now().Ok() && hasRoot == old(hasRoot)
      ensures r.Some? <==> old(Now().Remaining()) != []
      ensures old(Now().Remaining()) == (if r.Some? then [r.value] else []) + Now().Remaining()
    {
      hide Body, Cursor.Ok, Cursor.Remaining, Cursor.Start, LeadingDot;
      while !Finished()
        invariant Now().Ok() && Now().Remaining() == old(Now().Remaining()) && hasRoot == old(hasRoot)
        decreases 3 - front.Rank(), |path|
      {
        match front {
          case Prefix =>
            PassPrefix(Now());
            front := StartDir;
          case StartDir =>
            TakeStart(Now());
            front := InBody;
            if hasRoot {
              path := path[1..];
              return Some(RootDir);
            } else if IncludeCurDir() {
              path := path[1..];
              return Some(CurDir);
            }
          case InBody =>
            if path != "" {
              var size, c := ParseNextComponent();
              TakeFirst(Now(), size, if c.Some? then [c.value] else []);
              path := path[size..];
              if c.Some? {
                return c;
              }
            } else {
              EndFront(Now());
              front := Done;
            }
          case Done =>
            assert false;
        }
      }
      NoneRemain(Now());
      r := None;
    }

    /** The first of the remaining components, which is not taken. */
    method Peek() returns (r: Option<Component>)
      requires Now().Ok()
      ensures r == if Now().Remaining() == [] then None else Some(Now().Remaining()[0])
    {
      hide Cursor.Ok, Cursor.Remaining;
      var clone := new Components.Clone(this);
      r := clone.Next();
    }

    /** Takes the last of the remaining components. */
    method NextBack() returns (r: Option<Component>)
      requires Now().Ok()
      modifies this
      ensures Now().Ok() && hasRoot == old(hasRoot) && front == old(front)
      ensures path <= old(path)
      ensures r.Some? <==> old(Now().Remaining()) != []
      ensures old(Now().Remaining()) == Now().Remaining() + if r.Some? then [r.value] else []
    {
      hide Body, Cursor.Ok, Cursor.Remaining, Cursor.Start, Cursor.LenBeforeBody, Cursor.Finished, LeadingDot;
      while !Finished()
        invariant Now().Ok() && Now().Remaining() == old(Now().Remaining())
        invariant hasRoot == old(hasRoot) && front == old(front) && path <= old(path)
        decreases if back == Done then 0 else back.Rank() + 1, |path|
      {
        match back {
          case InBody =>
            if |path| > LenBeforeBody() {
              var size, c := ParseNextComponentBack();
              TakeLast(Now(), size, if c.Some? then [c.value] else []);
              path := path[..|path| - size];
              if c.Some? {
                return c;
              }
            } else {
              EndBack(Now());
              back := StartDir;
            }
          case StartDir =>
            TakeStartBack(Now());
            back := Prefix;
            if hasRoot {
              path := path[..|path| - 1];
              return Some(RootDir);
            } else if IncludeCurDir() {
              path := path[..|path| - 1];
              return Some(CurDir);
            }
          case Prefix =>
            EndPrefix(Now());
            back := Done;
            return None;
          case Done =>
            assert false;
        }
      }
      NoneRemain(Now());
      r := None;
    }

    /** Drops pieces that make no component from the front. */
    method TrimLeft()
      requires Now().Ok() && front == InBody
      modifies this`path
      ensures Now().Ok() && Now().Remaining() == old(Now().Remaining()) && Head(path) == []
    {
      hide Body, Cursor.Ok, Cursor.Remaining, Cursor.Start;
      while path != ""
        invariant Now().Ok() && Now().Remaining() == old(Now().Remaining())
        decreases |path|
      {
        var size, c := ParseNextComponent();
        if c.Some? {
          return;
        }
        DropFirst(Now(), size);
        path := path[size..];
      }
    }

    /** Drops pieces that make no component from the back. */
    method TrimRight()
      requires Now().Ok() && back == InBody
      modifies this`path
      ensures Now().Ok() && Now().Remaining() == old(Now().Remaining())
      ensures front == InBody && Head(old(path)) == [] ==> Head(path) == []
      ensures path <= old(path)
    {
      hide Body, Cursor.Ok, Cursor.Remaining, Cursor.Start, Head;
      while |path| > LenBeforeBody()
        invariant Now().Ok() && Now().Remaining() == old(Now().Remaining())
        invariant front == InBody && Head(old(path)) == [] ==> Head(path) == []
        invariant path <= old(path)
        decreases |path|
      {
        var size, c := ParseNextComponentBack();
        if c.Some? {
          return;
        }
        DropLast(Now(), size);
        path := path[..|path| - size];
      }
    }

    /** The part of the path that is left: its components are the ones not yet taken. */
    method AsPath() returns (r: string)
      requires Now().Ok()
      ensures Parse(r) == Now().Remaining()
      ensures front != InBody ==> r <= path
    {
      hide Body, Cursor.Ok, Cursor.Remaining, Cursor.Start, Head, Parse;
      var c := new Components.Clone(this);
      if c.front == InBody {
        c.TrimLeft();
      }
      if c.back == InBody {
        c.TrimRight();
      }
      ParseIsRemaining(c.Now());
      r := c.path;
    }
  }

  lemma EndPrefix(c: Cursor)
    requires c.Ok() && c.back == Prefix && !c.Finished()
    ensures var d := c.(back := Done); d.Ok() && c.Remaining() == [] == d.Remaining()
  {}

  lemma DropFirst(c: Cursor, size: nat)
    requires c.Ok() && c.front == InBody && size <= |c.path| && Body(c.path) == Body(c.path[size..])
    ensures var d := c.(path := c.path[size..]); d.Ok() && c.Remaining() == d.Remaining()
  {
    hide Body;
  }

  lemma DropLast(c: Cursor, size: nat)
    requires c.Ok() && c.back == InBody && 0 < size <= |c.path| - c.LenBeforeBody()
    requires var end := |c.path| - size; end > c.LenBeforeBody() ==> c.path[end] == '/'
    requires var (start, end) := (c.LenBeforeBody(), |c.path| - size);
      Body(c.path[start..]) == Body(c.path[start..end])
    ensures var d := c.(path := c.path[..|c.path| - size]);
      d.Ok() && c.Remaining() == d.Remaining() && (c.front == InBody && Head(c.path) == [] ==> Head(d.path) == [])
  {
    hide Body, Cursor.Ok, Cursor.Start, Cursor.LenBeforeBody, Head;
    CutBack(c, size);
    var (start, end) := (c.LenBeforeBody(), |c.path| - size);
    assert c.path[..end][start..] == c.path[start..end];
    if c.front == InBody {
      CutHead(c, end);
    }
  }

  lemma CutHead(c: Cursor, end: nat)
    requires c.front == InBody && end < |c.path| && (end > c.LenBeforeBody() ==> c.path[end] == '/')
    ensures Head(c.path) == [] ==> Head(c.path[..end]) == []
  {}

  lemma ParseIsRemaining(c: Cursor)
    requires c.Ok() && (c.front == InBody ==> Head(c.path) == [])
    ensures Parse(c.path) == c.Remaining()
  {
    NoBody();
    hide Body;
    if c.front == InBody || c.back == InBody || c.path == "" {
      assert c.path[0..] == c.path;
    }
    if |c.path| == |Head(c.path)| {
      assert c.path[|Head(c.path)|..] == "";
    }
  }

  lemma NoneRemain(c: Cursor)
    requires c.Ok() && c.Finished()
    ensures c.Remaining() == []
  {}

  lemma NoBody()
    ensures Body("") == []
  {
    assert [""][1..] == [];
  }

  function Reversed(s: seq<Component>): seq<Component> {
    if s == [] then [] else Reversed(s[1..]) + [s[0]]
  }

  lemma {:induction false} ReversedSnoc(s: seq<Component>, c: Component)
    ensures Reversed(s + [c]) == [c] + Reversed(s)
  {
    if s != [] {
      assert (s + [c])[1..] == s[1..] + [c];
      ReversedSnoc(s[1..], c);
    } else {
      assert (s + [c])[1..] == [] && s + [c] == [c];
    }
  }

  /**
   Takes components from both ends in any order.  What came from the front, what is left, and what came
   from the back make up the components of the path; and what is left is what `as_path` parses to.
   */
  method Interleave(path: string, fromFront: seq<bool>)
    returns (fronts: seq<Component>, backs: seq<Component>, rest: string)
    ensures fronts + Parse(rest) + Reversed(backs) == Parse(path)
    ensures |fromFront| >= |Parse(path)| ==> Parse(rest) == []
  {
    hide Body, Cursor.Ok, Cursor.Remaining, Parse, Reversed;
    NoneReversed();
    var c := new Components(path);
    fronts, backs := [], [];
    var i := 0;
    assert fronts + c.Now().Remaining() + Reversed(backs) == Parse(path);
    while i < |fromFront|
      invariant c.Now().Ok() && i <= |fromFront|
      invariant fronts + c.Now().Remaining() + Reversed(backs) == Parse(path)
      invariant c.Now().Remaining() == [] || |fronts| + |Reversed(backs)| == i
    {
      ghost var before := c.Now().Remaining();
      if fromFront[i] {
        var r := c.Next();
        if r.Some? {
          TakenFront(fronts, r.value, c.Now().Remaining(), Reversed(backs));
          fronts := fronts + [r.value];
        }
      } else {
        var r := c.NextBack();
        if r.Some? {
          ReversedSnoc(backs, r.value);
          TakenBack(fronts, c.Now().Remaining(), r.value, Reversed(backs));
          backs := backs + [r.value];
        }
      }
      i := i + 1;
    }
    rest := c.AsPath();
  }

  lemma NoneReversed()
    ensures Reversed([]) == []
  {
  }

  lemma TakenFront(fronts: seq<Component>, c: Component, rest: seq<Component>, backs: seq<Component>)
    ensures (fronts + [c]) + rest + backs == fronts + ([c] + rest) + backs
  {
  }

  lemma TakenBack(fronts: seq<Component>, rest: seq<Component>, c: Component, backs: seq<Component>)
    ensures fronts + rest + ([c] + backs) == fronts + (rest + [c]) + backs
  {
  }

  /** Iterates along a prefix; what is left, if it is one. */
  method IterAfter(path: string, prefix: string) returns (r: Option<Components>)
    ensures r.Some? <==> Parse(prefix) <= Parse(path)
    ensures r.Some? ==> fresh(r.value) && r.value.Now().Ok()
    ensures r.Some? ==> r.value.Now().Remaining() == Parse(path)[|Parse(prefix)|..]
    ensures r.Some? ==> r.value.hasRoot == HasRoot(path) && (Parse(prefix) == [] ==> r.value.Now() == Whole(path))
  {
    hide Body, Cursor.Ok, Cursor.Remaining, Parse;
    var iter := new Components(path);
    var p := new Components(prefix);
    ghost var k := 0;
    while true
      invariant iter.Now().Ok() && p.Now().Ok() && iter != p && fresh(iter) && fresh(p)
      invariant 0 <= k <= |Parse(path)| && k <= |Parse(prefix)| && Parse(path)[..k] == Parse(prefix)[..k]
      invariant iter.Now().Remaining() == Parse(path)[k..] && p.Now().Remaining() == Parse(prefix)[k..]
      invariant iter.hasRoot == HasRoot(path) && (k == 0 ==> iter.Now() == Whole(path))
      decreases |Parse(prefix)| - k
    {
      var next := new Components.Clone(iter);
      var x := next.Next();
      var y := p.Next();
      if y.None? {
        return Some(iter);
      }
      assert Parse(prefix)[k] == y.value && (x.Some? ==> Parse(path)[k] == x.value);
      if x.None? || x != y {
        return None;
      }
      iter, k := next, k + 1;
    }
    assert false;
    r := None;
  }

  /** The path relative to `base`, if `base` is a prefix of it. */
  method StripPrefix(path: string, base: string) returns (r: Option<string>)
    ensures r.Some? <==> Parse(base) <= Parse(path)
    ensures r.Some? ==> Parse(r.value) == Parse(path)[|Parse(base)|..]
  {
    var c := IterAfter(path, base);
    if c.None? {
      return None;
    }
    var s := c.value.AsPath();
    r := Some(s);
  }

  // Building paths.

  /** The text of a path with another one pushed onto it. */
  function Pushed(base: string, path: string): string {
    if HasRoot(path) then path
    else if base != "" && base[|base| - 1] != '/' then base + "/" + path
    else base + path
  }

  /** Pushing an absolute path replaces; pushing a relative one appends its components but for a leading dot. */
  lemma PushParse(base: string, path: string)
    ensures Parse(Pushed(base, path)) == if HasRoot(path) || base == "" then Parse(path) else Parse(base) + Body(path)
  {
    hide Pieces, Named, Body, Head;
    if base == "" {
      assert base + path == path;
    } else if !HasRoot(path) {
      var a := if base[|base| - 1] != '/' then base else base[..|base| - 1];
      var joined := Pushed(base, path);
      assert joined == a + "/" + path;
      PushedHead(base, path);
      PushedBody(base, a, path, |Head(base)|);
      assert Head(base) + (Body(base[|Head(base)|..]) + Body(path)) == Parse(base) + Body(path);
    }
  }

  lemma PushedHead(base: string, path: string)
    requires base != "" && !HasRoot(path)
    ensures Head(Pushed(base, path)) == Head(base)
  {}

  lemma PushedBody(base: string, a: string, path: string, h: nat)
    requires base != "" && a == (if base[|base| - 1] != '/' then base else base[..|base| - 1])
    requires h == |Head(base)|
    ensures h <= |base| && Body((a + "/" + path)[h..]) == Body(base[h..]) + Body(path)
  {
    NoBody();
    hide Pieces, Named, Body;
    if h <= |a| {
      DropJoined(a, path, h);
      BodyJoin(a[h..], path);
      if base != a {
        DropJoined(a, "", h);
        assert base == a + "/" + "";
        BodyJoin(a[h..], "");
      }
    } else {
      DropAll(a, path);
      assert h == |a| + 1 && base[h..] == "";
    }
  }

  lemma DropJoined(a: string, path: string, h: nat)
    requires h <= |a|
    ensures (a + "/" + path)[h..] == a[h..] + "/" + path
  {
  }

  lemma DropAll(a: string, path: string)
    ensures (a + "/" + path)[|a| + 1..] == path
  {
  }

  /** One more piece of a path: nothing, a step up, or a name. */
  lemma ParseOneMore(s: string, piece: string)
    requires s != "" && '/' !in piece
    ensures Parse(s + "/" + piece) == Parse(s) +
      if piece == "" || piece == "." then [] else if piece == ".." then [ParentDir] else [Normal(piece)]
  {
    var (h, joined) := (|Head(s)|, s + "/" + piece);
    assert joined[0] == s[0] && (|s| > 1 ==> joined[1] == s[1]);
    assert Head(joined) == Head(s);
    DropJoined(s, piece, h);
    BodyJoin(s[h..], piece);
    OnePiece(piece);
    hide Body, Head;
  }

  /** The first piece of a path, after a separator or without one. */
  lemma ParseFirst(piece: string)
    requires '/' !in piece
    ensures Parse("/" + piece) == [RootDir] +
      if piece == "" || piece == "." then [] else if piece == ".." then [ParentDir] else [Normal(piece)]
    ensures Parse(piece) ==
      if piece == "" then [] else if piece == "." then [CurDir] else if piece == ".." then [ParentDir]
      else [Normal(piece)]
  {
    NoBody();
    OnePiece(piece);
    hide Pieces, Named;
    assert ("/" + piece)[1..] == piece && piece[0..] == piece;
    assert LeadingDot(piece) <==> piece == ".";
    assert "."[1..] == "";
    hide Body;
  }

  /** Only the empty path has no components. */
  lemma HasComponents(s: string)
    requires s != ""
    ensures Parse(s) != []
  {
    if Head(s) == [] {
      FirstIsName(s);
      assert s[0..] == s;
    }
  }

  lemma {:induction false} FirstIsName(s: string)
    requires s != "" && Head(s) == []
    ensures Body(s) != []
  {
    hide Body;
    var i := 0;
    while i < |s| && s[i] != '/'
      invariant i <= |s| && '/' !in s[..i]
    {
      i := i + 1;
    }
    FirstPiece(s, i);
    assert s[..i] != "" && (s[..i] == "." ==> i == 1);
  }

  /** A path whose components come from behind the start of another one has no start of its own. */
  lemma NoHeadBehind(path: string, k: nat, s: string)
    requires 1 <= k <= |Parse(path)| && Parse(s) == Parse(path)[k..]
    ensures Head(s) == [] && Parse(s) == Body(s)
  {
    var (h, body) := (|Head(path)|, Body(path[|Head(path)|..]));
    if Head(s) != [] {
      var c := Parse(s)[0];
      assert c == Parse(path)[k] == body[k - h];
      BodyIsNames(Pieces(path[h..]), c);
    }
    assert s[0..] == s;
  }

  /** Joining a base and a path stripped of it gives the components of the path back. */
  lemma StripThenJoin(path: string, base: string, stripped: string)
    requires Parse(base) <= Parse(path) && Parse(stripped) == Parse(path)[|Parse(base)|..]
    ensures Parse(Pushed(base, stripped)) == Parse(path)
  {
    hide Parse, Body, Pushed, Head;
    PushParse(base, stripped);
    var (all, k) := (Parse(path), |Parse(base)|);
    assert all == all[..k] + all[k..] && all[..k] == Parse(base);
    if base != "" {
      HasComponents(base);
      NoHeadBehind(path, k, stripped);
      NoHeadNoRoot(stripped);
    } else {
      EmptyPath();
    }
  }

  lemma NoHeadNoRoot(s: string)
    requires Head(s) == []
    ensures !HasRoot(s)
  {}

  lemma EmptyPath()
    ensures Parse("") == []
  {
    NoBody();
  }

  /** The path without its last component; a root has no parent. */
  method Parent(path: string) returns (r: Option<string>)
    ensures r.Some? <==> Parse(path) != [] && Parse(path)[|Parse(path)| - 1] != RootDir
    ensures r.Some? ==> r.value <= path && Parse(r.value) == Parse(path)[..|Parse(path)| - 1]
  {
    hide Body, Cursor.Ok, Cursor.Remaining, Parse;
    var c := new Components(path);
    var last := c.NextBack();
    r := None;
    if last.Some? && !last.value.RootDir? {
      var s := c.AsPath();
      r := Some(s);
    }
  }

  class PathBuf {
    var inner: string

    constructor (inner: string)
      ensures this.inner == inner
    {
      this.inner := inner;
    }

    method Push(path: string)
      modifies this
      ensures inner == Pushed(old(inner), path)
    {
      var needSep := inner != "" && inner[|inner| - 1] != '/';
      if HasRoot(path) {
        inner := "";
      } else if needSep {
        inner := inner + "/";
      }
      inner := inner + path;
    }

    /** Takes the last component away, unless there is none or it is the root. */
    method Pop() returns (popped: bool)
      modifies this
      ensures popped <==> Parse(old(inner)) != [] && Parse(old(inner))[|Parse(old(inner))| - 1] != RootDir
      ensures popped ==> Parse(inner) == Parse(old(inner))[..|Parse(old(inner))| - 1] && inner <= old(inner)
      ensures !popped ==> inner == old(inner)
    {
      hide Parse;
      var p := Parent(inner);
      popped := p.Some?;
      if popped {
        assert inner[..|p.value|] == p.value;
        inner := inner[..|p.value|];
      }
    }
  }
}
