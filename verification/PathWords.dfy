/**
 What the components of a path are: it is cut at every separator, and empty and `.` pieces are dropped,
 except for a root or a `.` at the very start.
 */
module PathWords {
  datatype Component = RootDir | CurDir | ParentDir | Normal(name: string)

  /** One piece between separators. */
  function Single(piece: string): seq<Component> {
    if piece == "" || piece == "." then []
    else if piece == ".." then [ParentDir]
    else [Normal(piece)]
  }

  /** The pieces between all separators. */
  function Pieces(s: string): (r: seq<string>)
    ensures |r| >= 1
  {
    if s == "" then [""] else Grown(s[0], Pieces(s[1..]))
  }

  /** The pieces with one more character in front. */
  function Grown(c: char, pieces: seq<string>): (r: seq<string>)
    requires |pieces| >= 1
    ensures |r| >= 1
  {
    if c == '/' then [""] + pieces else [[c] + pieces[0]] + pieces[1..]
  }

  lemma GrownConcat(c: char, a: seq<string>, b: seq<string>)
    requires |a| >= 1
    ensures Grown(c, a + b) == Grown(c, a) + b
  {
    assert (a + b)[0] == a[0] && (a + b)[1..] == a[1..] + b;
  }

  function Named(pieces: seq<string>): seq<Component> {
    if pieces == [] then [] else Single(pieces[0]) + Named(pieces[1..])
  }

  /** The components of a path without its start. */
  function Body(s: string): seq<Component> {
    Named(Pieces(s))
  }

  predicate HasRoot(s: string) {
    s != "" && s[0] == '/'
  }

  predicate LeadingDot(s: string) {
    s != "" && s[0] == '.' && (|s| == 1 || s[1] == '/')
  }

  /** The start of a path, if it makes a component. */
  function Head(s: string): (r: seq<Component>)
    ensures |r| <= 1
  {
    if HasRoot(s) then [RootDir] else if LeadingDot(s) then [CurDir] else []
  }

  /** The components of a path. */
  function Parse(s: string): seq<Component> {
    Head(s) + Body(s[|Head(s)|..])
  }

  lemma {:induction false} PiecesJoin(a: string, b: string)
    ensures Pieces(a + "/" + b) == Pieces(a) + Pieces(b)
  {
    if a == "" {
      assert a + "/" + b == ['/'] + b && (['/'] + b)[1..] == b;
    } else {
      var s := a + "/" + b;
      assert s[0] == a[0] && s[1..] == a[1..] + "/" + b;
      PiecesJoin(a[1..], b);
      GrownConcat(a[0], Pieces(a[1..]), Pieces(b));
      hide Grown;
    }
  }

  lemma {:induction false} NamedConcat(a: seq<string>, b: seq<string>)
    ensures Named(a + b) == Named(a) + Named(b)
  {
    if a == [] {
      assert a + b == b;
    } else {
      assert (a + b)[1..] == a[1..] + b;
      NamedConcat(a[1..], b);
    }
  }

  /** Cutting at any separator cuts the list of components. */
  lemma BodyJoin(a: string, b: string)
    ensures Body(a + "/" + b) == Body(a) + Body(b)
  {
    PiecesJoin(a, b);
    NamedConcat(Pieces(a), Pieces(b));
  }

  lemma {:induction false} OnePiece(s: string)
    requires '/' !in s
    ensures Pieces(s) == [s] && Body(s) == Single(s)
  {
    if s != "" {
      OnePiece(s[1..]);
      assert [s[0]] + s[1..] == s;
      assert [s][1..] == [];
    }
    assert [s][1..] == [];
  }

  /** Only the start of a path can be a root or a `.`. */
  lemma {:induction false} BodyIsNames(pieces: seq<string>, c: Component)
    requires c in Named(pieces)
    ensures c.Normal? || c.ParentDir?
  {
    if c !in Single(pieces[0]) {
      BodyIsNames(pieces[1..], c);
    }
  }
}
