/** Where the tree does not do what a route table promises: each lemma gives the inputs. */
module TreeLimits {
  import opened Bytes
  import opened Wrappers
  import opened Patterns
  import opened PatternLemmas
  import opened RadixTree
  import opened TreeShape
  import opened TreeInsert
  import opened RouteTable
  import opened TreeRedirect
  import TreeMixed

  /** A node cut where the two bytes of `string(b)` start with the next byte of the path: the walk
      comes back to a node with the same text and the same path, again and again. */
  lemma CutRepeats(t: Tree, path: bytes)
    requires t.nType == Static && t.path != [] && path != []
    requires path[0] != t.path[0] && path[0] == RuneString(t.path[0])[0]
    ensures var s := SplitAt(Bump(t), path);
      && CommonPrefix(path, t.path) == 0 && IndexOf(s.indices, path[0]) == 0
      && s.nType == Static && |s.children| == 1
      && s.children[0].path == t.path && s.children[0].nType == Static
  {
    assert t.path[0..] == t.path;
  }

  /** "/¢" and "/é" in UTF-8: the second registration never ends. */
  lemma NonAsciiDiverges()
    ensures RegisterAll([Route([SLASH, 194, 162], [1]), Route([SLASH, 195, 169], [2])]).status == Diverged
  {
    var rs := [Route([SLASH, 194, 162], [1]), Route([SLASH, 195, 169], [2])];
    var p, q := rs[0].pattern, rs[1].pattern;
    assert rs[..1] == [rs[0]] && rs[..1][..0] == [];
    assert Literal(p);
    assert FirstWild(p) == 3 by { FirstWildLiteral(p); }
    var t := Tree(p, [], [], Some([1]), [], 1, Root, false);
    assert RegisterAll(rs[..1]) == Outcome(t, Accepted);
    assert CommonPrefix(q, p) == 1 by { assert q[1..][0] != p[1..][0]; }
    assert Walk(t, q, [2]).status == Diverged;
  }

  /** "/é" in UTF-8 and then "/", both accepted: the lookup of "/" and the byte 131 leaves the index range. */
  lemma CutIndexCrashes()
    ensures var r := RegisterAll([Route([SLASH, 195, 169], [1]), Route([SLASH], [2])]);
      r.status == Accepted && Get(r.tree, [SLASH, 131], []) == Crash
  {
    hide Get, WalkBelow;
    var p, q: bytes := [SLASH, 195, 169], [SLASH];
    Two(Route(p, [1]), Route(q, [2]));
    FirstLiteral(p, [1]);
    var t := Tree(p, [], [], Some([1]), [], 1, Root, false);
    assert CommonPrefix(q, p) == 1 by { assert q[1..] == []; }
    assert p[..1] == [SLASH] && p[1..] == [195, 169];
    var s := SplitAt(Bump(t), q);
    assert s.path == [SLASH] && s.indices == [195, 131] && |s.children| == 1 && !s.wildChild;
    OneChildTwoIndices(s.(handlers := Some([2])));
  }

  lemma OneChildTwoIndices(s: Tree)
    requires s.path == [SLASH] && s.indices == [195, 131] && |s.children| == 1 && !s.wildChild
    ensures Get(s, [SLASH, 131], []) == Crash
  {
    var p: bytes := [SLASH, 131];
    assert p[..1] == [SLASH] && p[1..] == [131];
    assert IndexOf([195, 131], 131) == 1;
  }

  lemma FirstWildLiteral(p: bytes)
    requires Literal(p)
    ensures FirstWild(p) == |p|
  {
  }

  const A: byte := 97
  const B: byte := 98
  const C: byte := 99

  /** A first route without wildcards. */
  lemma FirstLiteral(p: bytes, h: Chain)
    requires Literal(p)
    ensures AddRoute(EMPTY, p, h) == Outcome(Tree(p, [], [], Some(h), [], 1, Root, false), Accepted)
  {
    FirstWildLiteral(p);
  }

  lemma Two(r: Route, s: Route)
    ensures RegisterAll([r, s]) ==
      (var o := AddRoute(EMPTY, r.pattern, r.handlers); if o.status == Accepted then AddRoute(o.tree, s.pattern, s.handlers) else o)
  {
    assert [r, s][..1] == [r] && [r][..0] == [];
    assert RegisterAll([r]) == AddRoute(EMPTY, r.pattern, r.handlers);
  }

  /** Two routes without wildcards that part at byte `i`. */
  lemma Fork(p: bytes, h: Chain, q: bytes, g: Chain, i: nat)
    requires Literal(p) && i == CommonPrefix(q, p) && i < |p| && i < |q| && Literal(q[i..]) && p[i] < 128 && q[i] < 128
    ensures RegisterAll([Route(p, h), Route(q, g)]) ==
      Outcome(Tree(p[..i], [p[i], q[i]],
                   [Tree(p[i..], [], [], Some(h), [], 1, Static, false), Tree(q[i..], [], [], Some(g), [], 1, Static, false)],
                   None, [], 2, Root, false), Accepted)
  {
    Two(Route(p, h), Route(q, g));
    FirstLiteral(p, h);
    var t := Tree(p, [], [], Some(h), [], 1, Root, false);
    var left := Tree(p[i..], [], [], Some(h), [], 1, Static, false);
    var s := Tree(p[..i], [p[i]], [left], None, [], 2, Root, false);
    assert SplitAt(Bump(t), q) == s by { assert q[..i] == p[..i]; }
    FirstWildLiteral(q[i..]);
    ForkStatic(s, left, q[i..], g);
  }

  lemma ForkStatic(s: Tree, left: Tree, rest: bytes, g: Chain)
    requires rest != [] && Literal(rest) && rest[0] < 128 && s.nType == Root
    requires s.children == [left] && |s.indices| == 1 && s.indices[0] != rest[0] && left.priority == 1 && left.nType == Static && !s.wildChild
    ensures var right := Tree(rest, [], [], Some(g), [], 1, Static, false);
      WalkBelow(s, rest, true, g) == Outcome(s.(indices := s.indices + [rest[0]], children := [left, right]), Accepted)
  {
    FirstWildLiteral(rest);
    assert BubblePos([left, EMPTY], 1, 1) == 1;
    var t1 := s.(indices := s.indices + [rest[0]], children := [left, EMPTY]);
    assert s.children + [EMPTY] == [left, EMPTY];
    assert Promote(t1, 1) == t1.(children := [left, Bump(EMPTY)]);
  }

  /** With "/a/b" and "/ac", "/a/" is redirected to "/a", which no route serves. */
  lemma RemovedSlashUnserved()
    ensures var r := RegisterAll([Route([SLASH, A, SLASH, B], [1]), Route([SLASH, A, C], [2])]);
      && r.status == Accepted
      && Redirect(r.tree, [SLASH, A, SLASH]) == Some([SLASH, A])
      && Get(r.tree, [SLASH, A], []) == Found(None, [], false)
  {
    hide Get, Redirect, WalkBelow, Walk;
    var p, q: bytes := [SLASH, A, SLASH, B], [SLASH, A, C];
    assert CommonPrefix(q, p) == 2 by { assert q[1..][1..][0] != p[1..][1..][0]; }
    assert q[2..] == [C] && p[2..] == [SLASH, B] && p[..2] == [SLASH, A];
    Fork(p, [1], q, [2], 2);
    HintAtFork(RegisterAll([Route(p, [1]), Route(q, [2])]).tree);
  }

  lemma HintAtFork(t: Tree)
    requires t.path == [SLASH, A] && t.handlers.None? && t.indices == [SLASH, C] && !t.wildChild
    requires |t.children| == 2 && t.children[0].path == [SLASH, B] && t.children[0].nType == Static
    ensures Redirect(t, [SLASH, A, SLASH]) == Some([SLASH, A])
    ensures Get(t, [SLASH, A], []) == Found(None, [], false)
  {
    var x: bytes := [SLASH, A, SLASH];
    assert x[..2] == [SLASH, A] && x[2..] == [SLASH];
    assert Get(t, x, []) == Get(t.children[0], [SLASH], []);
  }

  /** With "/a/b", "/a/c" and "/a", "/a/" is not redirected to "/a", which is served. */
  lemma ServedSlashNotHinted()
    ensures var r := RegisterAll([Route([SLASH, A, SLASH, B], [1]), Route([SLASH, A, SLASH, C], [2]), Route([SLASH, A], [3])]);
      && r.status == Accepted
      && Get(r.tree, [SLASH, A], []) == Found(Some([3]), [], false)
      && Get(r.tree, [SLASH, A, SLASH], []) == Found(None, [], false)
  {
    hide Get, Walk, WalkBelow;
    var p, q, x: bytes := [SLASH, A, SLASH, B], [SLASH, A, SLASH, C], [SLASH, A];
    var rs := [Route(p, [1]), Route(q, [2]), Route(x, [3])];
    assert rs[..2] == [Route(p, [1]), Route(q, [2])];
    assert CommonPrefix(q, p) == 3 by {
      var q2, p2 := q[2..], p[2..];
      assert q2[1..] == [C] && p2[1..] == [B] && CommonPrefix(q2, p2) == 1;
      assert q[1..][1..] == q2 && p[1..][1..] == p2;
    }
    assert p[..3] == [SLASH, A, SLASH] && p[3..] == [B] && q[3..] == [C];
    Fork(p, [1], q, [2], 3);
    CutAbove(RegisterAll(rs[..2]).tree);
  }

  /** The node "/a/" is cut to take the route "/a". */
  lemma CutAbove(t: Tree)
    requires t.path == [SLASH, A, SLASH] && t.handlers.None? && t.nType == Root && !t.wildChild && t.indices == [B, C]
    ensures var o := AddRoute(t, [SLASH, A], [3]);
      && o.status == Accepted
      && Get(o.tree, [SLASH, A], []) == Found(Some([3]), [], false)
      && Get(o.tree, [SLASH, A, SLASH], []) == Found(None, [], false)
  {
    var x, y: bytes := [SLASH, A], [SLASH, A, SLASH];
    assert CommonPrefix(x, t.path) == 2 by { assert x[1..][1..] == [] && t.path[1..][1..] == [SLASH]; }
    assert t.path[2..] == [SLASH] && x[..2] == x && y[..2] == x && y[2..] == [SLASH];
    var o := AddRoute(t, x, [3]);
    assert o.tree.children[0].path == [SLASH] && IndexOf([B, C], SLASH) == 2;
    assert Get(o.tree, y, []) == Get(o.tree.children[0], [SLASH], []);
  }

  const X: byte := 120

  /** A parameter registered after a literal sibling replaces it: "/a" is then served by "/:x". */
  lemma ParamHidesLiteral()
    ensures var r := RegisterAll([Route([SLASH, A], [1]), Route([SLASH, COLON, X], [2])]);
      && r.status == Accepted
      && Get(r.tree, [SLASH, A], []) == Found(Some([2]), [Capture([X], [A])], false)
  {
    hide Get, WalkBelow, InsertChild;
    var p, q: bytes := [SLASH, A], [SLASH, COLON, X];
    Two(Route(p, [1]), Route(q, [2]));
    FirstLiteral(p, [1]);
    var t := Tree(p, [], [], Some([1]), [], 1, Root, false);
    assert CommonPrefix(q, p) == 1 by { assert q[1..][0] != p[1..][0]; }
    assert q[1..] == [COLON, X] && p[..1] == [SLASH] && p[1..] == [A];
    var s := SplitAt(Bump(t), q);
    assert s.path == [SLASH] && s.indices == [A] && !s.wildChild && s.nType == Root && |s.children| == 1;
    assert Walk(t, q, [2]) == WalkBelow(s, [COLON, X], true, [2]);
    ParamReplaces(s);
  }

  /** The parameter takes the place of the children. */
  lemma ParamReplaces(s: Tree)
    requires s.path == [SLASH] && s.indices == [A] && !s.wildChild && s.nType == Root
    requires |s.children| == 1 && s.children[0].nType == Static
    ensures var r := WalkBelow(s, [COLON, X], true, [2]);
      r.status == Accepted && Get(r.tree, [SLASH, A], []) == Found(Some([2]), [Capture([X], [A])], false)
  {
    hide InsertChild, Get, CommonPrefix, Walk;
    NamedParam(s, [], [2]);
    assert [] + [COLON, X] == [COLON, X];
    assert IndexOf(s.indices, COLON) == 1;
    assert WalkBelow(s, [COLON, X], true, [2]) == InsertChild(s, [COLON, X], [2]);
    ParamServes(s.(children := [Tree([COLON, X], [], [], Some([2]), [X], 1, Param, false)], wildChild := true));
  }

  lemma ParamServes(u: Tree)
    requires u.path == [SLASH] && u.wildChild && u.children == [Tree([COLON, X], [], [], Some([2]), [X], 1, Param, false)]
    ensures Get(u, [SLASH, A], []) == Found(Some([2]), [Capture([X], [A])], false)
  {
    var p: bytes := [SLASH, A];
    assert p[..1] == [SLASH] && p[1..] == [A];
    assert SegmentEnd([A]) == 1 && [A][..1] == [A];
  }

  lemma {:induction false} FirstWildAt(x: bytes, y: bytes)
    requires Literal(x) && y != [] && IsWild(y[0])
    ensures FirstWild(x + y) == |x|
  {
    if x == [] {
      assert x + y == y;
    } else {
      assert (x + y)[1..] == x[1..] + y;
      FirstWildAt(x[1..], y);
    }
  }

  /** A parameter grown behind the literal text `x`. */
  lemma NamedParam(t: Tree, x: bytes, h: Chain)
    requires Literal(x)
    ensures InsertChild(t, x + [COLON, X], h) ==
      Outcome(t.(path := if x != [] then x else t.path, wildChild := true,
                 children := [Tree([COLON, X], [], [], Some(h), [X], 1, Param, false)]), Accepted)
  {
    var p, w: bytes := x + [COLON, X], [COLON, X];
    FirstWildAt(x, w);
    SegmentEndUnique(w, 2);
    assert p[|x|..] == w && p[..|x|] == x && w[..2] == w && w[1..] == [X] && p[|x| + 2..] == [];
  }

  /** With "/a:x/", "/a" gets no hint, although "/a/" is served, with an empty capture. */
  lemma EmptyCaptureNotHinted()
    ensures var r := RegisterAll([Route([SLASH, A, COLON, X, SLASH], [1])]);
      && r.status == Accepted
      && Get(r.tree, [SLASH, A], []) == Found(None, [], false)
      && Get(r.tree, [SLASH, A, SLASH], []) == Found(Some([1]), [Capture([X], [])], false)
  {
    hide Get;
    var p, w: bytes := [SLASH, A, COLON, X, SLASH], [COLON, X, SLASH];
    assert [Route(p, [1])][..0] == [];
    assert p == [SLASH, A] + w && p[2..] == w && p[..2] == [SLASH, A];
    FirstWildAt([SLASH, A], w);
    SegmentEndUnique(w, 2);
    assert w[..2] == [COLON, X] && p[4..] == [SLASH] && w[2..] == [SLASH] && [COLON, X][1..] == [X];
    FirstWildLiteral([SLASH]);
    var n := Tree([SLASH], [], [], Some([1]), [], 1, Static, false);
    var c := Tree([COLON, X], [SLASH], [n], None, [X], 1, Param, false);
    assert ParamNode([COLON, X], [SLASH], [1]) == Outcome(c, Accepted);
    assert FindWildcard(p) == Wildcard([COLON, X], 2, true);
    assert InsertChild(Bump(EMPTY), p, [1]) == Outcome(Bump(EMPTY).(path := [SLASH, A], children := [c], wildChild := true), Accepted);
    assert RegisterAll([Route(p, [1])]) == AddRoute(EMPTY, p, [1]);
    SlashAndNoCapture(AddRoute(EMPTY, p, [1]).tree, c, n);
  }

  lemma SlashAndNoCapture(t: Tree, c: Tree, n: Tree)
    requires t.path == [SLASH, A] && t.handlers.None? && t.indices == [] && t.wildChild && t.children == [c]
    requires c.nType == Param && c.paramName == [X] && c.children == [n]
    requires n.path == [SLASH] && n.handlers == Some([1])
    ensures Get(t, [SLASH, A], []) == Found(None, [], false)
    ensures Get(t, [SLASH, A, SLASH], []) == Found(Some([1]), [Capture([X], [])], false)
  {
    var y: bytes := [SLASH, A, SLASH];
    assert y[..2] == [SLASH, A] && y[2..] == [SLASH];
    assert SegmentEnd([SLASH]) == 0 && [SLASH][..0] == [] && [SLASH][0..] == [SLASH];
  }

  /** A catch-all grown from a fresh node behind the literal text `x`. */
  lemma NamedCatchAll(t: Tree, x: bytes, h: Chain)
    requires t.path == [] && Literal(x)
    ensures InsertChild(t, x + [SLASH, STAR, X], h) ==
      Outcome(t.(path := x, indices := [SLASH], children := [Boundary([SLASH, STAR, X], [X], h)]), Accepted)
  {
    var p, w: bytes := x + [SLASH, STAR, X], [STAR, X];
    assert p == (x + [SLASH]) + w;
    FirstWildAt(x + [SLASH], w);
    SegmentEndUnique(w, 2);
    var i := |x| + 1;
    assert p[i..] == w && p[i - 1..] == [SLASH, STAR, X] && p[..i - 1] == x && w[..2] == w && w[1..] == [X];
  }

  /** A literal registered after a parameter sibling: neither "/b", which "/:x" matches, nor the literal "/a"
      itself is served. */
  lemma LiteralHidesParam()
    ensures var r := RegisterAll([Route([SLASH, COLON, X], [1]), Route([SLASH, A], [2])]);
      && r.status == Accepted
      && Match([SLASH, COLON, X], [SLASH, B]).Some?
      && Get(r.tree, [SLASH, B], []) == Found(None, [], false)
      && Get(r.tree, [SLASH, A], []) == Found(None, [], false)
  {
    hide WalkBelow, InsertChild, Get, Match;
    var p, q: bytes := [SLASH, COLON, X], [SLASH, A];
    Two(Route(p, [1]), Route(q, [2]));
    var w := Tree([COLON, X], [], [], Some([1]), [X], 1, Param, false);
    var t := Tree([SLASH], [], [w], None, [], 1, Root, true);
    assert p == [SLASH] + [COLON, X];
    NamedParam(Bump(EMPTY), [SLASH], [1]);
    assert AddRoute(EMPTY, p, [1]) == Outcome(t, Accepted);
    assert CommonPrefix(q, t.path) == 1;
    assert q[1..] == [A];
    LiteralBeside(t, w);
    assert Walk(t, q, [2]) == WalkBelow(Bump(t), [A], false, [2]);
    SlashXMatches();
    StaticLast(AddRoute(t, q, [2]).tree, A);
    StaticLast(AddRoute(t, q, [2]).tree, B);
  }

  lemma SlashXMatches()
    ensures Match([SLASH, COLON, X], [SLASH, B]).Some?
  {
    MatchLiteral([SLASH], [COLON, X], [SLASH, B]);
    MatchParam([X], [], [B]);
    assert [COLON] + [X] + [] == [COLON, X] && [SLASH] + [COLON, X] == [SLASH, COLON, X];
    assert [SLASH, B][1..] == [B];
    SegmentEndUnique([B], 1);
  }

  lemma StaticLast(u: Tree, b: byte)
    requires u.path == [SLASH] && u.wildChild && u.children != [] && u.children[|u.children| - 1].nType == Static
    ensures Get(u, [SLASH, b], []) == Found(None, [], false)
  {
  }

  /** A literal child beside a parameter child: it is last, under a node still marked for a wildcard. */
  lemma LiteralBeside(t: Tree, w: Tree)
    requires t == Tree([SLASH], [], [w], None, [], 1, Root, true)
    requires w == Tree([COLON, X], [], [], Some([1]), [X], 1, Param, false)
    ensures WalkBelow(Bump(t), [A], false, [2]) ==
      Outcome(Bump(t).(indices := [A], children := [Bump(w), Tree([A], [], [], Some([2]), [], 0, Static, false)]), Accepted)
  {
    hide WalkBelow;
    assert Shape(w) by { assert [COLON] + [X] == [COLON, X]; }
    TreeMixed.BesideParam(t, [A], [2]);
    FirstWildLiteral([A]);
  }

  /** The hint depends on the order of registration: "/ab" before "/a/" "*" "x" hides the hint that "/a"
      gets when the catch-all comes first. */
  lemma HintDependsOnOrder()
    ensures var ab, all := Route([SLASH, A, B], [1]), Route([SLASH, A, SLASH, STAR, X], [2]);
      var r, r' := RegisterAll([ab, all]), RegisterAll([all, ab]);
      && r.status == Accepted && r'.status == Accepted
      && Get(r.tree, [SLASH, A], []) == Found(None, [], false)
      && Get(r'.tree, [SLASH, A], []) == Found(None, [], true)
  {
    CatchAllLast();
    CatchAllFirst();
  }

  lemma CatchAllLast()
    ensures var r := RegisterAll([Route([SLASH, A, B], [1]), Route([SLASH, A, SLASH, STAR, X], [2])]);
      r.status == Accepted && Get(r.tree, [SLASH, A], []) == Found(None, [], false)
  {
    hide InsertStatic, InsertChild, Get, Walk, WalkBelow;
    var p, q: bytes := [SLASH, A, B], [SLASH, A, SLASH, STAR, X];
    Two(Route(p, [1]), Route(q, [2]));
    FirstLiteral(p, [1]);
    var t := Tree(p, [], [], Some([1]), [], 1, Root, false);
    assert CommonPrefix(q, p) == 2 by { assert q[1..][1..][0] != p[1..][1..][0]; }
    assert q[2..] == [SLASH, STAR, X] && p[..2] == [SLASH, A] && p[2..] == [B];
    var left := Tree([B], [], [], Some([1]), [], 1, Static, false);
    var s := Tree([SLASH, A], [B], [left], None, [], 2, Root, false);
    assert SplitAt(Bump(t), q) == s by { assert q[..2] == [SLASH, A]; }
    CatchAllBeside(s, left);
    WalksToNewChild(t, s, q);
    BoxGivesNoHint(InsertStatic(s, [SLASH, STAR, X], [2]).tree);
  }

  lemma WalksToNewChild(t: Tree, s: Tree, q: bytes)
    requires s == SplitAt(Bump(t), q) && CommonPrefix(q, t.path) == 2 < |t.path| && |q| == 5 && q[2..] == [SLASH, STAR, X]
    requires s.indices == [B] && s.nType == Root
    ensures Walk(t, q, [2]) == InsertStatic(s, [SLASH, STAR, X], [2])
  {
    hide InsertStatic, InsertChild;
    assert IndexOf([B], SLASH) == 1;
  }

  /** The node that holds a catch-all's boundary is not the one the hint looks for. */
  lemma BoxGivesNoHint(u: Tree)
    requires u.path == [SLASH, A] && u.handlers.None? && u.indices == [B, SLASH] && |u.children| == 2
    requires u.children[1].path == [] && u.children[1].nType == Static
    ensures Get(u, [SLASH, A], []) == Found(None, [], false)
  {
    assert IndexOf([B, SLASH], SLASH) == 1;
  }

  lemma CatchAllBeside(s: Tree, left: Tree)
    requires s.children == [left] && s.indices == [B] && left.priority == 1
    ensures var box := Bump(EMPTY).(indices := [SLASH], children := [Boundary([SLASH, STAR, X], [X], [2])]);
      InsertStatic(s, [SLASH, STAR, X], [2]) == Outcome(s.(indices := [B, SLASH], children := [left, box]), Accepted)
  {
    hide InsertStatic, InsertChild;
    NamedCatchAll(Bump(EMPTY), [], [2]);
    assert [] + [SLASH, STAR, X] == [SLASH, STAR, X];
    var newPos, sub := InsertStaticValue(s, [SLASH, STAR, X], [2]);
    assert newPos == 1;
    assert Rotate([left, sub.tree], 1, 1) == [left, sub.tree];
    assert Rotate([B, SLASH], 1, 1) == [B, SLASH];
  }

  lemma CatchAllFirst()
    ensures var r := RegisterAll([Route([SLASH, A, SLASH, STAR, X], [2]), Route([SLASH, A, B], [1])]);
      r.status == Accepted && Get(r.tree, [SLASH, A], []) == Found(None, [], true)
  {
    hide InsertStatic, InsertChild;
    var p, q: bytes := [SLASH, A, SLASH, STAR, X], [SLASH, A, B];
    Two(Route(p, [2]), Route(q, [1]));
    var bound := Boundary([SLASH, STAR, X], [X], [2]);
    var t := Tree([SLASH, A], [SLASH], [bound], None, [], 1, Root, false);
    assert p == [SLASH, A] + [SLASH, STAR, X];
    NamedCatchAll(Bump(EMPTY), [SLASH, A], [2]);
    assert AddRoute(EMPTY, p, [2]) == Outcome(t, Accepted);
    assert CommonPrefix(q, t.path) == 2 by { assert q[1..][1..] == [B] && t.path[1..][1..] == []; }
    assert q[2..] == [B];
    LiteralBesideBoundary(t, bound);
    assert IndexOf([SLASH], B) == 1 && IndexOf([B, SLASH], SLASH) == 1;
    assert Walk(t, q, [1]) == InsertStatic(Bump(t), [B], [1]);
  }

  lemma LiteralBesideBoundary(t: Tree, bound: Tree)
    requires t.children == [bound] && t.indices == [SLASH] && bound.priority == 0
    ensures var child := Tree([B], [], [], Some([1]), [], 1, Static, false);
      InsertStatic(Bump(t), [B], [1]) == Outcome(Bump(t).(indices := [B, SLASH], children := [child, bound]), Accepted)
  {
    FirstWildLiteral([B]);
    assert BubblePos([bound, EMPTY], 1, 1) == 0;
    var t1 := Bump(t).(indices := [SLASH, B], children := [bound, EMPTY]);
    assert [bound] + [EMPTY] == [bound, EMPTY];
    assert Promote(t1, 1) == t1.(indices := [B, SLASH], children := [Bump(EMPTY), bound]);
  }
}
