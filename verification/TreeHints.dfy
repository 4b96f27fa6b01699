/** What the routes of a tree leave of their patterns behind a path, and the slash hint where the path ends with the
    slash at which a node starts. */
module TreeHints {
  import opened Bytes
  import opened Wrappers
  import opened Patterns
  import opened PatternLemmas
  import opened RadixTree
  import opened TreeShape
  import opened TreeInsert
  import opened TreeLookup
  import opened TreeRedirect
  import opened TreeCompact

  // ---- what is left of a pattern ----

  /** What is left of pattern `r` when path `p` is used up; None when `p` does not match that far, or a catch-all
      has taken it. */
  function Left(r: bytes, p: bytes): Option<bytes>
    decreases |r|
  {
    if p == [] then Some(r)
    else if r == [] then None
    else if r[0] == COLON then Left(r[SegmentEnd(r)..], p[SegmentEnd(p)..])
    else if StartsCatchAll(r) then None
    else if r[0] == p[0] then Left(r[1..], p[1..])
    else None
  }

  lemma {:induction false} LeftLiteral(x: bytes, r: bytes, p: bytes)
    requires Literal(x) && NoStar(r)
    ensures Left(x + r, x + p) == Left(r, p)
    ensures !(x <= p) && !(p <= x) ==> Left(x + r, p) == None
    ensures p <= x ==> Left(x + r, p) == Some(x[|p|..] + r)
  {
    if x == [] {
      assert x + r == r && x + p == p;
    } else {
      DropWithin(x, r, 1);
      DropWithin(x, p, 1);
      NoCatchAllAcross(x, r);
      LeftLiteral(x[1..], r, p);
      if p != [] {
        if p[0] == x[0] {
          LeftLiteral(x[1..], r, p[1..]);
          assert x == [x[0]] + x[1..] && p == [p[0]] + p[1..];
          assert x[1..] <= p[1..] ==> x <= p;
          assert p[1..] <= x[1..] ==> p <= x;
          if p <= x { assert p[1..] <= x[1..] && x[1..][|p| - 1..] == x[|p|..]; }
        }
      } else {
        assert x[0..] == x;
      }
    }
  }

  lemma LeftParam(name: bytes, r: bytes, p: bytes)
    requires ValidName(name) && AfterParam(r) && p != []
    ensures Left([COLON] + name + r, p) == Left(r, p[SegmentEnd(p)..])
  {
    ParamSegment(name, r);
  }

  /** A pattern that is used up together with the path matches it. */
  lemma {:induction false} NothingLeft(r: bytes, p: bytes)
    requires Left(r, p) == Some([])
    ensures Match(r, p).Some?
    decreases |r|
  {
    if p != [] {
      if r[0] == COLON {
        NothingLeft(r[SegmentEnd(r)..], p[SegmentEnd(p)..]);
      } else {
        NothingLeft(r[1..], p[1..]);
      }
    }
  }

  /** What is left goes on to match behind a path that ends in a slash. */
  lemma {:induction false} LeftMatches(r: bytes, p: bytes, x: bytes)
    requires EndsInSlash(p) && Left(r, p).Some? && Match(Left(r, p).value, x).Some?
    ensures Match(r, p + x).Some?
    decreases |r|
  {
    var e := if r[0] == COLON then SegmentEnd(p) else 1;
    SegmentEndUnique(p + x, SegmentEnd(p));
    DropWithin(p, x, e);
    assert p[e..] != [] ==> p[e..][|p| - e - 1] == p[|p| - 1];
    if p[e..] == [] {
      assert p[e..] + x == x;
    } else {
      LeftMatches(if r[0] == COLON then r[SegmentEnd(r)..] else r[1..], p[e..], x);
    }
  }

  // ---- the routes of a tree behind a path ----

  /** Some route of `t` has `z` left when the path is used up. */
  ghost predicate Leaves(t: Tree, p: bytes, z: bytes) {
    exists r, g :: Registered(t, r, g) && Left(r, p) == Some(z)
  }

  /** All routes that go on behind the path go on with the same byte. */
  ghost predicate Agree(t: Tree, p: bytes) { exists b :: AllGoOnWith(t, p, b) }

  ghost predicate AllGoOnWith(t: Tree, p: bytes, b: byte) { forall z :: Leaves(t, p, z) && z != [] ==> z[0] == b }

  ghost predicate NoCatchAllLeft(t: Tree, p: bytes) { forall z :: Leaves(t, p, z) ==> !StartsCatchAll(z) }

  /** The hint that the routes call for: those behind the path agree on the next byte, or one of them is the path
      and one more slash. */
  ghost predicate Hinted(t: Tree, p: bytes) { Agree(t, p) || Leaves(t, p, [SLASH]) }

  lemma SameLeaves(t: Tree, p: bytes, t': Tree, p': bytes)
    requires forall z :: Leaves(t, p, z) <==> Leaves(t', p', z)
    ensures (Agree(t, p) <==> Agree(t', p')) && (Hinted(t, p) <==> Hinted(t', p'))
    ensures NoCatchAllLeft(t, p) <==> NoCatchAllLeft(t', p')
  {
    hide Leaves;
    if b :| AllGoOnWith(t, p, b) { assert AllGoOnWith(t', p', b); }
    if b :| AllGoOnWith(t', p', b) { assert AllGoOnWith(t, p, b); }
  }

  lemma LeavesNothing(t: Tree, p: bytes)
    requires forall z :: !Leaves(t, p, z)
    ensures Hinted(t, p)
  {
    hide Leaves;
    assert AllGoOnWith(t, p, SLASH);
  }

  /** Below a static node only the child counts that the next byte selects. */
  lemma LeavesBelow(t: Tree, rest: bytes, z: bytes)
    requires Shape(t) && (t.nType == Static || t.nType == Root) && !t.wildChild && rest != []
    ensures Leaves(t, t.path + rest, z) <==>
      var i := IndexOf(t.indices, rest[0]); i < |t.indices| && i < |t.children| && Leaves(t.children[i], rest, z)
  {
    hide Left, Registered, Shape;
    var i := IndexOf(t.indices, rest[0]);
    TextIsLiteral(t);
    if r, g :| Registered(t, r, g) && Left(r, t.path + rest) == Some(z) {
      var x := RouteCases(t, r, g);
      LeftLiteral(t.path, x, rest);
      LeftStarts(x, rest);
      RoutePlace(t, x, g);
      assert Left(x, rest) == Some(z);
    }
    if i < |t.indices| && i < |t.children| {
      if r, g :| Registered(t.children[i], r, g) && Left(r, rest) == Some(z) {
        LiftRoute(t, i, r, g, rest);
      }
    }
  }

  lemma TextIsLiteral(t: Tree)
    requires Shape(t) && (t.nType == Static || t.nType == Root)
    ensures Literal(t.path)
  {}

  lemma LeftStarts(x: bytes, rest: bytes)
    requires rest != [] && Left(x, rest).Some?
    ensures x != [] && (x[0] == COLON || x[0] == rest[0])
  {}

  lemma LiftRoute(t: Tree, i: nat, r: bytes, g: Chain, rest: bytes)
    requires Shape(t) && (t.nType == Static || t.nType == Root) && i < |t.children| && Registered(t.children[i], r, g)
    ensures Registered(t, t.path + r, g) && Left(t.path + r, t.path + rest) == Left(r, rest)
  {
    hide Left;
    RegisteredBelow(t, i, r, g);
    ChildShape(t, i);
    RegisteredStart(t.children[i], r, g);
    if t.children[i].nType == Param { assert r[0] == t.children[i].path[0]; }
    LeftLiteral(t.path, r, rest);
  }

  /** Through a parameter, what the routes behind it leave of the path behind the segment. */
  lemma LeavesThrough(t: Tree, rest: bytes, z: bytes)
    requires Shape(t) && (t.nType == Static || t.nType == Root) && t.wildChild && SegmentEnd(rest) < |rest|
    ensures |t.children| == 1
    ensures Leaves(t, t.path + rest, z) <==>
      t.children[0].children != [] && Leaves(t.children[0].children[0], rest[SegmentEnd(rest)..], z)
  {
    hide Left, Registered, Shape, SegmentEnd;
    var w := OnlyParam(t);
    var end := SegmentEnd(rest);
    TextIsLiteral(t);
    ParamText(w);
    if r, g :| Registered(t, r, g) && Left(r, t.path + rest) == Some(z) {
      var x := RouteCases(t, r, g);
      LeftLiteral(t.path, x, rest);
      LeftStarts(x, rest);
      RoutePlace(t, x, g);
      var y := RouteCases(w, x, g);
      LeftParam(w.paramName, y, rest);
      LeftStarts(y, rest[end..]);
      RoutePlace(w, y, g);
      BehindName(w);
      assert Registered(w.children[0], y, g);
    }
    if w.children != [] {
      if y, g :| Registered(w.children[0], y, g) && Left(y, rest[end..]) == Some(z) {
        BehindName(w);
        RegisteredStart(w.children[0], y, g);
        RegisteredBelow(w, 0, y, g);
        LeftParam(w.paramName, y, rest);
        LiftRoute(t, 0, w.path + y, g, rest);
      }
    }
  }

  lemma OnlyParam(t: Tree) returns (w: Tree)
    requires Shape(t) && (t.nType == Static || t.nType == Root) && t.wildChild
    ensures t.children == [w] && Shape(w) && w.nType == Param && !w.wildChild
  {
    w := t.children[0];
  }

  lemma BehindName(w: Tree)
    requires Shape(w) && w.nType == Param && w.children != []
    ensures |w.children| == 1 && w.indices == [SLASH]
    ensures var n := w.children[0]; Shape(n) && n.nType == Static && Head(n) == SLASH
  {
    ChildShape(w, 0);
  }

  // ---- the node behind the slash ----

  /** The path ends with the slash at which node `n` starts. */
  lemma HintBehindSlash(n: Tree, ps: seq<Capture>)
    requires Shape(n) && Compact(n) && n.nType == Static && Head(n) == SLASH && NoCatchAllLeft(n, [SLASH])
    ensures var s := Get(n, [SLASH], ps); s.Found? && (s.handlers.None? ==> (s.tsr <==> Hinted(n, [SLASH])))
  {
    hide Get, Leaves, Compact, Shape, Left, Agree;
    GetCorrect(n, [SLASH], ps);
    if Get(n, [SLASH], ps).handlers.None? {
      if n.path == [] {
        CatchAllServes(n, ps);
      } else if n.path == [SLASH] {
        GetAtEnd(n, ps);
        UnservedEnd(n, ps);
        SlashAlone(n);
      } else {
        SlashInText(n, ps);
      }
    }
  }

  lemma UnservedEnd(t: Tree, ps: seq<Capture>)
    requires var s := Get(t, t.path, ps); s.Found? && s.handlers.None?
    ensures t.handlers.None?
  {}

  lemma SlashInText(n: Tree, ps: seq<Capture>)
    requires Shape(n) && n.nType == Static && |n.path| > 1 && n.path[0] == SLASH
    ensures Get(n, [SLASH], ps) == Found(None, ps, true) && Hinted(n, [SLASH])
  {
    hide Left;
    forall z | Leaves(n, [SLASH], z) && z != []
      ensures z[0] == n.path[1]
    {
      var r, g :| Registered(n, r, g) && Left(r, [SLASH]) == Some(z);
      var x := RouteCases(n, r, g);
      TextLeft(n.path, x);
    }
    assert AllGoOnWith(n, [SLASH], n.path[1]);
  }

  lemma TextLeft(x: bytes, r: bytes)
    requires Literal(x) && |x| > 1 && x[0] == SLASH && NoStar(r)
    ensures Left(x + r, [SLASH]) == Some(x[1..] + r)
  {
    LeftLiteral(x, r, [SLASH]);
    assert [SLASH] <= x by { assert x[..1] == [SLASH]; }
  }

  /** Some route goes on with `z` behind the node. */
  ghost predicate Below(t: Tree, z: bytes) { exists g :: InSome(t.children, z, g) }

  /** Where the path ends at a node without handlers, the routes leave what stands below the node. */
  lemma LeavesAtEnd(t: Tree, z: bytes)
    requires Shape(t) && (t.nType == Static || t.nType == Root) && t.handlers.None?
    ensures Leaves(t, t.path, z) <==> Below(t, z)
  {
    hide Left, Shape, Registered;
    TextIsLiteral(t);
    assert t.path + [] == t.path;
    if r, g :| Registered(t, r, g) && Left(r, t.path) == Some(z) {
      var x := RouteCases(t, r, g);
      LeftLiteral(t.path, x, []);
      AllLeft(x);
    }
    if g :| InSome(t.children, z, g) {
      var i :| 0 <= i < |t.children| && Registered(t.children[i], z, g);
      LiftRoute(t, i, z, g, []);
      AllLeft(z);
    }
  }

  lemma AllLeft(r: bytes)
    ensures Left(r, []) == Some(r)
  {}

  /** The node is the slash alone and has no handlers. */
  lemma SlashAlone(n: Tree)
    requires Shape(n) && Compact(n) && n.nType == Static && n.path == [SLASH] && n.handlers.None? && NoCatchAllLeft(n, [SLASH])
    ensures ExactHint(n, [SLASH]) == Some(Hinted(n, [SLASH]))
  {
    hide Leaves, Shape, Compact, Below;
    forall z ensures Leaves(n, n.path, z) <==> Below(n, z) { LeavesAtEnd(n, z); }
    if n.wildChild {
      forall z | Below(n, z) ensures z != [] && z[0] == COLON { BelowWild(n, z); }
      assert AllGoOnWith(n, [SLASH], COLON);
    } else {
      HasChildren(n);
      NoCatchAllChild(n, 0);
      NotAgreed(n);
      SlashBelowExactly(n, [SLASH]);
    }
  }

  lemma HasChildren(t: Tree)
    requires Shape(t) && (t.nType == Static || t.nType == Root) && t.handlers.None?
    ensures t.children != []
  {}

  lemma BelowWild(t: Tree, z: bytes)
    requires Shape(t) && t.nType != CatchAll && t.wildChild && Below(t, z)
    ensures z != [] && z[0] == COLON
  {
    hide Shape, InSome;
    var g :| InSome(t.children, z, g);
    RoutePlace(t, z, g);
  }

  /** A child that leads to a catch-all. */
  predicate LeadsToCatchAll(c: Tree) { c.nType == CatchAll || c.path == [] }

  lemma CatchAllRoute(c: Tree) returns (r: bytes, g: Chain)
    requires Shape(c) && (c.nType == Static || c.nType == CatchAll) && LeadsToCatchAll(c)
    ensures Registered(c, r, g) && StartsCatchAll(r)
  {
    r, g := SomeRegistered(c);
    if c.nType == CatchAll {
      BoundaryRoute(c, r, g);
    } else {
      ChildShape(c, 0);
      var x := RouteCases(c, r, g);
      BoundaryRoute(c.children[0], x, g);
    }
  }

  lemma BoundaryRoute(c: Tree, r: bytes, g: Chain)
    requires Shape(c) && c.nType == CatchAll && Registered(c, r, g)
    ensures StartsCatchAll(r) && |c.children| == 1 && r == c.children[0].path && IsLeaf(c.children[0])
  {
    var leaf := c.children[0];
    OnlyLeaf(leaf, leaf.path, leaf.handlers.value);
    var x := RouteCases(c, r, g);
    assert InSome(c.children, x, g) ==> Registered(leaf, x, g);
  }

  /** Behind a node without handlers and wildcards the routes part. */
  lemma NotAgreed(t: Tree)
    requires Shape(t) && Compact(t) && (t.nType == Static || t.nType == Root) && t.handlers.None? && !t.wildChild
    requires t.children != [] && t.children[0].nType != CatchAll
    ensures !Agree(t, t.path)
  {
    hide Leaves, Registered, Below;
    CompactParts(t);
    var r0 := RouteOfChild(t, 0);
    var r1 := RouteOfChild(t, 1);
    LeavesAtEnd(t, r0);
    LeavesAtEnd(t, r1);
    assert t.indices[0] != t.indices[1];
    Parted(t, t.path, r0, r1);
  }

  lemma Parted(t: Tree, p: bytes, x: bytes, y: bytes)
    requires Leaves(t, p, x) && Leaves(t, p, y) && x != [] && y != [] && x[0] != y[0]
    ensures !Agree(t, p)
  {
    hide Leaves;
  }

  lemma RouteOfChild(n: Tree, i: nat) returns (r: bytes)
    requires Shape(n) && n.nType != CatchAll && n.nType != Param && !n.wildChild && i < |n.children|
    ensures |n.indices| == |n.children| && Below(n, r) && r != [] && r[0] == n.indices[i]
  {
    ChildShape(n, i);
    var g;
    r, g := SomeRegistered(n.children[i]);
    RegisteredStart(n.children[i], r, g);
    assert InSome(n.children, r, g);
  }

  lemma NoCatchAllChild(t: Tree, i: nat)
    requires Shape(t) && (t.nType == Static || t.nType == Root) && t.handlers.None? && !t.wildChild && i < |t.children|
    requires NoCatchAllLeft(t, t.path)
    ensures !LeadsToCatchAll(t.children[i])
  {
    hide Leaves, Shape, Below;
    if LeadsToCatchAll(t.children[i]) {
      var r := CatchAllBelow(t, i);
      LeavesAtEnd(t, r);
    }
  }

  lemma CatchAllBelow(n: Tree, i: nat) returns (r: bytes)
    requires Shape(n) && (n.nType == Static || n.nType == Root) && !n.wildChild && i < |n.children| && LeadsToCatchAll(n.children[i])
    ensures Below(n, r) && StartsCatchAll(r)
  {
    hide Registered;
    ChildShape(n, i);
    var g;
    r, g := CatchAllRoute(n.children[i]);
    assert InSome(n.children, r, g);
  }

  /** The hint looks for a route that is the node and one more slash. */
  lemma SlashBelowExactly(t: Tree, path: bytes)
    requires Shape(t) && (t.nType == Static || t.nType == Root) && t.handlers.None? && !t.wildChild && NoCatchAllLeft(t, t.path)
    ensures ExactHint(t, path) == Some(Leaves(t, t.path, [SLASH]))
  {
    hide Leaves, Shape, Registered;
    LeavesAtEnd(t, [SLASH]);
    var i := IndexOf(t.indices, SLASH);
    if i < |t.indices| {
      HintIsSafe(t, path);
      ChildShape(t, i);
      NoCatchAllChild(t, i);
      SlashChild(t, i);
    } else if g :| InSome(t.children, [SLASH], g) {
      RoutePlace(t, [SLASH], g);
    }
  }

  lemma SlashChild(n: Tree, i: nat)
    requires Shape(n) && (n.nType == Static || n.nType == Root) && !n.wildChild
    requires i == IndexOf(n.indices, SLASH) < |n.indices| && i < |n.children|
    requires SelectedBy(n.children[i], SLASH) && !LeadsToCatchAll(n.children[i])
    ensures Below(n, [SLASH]) <==> |n.children[i].path| == 1 && n.children[i].handlers.Some?
  {
    var c := n.children[i];
    if g :| InSome(n.children, [SLASH], g) {
      RoutePlace(n, [SLASH], g);
      var x := RouteCases(c, [SLASH], g);
      assert |[SLASH]| == |c.path| + |x|;
      if x != [] { RoutePlace(c, x, g); }
    }
    if |c.path| == 1 && c.handlers.Some? {
      assert c.path == [SLASH];
      assert Registered(c, [SLASH], c.handlers.value);
      assert InSome(n.children, [SLASH], c.handlers.value);
    }
  }
}
