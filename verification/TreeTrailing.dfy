/** The hint for removing a slash follows from the routes: when it is given to a path that ends in a slash, whether or
    not the path without the slash is served. */
module TreeTrailing {
  import opened Bytes
  import opened Wrappers
  import opened Patterns
  import opened PatternLemmas
  import opened RadixTree
  import opened TreeShape
  import opened TreeInsert
  import opened TreeLookup
  import opened TreeRedirect
  import opened TreeRemoval
  import opened TreeCompact
  import opened TreeHints

  // ---- paths that end in a captured segment ----

  /** The path is used up and its end is captured by a parameter of pattern `r`. */
  predicate EndsCaptured(r: bytes, p: bytes)
    decreases |r|
  {
    if p == [] || r == [] then false
    else if r[0] == COLON then SegmentEnd(p) == |p| || EndsCaptured(r[SegmentEnd(r)..], p[SegmentEnd(p)..])
    else !StartsCatchAll(r) && r[0] == p[0] && EndsCaptured(r[1..], p[1..])
  }

  ghost predicate Captures(t: Tree, p: bytes) { exists r, g :: Registered(t, r, g) && EndsCaptured(r, p) }

  lemma {:induction false} CapturedLiteral(x: bytes, r: bytes, p: bytes)
    requires Literal(x) && NoStar(r)
    ensures EndsCaptured(x + r, p) <==> x <= p && EndsCaptured(r, p[|x|..])
  {
    if x == [] {
      assert x + r == r && p[0..] == p;
    } else {
      DropWithin(x, r, 1);
      NoCatchAllAcross(x, r);
      if p != [] && p[0] == x[0] {
        CapturedLiteral(x[1..], r, p[1..]);
        assert x <= p <==> x[1..] <= p[1..] by { assert x == [x[0]] + x[1..] && p == [p[0]] + p[1..]; }
        if x <= p { assert p[1..][|x| - 1..] == p[|x|..]; }
      }
    }
  }

  lemma CapturedParam(name: bytes, r: bytes, p: bytes)
    requires ValidName(name) && AfterParam(r) && p != []
    ensures EndsCaptured([COLON] + name + r, p) <==> SegmentEnd(p) == |p| || EndsCaptured(r, p[SegmentEnd(p)..])
  {
    ParamSegment(name, r);
  }

  lemma CapturedStart(r: bytes, p: bytes)
    requires EndsCaptured(r, p)
    ensures r != [] && p != [] && (r[0] == COLON || r[0] == p[0])
  {}

  /** Below a static node only the child counts that the next byte selects. */
  lemma CapturesBelow(t: Tree, rest: bytes)
    requires Shape(t) && (t.nType == Static || t.nType == Root) && !t.wildChild && rest != []
    ensures Captures(t, t.path + rest) <==>
      var i := IndexOf(t.indices, rest[0]); i < |t.indices| && i < |t.children| && Captures(t.children[i], rest)
  {
    hide EndsCaptured, Registered, Shape;
    var i := IndexOf(t.indices, rest[0]);
    TextIsLiteral(t);
    assert (t.path + rest)[|t.path|..] == rest;
    if r, g :| Registered(t, r, g) && EndsCaptured(r, t.path + rest) {
      var x := RouteCases(t, r, g);
      CapturedLiteral(t.path, x, t.path + rest);
      CapturedStart(x, rest);
      RoutePlace(t, x, g);
      assert EndsCaptured(x, rest);
    }
    if i < |t.indices| && i < |t.children| {
      if r, g :| Registered(t.children[i], r, g) && EndsCaptured(r, rest) {
        LiftCaptured(t, i, r, g, rest);
      }
    }
  }

  lemma LiftCaptured(t: Tree, i: nat, r: bytes, g: Chain, rest: bytes)
    requires Shape(t) && (t.nType == Static || t.nType == Root) && i < |t.children| && Registered(t.children[i], r, g)
    requires EndsCaptured(r, rest)
    ensures Captures(t, t.path + rest)
  {
    hide EndsCaptured, Left;
    LiftRoute(t, i, r, g, rest);
    var x := RouteCases(t, t.path + r, g);
    TextIsLiteral(t);
    assert x == (t.path + r)[|t.path|..] == r && (t.path + rest)[|t.path|..] == rest;
    CapturedLiteral(t.path, r, t.path + rest);
    assert Registered(t, t.path + r, g) && EndsCaptured(t.path + r, t.path + rest);
  }

  /** Behind a parameter: the path ends in its segment, or in one captured further on. */
  lemma CapturesThrough(t: Tree, rest: bytes)
    requires Shape(t) && (t.nType == Static || t.nType == Root) && t.wildChild && rest != []
    ensures |t.children| == 1
    ensures SegmentEnd(rest) == |rest| ==> Captures(t, t.path + rest)
    ensures SegmentEnd(rest) < |rest| ==> (Captures(t, t.path + rest) <==>
      t.children[0].children != [] && Captures(t.children[0].children[0], rest[SegmentEnd(rest)..]))
  {
    hide EndsCaptured, Registered, Shape, SegmentEnd;
    var w := OnlyParam(t);
    var end := SegmentEnd(rest);
    TextIsLiteral(t);
    ParamText(w);
    if end == |rest| {
      var r, g := SomeRegistered(w);
      var y := RouteCases(w, r, g);
      CapturedParam(w.paramName, y, rest);
      LiftCaptured(t, 0, r, g, rest);
    } else {
      assert (t.path + rest)[|t.path|..] == rest;
      if r, g :| Registered(t, r, g) && EndsCaptured(r, t.path + rest) {
        var x := RouteCases(t, r, g);
        CapturedLiteral(t.path, x, t.path + rest);
        CapturedStart(x, rest);
        RoutePlace(t, x, g);
        var y := RouteCases(w, x, g);
        CapturedParam(w.paramName, y, rest);
        CapturedStart(y, rest[end..]);
        RoutePlace(w, y, g);
        BehindName(w);
        assert Registered(w.children[0], y, g);
      }
      if w.children != [] {
        if y, g :| Registered(w.children[0], y, g) && EndsCaptured(y, rest[end..]) {
          BehindName(w);
          RegisteredStart(w.children[0], y, g);
          RegisteredBelow(w, 0, y, g);
          CapturedParam(w.paramName, y, rest);
          LiftCaptured(t, 0, w.path + y, g, rest);
        }
      }
    }
  }

  // ---- when the hint is given ----

  /** Some route puts a parameter right behind the path. */
  ghost predicate BeforeParam(t: Tree, q: bytes) { exists z :: Leaves(t, q, z) && z != [] && z[0] == COLON }

  /** The tree is cut behind the path: the routes part there, or a parameter ends there. */
  ghost predicate Cut(t: Tree, q: bytes) { !Agree(t, q) || Captures(t, q) }

  ghost predicate SomeLeaves(t: Tree, p: bytes) { exists z :: Leaves(t, p, z) }

  /** The hint that the routes call for on `q` and a slash. One of them is that path and one more slash; or those that
      go on behind it agree on the next byte, and `q` is served, or stands before a parameter, or the tree is cut there
      and some route goes on. */
  ghost predicate Given(t: Tree, q: bytes, served: bool) {
    var p := q + [SLASH];
    Leaves(t, p, [SLASH]) || (Agree(t, p) && (served || BeforeParam(t, q) || (Cut(t, q) && SomeLeaves(t, p))))
  }

  ghost predicate Exact(t: Tree, q: bytes, r: Lookup, s: Lookup) {
    r.Found? && s.Found? && (s.handlers.None? ==> (s.tsr <==> Given(t, q, r.handlers.Some?)))
  }

  lemma SameGiven(t: Tree, q: bytes, t': Tree, q': bytes)
    requires forall z :: Leaves(t, q, z) <==> Leaves(t', q', z)
    requires forall z :: Leaves(t, q + [SLASH], z) <==> Leaves(t', q' + [SLASH], z)
    requires Captures(t, q) <==> Captures(t', q')
    ensures Given(t, q, true) <==> Given(t', q', true)
    ensures Given(t, q, false) <==> Given(t', q', false)
    ensures NoCatchAllLeft(t, q + [SLASH]) <==> NoCatchAllLeft(t', q' + [SLASH])
  {
    hide Leaves, Captures;
    SameLeaves(t, q, t', q');
    SameLeaves(t, q + [SLASH], t', q' + [SLASH]);
  }

  /** Nothing goes on behind the path with the slash. */
  lemma NoneGiven(t: Tree, q: bytes)
    requires (forall z :: !Leaves(t, q, z)) && forall z :: !Leaves(t, q + [SLASH], z)
    ensures !Given(t, q, false)
  {
    hide Leaves, Agree, Cut;
  }

  lemma SlashRest(t: Tree, rest: bytes, ps: seq<Capture>)
    requires !t.wildChild && rest != []
    ensures Get(t, t.path + rest, ps) ==
      var i := IndexOf(t.indices, rest[0]);
      if i == |t.indices| then Found(None, ps, rest == [SLASH] && t.handlers.Some?)
      else if i >= |t.children| then Crash
      else Get(t.children[i], rest, ps)
  {
    assert (t.path + rest)[|t.path|..] == rest && (t.path + rest)[..|t.path|] == t.path;
  }

  lemma AlignedParts(t: Tree)
    requires Shape(t) && (t.nType == Static || t.nType == Root) && !t.wildChild
    ensures |t.indices| == |t.children| && forall i :: 0 <= i < |t.indices| ==> SelectedBy(t.children[i], t.indices[i])
  {}

  lemma BoundaryServes(t: Tree, p: bytes, ps: seq<Capture>)
    requires Shape(t) && t.nType == CatchAll && p != []
    ensures var s := Get(t, p, ps); s.Found? && s.handlers.Some?
  {
    assert p[..0] == [];
  }

  /** The hint for a path that ends in a slash and that no route serves, when no catch-all goes on behind it. */
  lemma {:induction false} SlashHintExactly(t: Tree, q: bytes, ps: seq<Capture>)
    requires Shape(t) && Compact(t) && (t.nType == Static || t.nType == Root) && q != [] && NoCatchAllLeft(t, q + [SLASH])
    ensures Exact(t, q, Get(t, q, ps), Get(t, q + [SLASH], ps))
    decreases t, 1
  {
    hide Get, Shape, Compact, Leaves, Left, Agree, Captures, Given, Registered, Match, NoCatchAllLeft;
    GetCorrect(t, q, ps);
    GetCorrect(t, q + [SLASH], ps);
    if t.path <= q {
      var rest := q[|t.path|..];
      assert q == t.path + rest && q + [SLASH] == t.path + (rest + [SLASH]);
      if t.wildChild {
        ThroughParam(t, rest, ps);
      } else if rest == [] {
        assert q == t.path;
        AtNode(t, ps);
      } else {
        ThroughChild(t, rest, ps);
      }
    } else if q <= t.path {
      InText(t, q, ps);
    } else {
      Aside(t, q, ps);
    }
  }

  // ---- the path ends inside a node's text, or leaves it ----

  lemma Aside(t: Tree, q: bytes, ps: seq<Capture>)
    requires Shape(t) && (t.nType == Static || t.nType == Root) && !(q <= t.path) && !(t.path <= q)
    requires Get(t, q, ps).Found? && Get(t, q + [SLASH], ps).Found?
    ensures Exact(t, q, Get(t, q, ps), Get(t, q + [SLASH], ps))
  {
    hide Get, Shape, Leaves, Given;
    var p := q + [SLASH];
    assert p[..|q|] == q;
    if |t.path| <= |q| { assert p[..|t.path|] == q[..|t.path|]; }
    forall z ensures !Leaves(t, q, z) && !Leaves(t, p, z) {
      LeavesAside(t, q, z);
      LeavesAside(t, p, z);
    }
    NoneGiven(t, q);
    NoHintAside(t, q, ps);
  }

  lemma LeavesAside(t: Tree, p: bytes, z: bytes)
    requires Shape(t) && (t.nType == Static || t.nType == Root) && !(p <= t.path) && !(t.path <= p)
    ensures !Leaves(t, p, z)
  {
    hide Left, Registered, Shape;
    if r, g :| Registered(t, r, g) && Left(r, p) == Some(z) {
      var x := RouteCases(t, r, g);
      TextIsLiteral(t);
      LeftLiteral(t.path, x, p);
    }
  }

  lemma InText(t: Tree, q: bytes, ps: seq<Capture>)
    requires Shape(t) && (t.nType == Static || t.nType == Root) && q != [] && q <= t.path && q != t.path
    requires NoCatchAllLeft(t, q + [SLASH]) && Get(t, q, ps).Found? && Get(t, q + [SLASH], ps).Found?
    ensures Exact(t, q, Get(t, q, ps), Get(t, q + [SLASH], ps))
  {
    hide Get, Shape, Leaves, ExactHint, NoCatchAllLeft;
    var p := q + [SLASH];
    TextAgrees(t, q);
    UnservedInText(t, q, ps);
    if p == t.path {
      if Get(t, p, ps).handlers.None? {
        GetAtEnd(t, ps);
        UnservedEnd(t, ps);
        TextEnds(t);
      }
    } else if p <= t.path {
      SlashInsideText(t, p);
      HintInText(t, p, ps);
    } else {
      assert p[..|q|] == q;
      LeavesAside(t, p, [SLASH]);
      HintOffText(t, q, ps);
    }
  }

  lemma UnservedInText(t: Tree, q: bytes, ps: seq<Capture>)
    requires q <= t.path && q != t.path && Get(t, q, ps).Found?
    ensures Get(t, q, ps).handlers.None?
  {}

  lemma HintInText(t: Tree, p: bytes, ps: seq<Capture>)
    requires p <= t.path && p != t.path && |p| > 1
    ensures Get(t, p, ps) == Found(None, ps, t.path == p + [SLASH] && t.handlers.Some?)
  {
    assert t.path == p + [SLASH] <==> |p| + 1 == |t.path| && t.path[|p|] == SLASH;
  }

  lemma HintOffText(t: Tree, q: bytes, ps: seq<Capture>)
    requires q != [] && q <= t.path && q != t.path && !(q + [SLASH] <= t.path)
    ensures Get(t, q + [SLASH], ps) == Found(None, ps, false)
  {
    var p := q + [SLASH];
    if |p| + 1 == |t.path| { assert p != t.path[..|p|]; }
  }

  /** Inside a node's text the routes go on with its next byte, which starts no parameter. */
  lemma TextAgrees(t: Tree, q: bytes)
    requires Shape(t) && (t.nType == Static || t.nType == Root) && q <= t.path && q != t.path
    ensures Agree(t, q) && !BeforeParam(t, q) && !Captures(t, q)
  {
    hide Left, EndsCaptured, Registered, Shape;
    TextIsLiteral(t);
    forall z | Leaves(t, q, z)
      ensures z != [] && z[0] == t.path[|q|]
    {
      var r, g :| Registered(t, r, g) && Left(r, q) == Some(z);
      var x := RouteCases(t, r, g);
      LeftLiteral(t.path, x, q);
    }
    assert AllGoOnWith(t, q, t.path[|q|]);
    if r, g :| Registered(t, r, g) && EndsCaptured(r, q) {
      var x := RouteCases(t, r, g);
      CapturedLiteral(t.path, x, q);
    }
  }

  lemma SlashInsideText(t: Tree, p: bytes)
    requires Shape(t) && (t.nType == Static || t.nType == Root) && p <= t.path && p != t.path
    ensures Leaves(t, p, [SLASH]) <==> t.path == p + [SLASH] && t.handlers.Some?
  {
    hide Left, Shape, Registered;
    TextIsLiteral(t);
    assert t.path == p + t.path[|p|..];
    if r, g :| Registered(t, r, g) && Left(r, p) == Some([SLASH]) {
      var x := RouteCases(t, r, g);
      LeftLiteral(t.path, x, p);
      assert |t.path[|p|..] + x| == 1;
      assert x == [] && t.path[|p|..] + x == t.path[|p|..];
    }
    if t.path == p + [SLASH] && t.handlers.Some? {
      OwnRoute(t);
      LeftLiteral(t.path, [], p);
      assert t.path + [] == t.path && t.path[|p|..] + [] == [SLASH];
    }
  }

  lemma OwnRoute(t: Tree)
    requires t.handlers.Some?
    ensures Registered(t, t.path, t.handlers.value)
  {}

  lemma TextEnds(t: Tree)
    requires Shape(t) && (t.nType == Static || t.nType == Root) && t.handlers.None? && |t.path| > 1 && NoCatchAllLeft(t, t.path)
    ensures ExactHint(t, t.path) == Some(Leaves(t, t.path, [SLASH]))
  {
    hide Leaves, Shape, Below;
    if t.wildChild {
      LeavesAtEnd(t, [SLASH]);
      if Below(t, [SLASH]) { BelowWild(t, [SLASH]); }
      NoIndices(t);
    } else {
      SlashBelowExactly(t, t.path);
    }
  }

  lemma NoIndices(t: Tree)
    requires Shape(t) && (t.nType == Static || t.nType == Root) && t.wildChild
    ensures t.indices == []
  {}

  // ---- the path ends at a node ----

  lemma EndHandlers(t: Tree, ps: seq<Capture>)
    ensures var r := Get(t, t.path, ps); r.Found? ==> r.handlers == t.handlers
  {}

  lemma AtNode(t: Tree, ps: seq<Capture>)
    requires Shape(t) && Compact(t) && (t.nType == Static || t.nType == Root) && !t.wildChild
    requires NoCatchAllLeft(t, t.path + [SLASH]) && Get(t, t.path, ps).Found? && Get(t, t.path + [SLASH], ps).Found?
    ensures Exact(t, t.path, Get(t, t.path, ps), Get(t, t.path + [SLASH], ps))
  {
    hide Get, Shape, Compact, Leaves, Left, Agree, Captures;
    EndHandlers(t, ps);
    var i := IndexOf(t.indices, SLASH);
    SlashRest(t, [SLASH], ps);
    forall z ensures Leaves(t, t.path + [SLASH], z) <==> i < |t.indices| && i < |t.children| && Leaves(t.children[i], [SLASH], z) {
      LeavesBelow(t, [SLASH], z);
    }
    AlignedParts(t);
    if i == |t.indices| {
      LeavesNothing(t, t.path + [SLASH]);
      if t.handlers.None? { NotBeforeParam(t); }
    } else {
      var n := t.children[i];
      CompactParts(t);
      SameLeaves(t, t.path + [SLASH], n, [SLASH]);
      if n.nType == CatchAll {
        BoundaryServes(n, [SLASH], ps);
      } else {
        HintBehindSlash(n, ps);
        if t.handlers.None? && Get(n, [SLASH], ps).handlers.None? {
          NoBoundaryFirst(t, i);
          NotAgreed(t);
          var z := SlashLeft(n, ps);
        }
      }
    }
  }

  lemma NoBoundaryFirst(t: Tree, i: nat)
    requires Shape(t) && (t.nType == Static || t.nType == Root) && !t.wildChild
    requires i == IndexOf(t.indices, SLASH) < |t.indices| && i < |t.children| && t.children[i].nType != CatchAll
    ensures t.children[0].nType != CatchAll
  {
    ChildShape(t, 0);
  }

  lemma NotBeforeParam(t: Tree)
    requires Shape(t) && (t.nType == Static || t.nType == Root) && !t.wildChild && t.handlers.None?
    ensures !BeforeParam(t, t.path)
  {
    hide Shape, Leaves, InSome;
    if z :| Leaves(t, t.path, z) && z != [] && z[0] == COLON {
      LeavesAtEnd(t, z);
      var g :| InSome(t.children, z, g);
      RoutePlace(t, z, g);
    }
  }

  /** Some route goes on behind the slash at which a node starts that does not serve the slash. */
  lemma SlashLeft(n: Tree, ps: seq<Capture>) returns (z: bytes)
    requires Shape(n) && n.nType == Static && Head(n) == SLASH && Get(n, [SLASH], ps).Found? && Get(n, [SLASH], ps).handlers.None?
    ensures Leaves(n, [SLASH], z)
  {
    hide Get, Shape, Left, Registered;
    if n.path == [] { CatchAllServes(n, ps); }
    var r, g := SomeRegistered(n);
    var x := RouteCases(n, r, g);
    TextIsLiteral(n);
    LeftLiteral(n.path, x, [SLASH]);
    assert [SLASH] <= n.path by { assert n.path[..1] == [SLASH]; }
    z := n.path[1..] + x;
  }

  // ---- the path goes on below the node ----

  /** The path goes on below the child that its next byte selects. */
  lemma {:induction false} ThroughChild(t: Tree, rest: bytes, ps: seq<Capture>)
    requires Shape(t) && Compact(t) && (t.nType == Static || t.nType == Root) && !t.wildChild && rest != []
    requires NoCatchAllLeft(t, t.path + (rest + [SLASH]))
    requires Get(t, t.path + rest, ps).Found? && Get(t, t.path + (rest + [SLASH]), ps).Found?
    ensures Exact(t, t.path + rest, Get(t, t.path + rest, ps), Get(t, t.path + (rest + [SLASH]), ps))
    decreases t, 0
  {
    hide Get, Shape, Compact, Leaves, Left, Agree, Captures, Given, NoCatchAllLeft;
    var rest', q := rest + [SLASH], t.path + rest;
    assert q + [SLASH] == t.path + rest';
    var i := IndexOf(t.indices, rest[0]);
    SlashRest(t, rest, ps);
    SlashRest(t, rest', ps);
    AlignedParts(t);
    forall z
      ensures Leaves(t, q, z) <==> i < |t.indices| && i < |t.children| && Leaves(t.children[i], rest, z)
      ensures Leaves(t, q + [SLASH], z) <==> i < |t.indices| && i < |t.children| && Leaves(t.children[i], rest', z)
    {
      LeavesBelow(t, rest, z);
      LeavesBelow(t, rest', z);
    }
    if i == |t.indices| {
      NoneGiven(t, q);
    } else {
      var n := t.children[i];
      CompactParts(t);
      CapturesBelow(t, rest);
      SameGiven(t, q, n, rest);
      if n.nType == CatchAll {
        BoundaryServes(n, rest', ps);
      } else {
        SlashHintExactly(n, rest, ps);
      }
    }
  }

  /** The path goes on, or ends, behind the parameter child. */
  lemma {:induction false} ThroughParam(t: Tree, rest: bytes, ps: seq<Capture>)
    requires Shape(t) && Compact(t) && (t.nType == Static || t.nType == Root) && t.wildChild
    requires NoCatchAllLeft(t, t.path + (rest + [SLASH]))
    requires Get(t, t.path + rest, ps).Found? && Get(t, t.path + (rest + [SLASH]), ps).Found?
    ensures Exact(t, t.path + rest, Get(t, t.path + rest, ps), Get(t, t.path + (rest + [SLASH]), ps))
    decreases t, 0
  {
    hide Get, Shape, Compact, Leaves, Left, Agree, Captures, Given, NoCatchAllLeft;
    var rest', end, q := rest + [SLASH], SegmentEnd(rest), t.path + rest;
    assert q + [SLASH] == t.path + rest';
    SegmentEndAppend(rest);
    assert SegmentEnd(rest') == end && rest'[end..] == rest[end..] + [SLASH];
    if end == |rest| {
      assert rest'[end..] == [SLASH];
      ParamEnds(t, rest, ps);
    } else {
      var w := OnlyParam(t);
      GetBehindParam(t, rest, ps);
      GetBehindParam(t, rest', ps);
      forall z
        ensures Leaves(t, q, z) <==> w.children != [] && Leaves(w.children[0], rest[end..], z)
        ensures Leaves(t, q + [SLASH], z) <==> w.children != [] && Leaves(w.children[0], rest'[end..], z)
      {
        LeavesThrough(t, rest, z);
        LeavesThrough(t, rest', z);
      }
      if w.children == [] {
        NoneGiven(t, q);
      } else {
        var n, captured := w.children[0], ps + [Capture(w.paramName, rest[..end])];
        BehindName(w);
        CompactParts(t);
        CompactParts(w);
        CapturesThrough(t, rest);
        SameGiven(t, q, n, rest[end..]);
        assert rest'[..end] == rest[..end];
        SlashHintExactly(n, rest[end..], captured);
      }
    }
  }

  /** The path ends before the parameter, or in its segment. */
  lemma ParamEnds(t: Tree, rest: bytes, ps: seq<Capture>)
    requires Shape(t) && Compact(t) && (t.nType == Static || t.nType == Root) && t.wildChild && SegmentEnd(rest) == |rest|
    requires NoCatchAllLeft(t, t.path + (rest + [SLASH]))
    requires Get(t, t.path + rest, ps).Found? && Get(t, t.path + (rest + [SLASH]), ps).Found?
    ensures Exact(t, t.path + rest, Get(t, t.path + rest, ps), Get(t, t.path + (rest + [SLASH]), ps))
  {
    hide Get, Shape, Compact, Leaves, Left, Agree, Captures, BeforeParam, SegmentEnd, NoCatchAllLeft;
    var rest', q := rest + [SLASH], t.path + rest;
    assert q + [SLASH] == t.path + rest';
    SegmentEndAppend(rest);
    assert rest'[|rest|..] == [SLASH];
    var w := OnlyParam(t);
    GetBehindParam(t, rest', ps);
    forall z ensures Leaves(t, q + [SLASH], z) <==> w.children != [] && Leaves(w.children[0], [SLASH], z) {
      LeavesThrough(t, rest', z);
    }
    if rest == [] { ParamIsNext(t); } else {
      CapturesThrough(t, rest);
      GetBehindParam(t, rest, ps);
    }
    if w.children == [] {
      LeavesNothing(t, q + [SLASH]);
      ParamHasHandlers(w);
    } else {
      var n, captured := w.children[0], ps + [Capture(w.paramName, rest'[..|rest|])];
      BehindName(w);
      CompactParts(t);
      CompactParts(w);
      SameLeaves(t, q + [SLASH], n, [SLASH]);
      HintBehindSlash(n, captured);
      if Get(n, [SLASH], captured).handlers.None? { var z := SlashLeft(n, captured); }
    }
  }

  lemma ParamHasHandlers(w: Tree)
    requires Shape(w) && w.nType == Param && w.children == []
    ensures w.handlers.Some?
  {}

  lemma ParamIsNext(t: Tree)
    requires Shape(t) && (t.nType == Static || t.nType == Root) && t.wildChild
    ensures BeforeParam(t, t.path + [])
  {
    hide Shape, Left, Registered;
    var w := OnlyParam(t);
    var r, g := SomeRegistered(w);
    RegisteredStart(w, r, g);
    ParamText(w);
    assert r[0] == w.path[0];
    LiftRoute(t, 0, r, g, []);
    AllLeft(r);
    assert Leaves(t, t.path + [], r);
  }

  // ---- paths that are served ----

  /** Where a path is served, the path with a slash, if it is not, gets the hint exactly when the routes that go on
      behind it agree on the next byte, or one of them is one more slash. */
  lemma ServedHintExactly(t: Tree, q: bytes, ps: seq<Capture>)
    requires Shape(t) && Compact(t) && (t.nType == Static || t.nType == Root) && NoCatchAllLeft(t, q + [SLASH])
    requires Get(t, q, ps).Found? && Get(t, q, ps).handlers.Some?
    ensures var s := Get(t, q + [SLASH], ps); s.Found? && (s.handlers.None? ==> (s.tsr <==> Hinted(t, q + [SLASH])))
  {
    hide Get, Shape, Compact, Leaves, Agree, Cut, BeforeParam;
    if q == [] { NothingServed(t, ps); }
    SlashHintExactly(t, q, ps);
  }

  // ---- where nothing goes on ----

  /** Pattern `r` matches `q`, a slash and perhaps more. */
  predicate MatchesBehind(r: bytes, q: bytes, x: bytes) { x != [] && x[0] == SLASH && Match(r, q + x).Some? }

  /** Some route of `t` matches a path that goes on behind `q` with a slash. */
  ghost predicate GoesOnBehind(t: Tree, q: bytes) {
    exists r, g, x :: Registered(t, r, g) && MatchesBehind(r, q, x)
  }

  lemma LeavesGoOn(t: Tree, q: bytes, z: bytes)
    requires Leaves(t, q + [SLASH], z)
    ensures GoesOnBehind(t, q)
  {
    hide Left, Match, Registered, Instance;
    var r, g :| Registered(t, r, g) && Left(r, q + [SLASH]) == Some(z);
    var x := Instance(z, 120);
    InstanceMatches(z, 120);
    LeftMatches(r, q + [SLASH], x);
    assert q + [SLASH] + x == q + ([SLASH] + x);
    assert MatchesBehind(r, q, [SLASH] + x);
  }

  /** When a path is served and no route matches it with a slash behind it, alone or followed by more, the path with
      the slash is not served and gets the hint. */
  lemma ServedPathIsHinted(t: Tree, q: bytes, ps: seq<Capture>)
    requires Shape(t) && Compact(t) && (t.nType == Static || t.nType == Root) && !GoesOnBehind(t, q)
    requires Get(t, q, ps).Found? && Get(t, q, ps).handlers.Some?
    ensures var s := Get(t, q + [SLASH], ps); s.Found? && s.handlers.None? && s.tsr
  {
    hide Get, Shape, Compact, Leaves, Agree, GoesOnBehind;
    forall z ensures !Leaves(t, q + [SLASH], z) { if Leaves(t, q + [SLASH], z) { LeavesGoOn(t, q, z); } }
    LeavesNothing(t, q + [SLASH]);
    ServedHintExactly(t, q, ps);
    SlashUnserved(t, q, ps);
  }

  lemma SlashUnserved(t: Tree, q: bytes, ps: seq<Capture>)
    requires Shape(t) && (t.nType == Static || t.nType == Root) && !GoesOnBehind(t, q)
    ensures Get(t, q + [SLASH], ps).Found? && Get(t, q + [SLASH], ps).handlers.None?
  {
    hide Get, Shape, Match, Registered;
    GetCorrect(t, q + [SLASH], ps);
    if Get(t, q + [SLASH], ps).handlers.Some? {
      var r, g :| Registered(t, r, g) && Match(r, q + [SLASH]).Some?;
      SlashIsBehind(t, q, r, g);
    }
  }

  lemma SlashIsBehind(t: Tree, q: bytes, r: bytes, g: Chain)
    requires Registered(t, r, g) && Match(r, q + [SLASH]).Some?
    ensures GoesOnBehind(t, q)
  {
    assert MatchesBehind(r, q, [SLASH]);
  }

  /** No tree serves the empty path. */
  lemma NothingServed(t: Tree, ps: seq<Capture>)
    requires Shape(t) && (t.nType == Static || t.nType == Root)
    ensures var s := Get(t, [], ps); s.Found? ==> s.handlers.None?
  {}

  // ---- a catch-all behind a parameter ----

  /** Pattern `stem`, the parameter `key`, and what follows it. */
  function WithParam(stem: bytes, key: bytes, tail: bytes): bytes { stem + ([COLON] + key + tail) }

  /** When a path that ends in a parameter's segment is not served and a catch-all follows the parameter, the path gets
      the hint. */
  lemma {:induction false} CatchAllIsHinted(t: Tree, p: bytes, ps: seq<Capture>, stem: bytes, key: bytes, name: bytes, g: Chain)
    requires Shape(t) && (t.nType == Static || t.nType == Root) && ValidName(key)
    requires Registered(t, WithParam(stem, key, [SLASH, STAR] + name), g) && Match(WithParam(stem, key, []), p).Some?
    requires Get(t, p, ps).Found? && Get(t, p, ps).handlers.None?
    ensures Get(t, p, ps).tsr
    decreases t
  {
    hide Get, Match, Registered, Shape, WithParam;
    var tail := [SLASH, STAR] + name;
    var x := RouteCases(t, WithParam(stem, key, tail), g);
    TextIsLiteral(t);
    var stem' := StemBehind(t.path, x, stem, key, tail);
    var rest := RestBehind(t.path, stem', key, p);
    RoutePlace(t, x, g);
    if t.wildChild {
      var w := OnlyParam(t);
      ParamText(w);
      var y := RouteCases(w, x, g);
      GetBehindParam(t, rest, ps);
      if stem' == [] {
        SameName(w.paramName, y, key, name);
        RoutePlace(w, y, g);
        BehindName(w);
        LastSegment(key, rest);
        EmptyBox(w.children[0], name, g);
      } else {
        var stem2 := StemBehindParam(w.paramName, y, stem', key, tail, rest);
        RoutePlace(w, y, g);
        BehindName(w);
        var end := SegmentEnd(rest);
        CatchAllIsHinted(w.children[0], rest[end..], ps + [Capture(w.paramName, rest[..end])], stem2, key, name, g);
      }
    } else {
      SlashRest(t, rest, ps);
      FirstByte(stem', key, tail, rest);
      var i := IndexOf(t.indices, rest[0]);
      ChildShape(t, i);
      NotBoundary(t.children[i], stem', key, tail, g);
      CatchAllIsHinted(t.children[i], rest, ps, stem', key, name, g);
    }
  }

  lemma StemBehind(text: bytes, x: bytes, stem: bytes, key: bytes, tail: bytes) returns (stem': bytes)
    requires Literal(text) && NoStar(x) && text + x == WithParam(stem, key, tail)
    ensures stem == text + stem' && x == WithParam(stem', key, tail) && x != [] && NoStar(WithParam(stem', key, []))
  {
    var all := text + x;
    assert all[|stem|] == COLON;
    assert forall k :: 0 <= k < |text| ==> all[k] == text[k];
    stem' := stem[|text|..];
    assert stem == text + stem' by { assert text == all[..|text|] == stem[..|text|]; }
    assert x == all[|text|..] == WithParam(stem', key, tail);
    assert WithParam(stem', key, [])[0] == x[0];
  }

  lemma RestBehind(text: bytes, stem: bytes, key: bytes, p: bytes) returns (rest: bytes)
    requires Literal(text) && Match(WithParam(text + stem, key, []), p).Some? && NoStar(WithParam(stem, key, []))
    ensures p == text + rest && rest != [] && Match(WithParam(stem, key, []), rest).Some?
  {
    var q := WithParam(stem, key, []);
    assert WithParam(text + stem, key, []) == text + q;
    MatchLiteral(text, q, p);
    rest := p[|text|..];
    if rest == [] { MatchNothingLeft(q); }
  }

  lemma SameName(own: bytes, y: bytes, key: bytes, name: bytes)
    requires ValidName(own) && ValidName(key) && AfterParam(y)
    requires [COLON] + own + y == WithParam([], key, [SLASH, STAR] + name)
    ensures y == [SLASH, STAR] + name && y != []
  {
    var tail := [SLASH, STAR] + name;
    var all := [COLON] + own + y;
    assert all == [COLON] + key + tail;
    ParamSegment(own, y);
    ParamSegment(key, tail);
    assert y == all[1 + |own|..] && tail == all[1 + |key|..];
  }

  lemma LastSegment(key: bytes, rest: bytes)
    requires ValidName(key) && rest != [] && Match(WithParam([], key, []), rest).Some?
    ensures SegmentEnd(rest) == |rest|
  {
    assert WithParam([], key, []) == [COLON] + key + [];
    MatchParam(key, [], rest);
    MatchedNothing(rest[SegmentEnd(rest)..]);
  }

  lemma EmptyBox(n: Tree, name: bytes, g: Chain)
    requires Shape(n) && n.nType == Static && Registered(n, [SLASH, STAR] + name, g)
    ensures n.path == [] && n.indices == [SLASH]
  {
    hide Registered;
    var r := [SLASH, STAR] + name;
    var x := RouteCases(n, r, g);
    StarSplits(n.path, x, name);
  }

  lemma StarSplits(text: bytes, x: bytes, name: bytes)
    requires text + x == [SLASH, STAR] + name && Literal(text) && NoStar(x)
    ensures text == []
  {
    DropWithin(text, x, |text|);
    assert (text + x)[1] == STAR;
  }

  lemma StemBehindParam(own: bytes, y: bytes, stem: bytes, key: bytes, tail: bytes, rest: bytes) returns (stem': bytes)
    requires ValidName(own) && AfterParam(y) && [COLON] + own + y == WithParam(stem, key, tail) && stem != []
    requires rest != [] && Match(WithParam(stem, key, []), rest).Some?
    ensures y != [] && y == WithParam(stem', key, tail) && SegmentEnd(rest) < |rest|
    ensures Match(WithParam(stem', key, []), rest[SegmentEnd(rest)..]).Some?
  {
    hide Match, SegmentEnd;
    var all := [COLON] + own + y;
    assert all[|stem|] == COLON;
    assert forall k :: 1 <= k <= |own| ==> all[k] == own[k - 1];
    stem' := stem[1 + |own|..];
    assert stem == all[..|stem|];
    assert stem == [COLON] + own + stem';
    assert y == all[1 + |own|..] == WithParam(stem', key, tail);
    var q := WithParam(stem', key, []);
    assert q[0] == y[0];
    assert WithParam(stem, key, []) == [COLON] + own + q;
    MatchParam(own, q, rest);
    if SegmentEnd(rest) == |rest| {
      assert rest[SegmentEnd(rest)..] == [];
      MatchNothingLeft(q);
    }
  }

  lemma FirstByte(stem: bytes, key: bytes, tail: bytes, rest: bytes)
    requires !IsWild(WithParam(stem, key, tail)[0]) && Match(WithParam(stem, key, []), rest).Some?
    ensures stem != [] && rest != [] && rest[0] == WithParam(stem, key, tail)[0]
  {
    assert WithParam(stem, key, [])[0] == WithParam(stem, key, tail)[0];
  }

  lemma NotBoundary(c: Tree, stem: bytes, key: bytes, tail: bytes, g: Chain)
    requires Shape(c) && Registered(c, WithParam(stem, key, tail), g) && stem != []
    ensures c.nType != CatchAll
  {
    hide Registered, IsLeaf, Shape, StartsCatchAll;
    var r := WithParam(stem, key, tail);
    assert r[|stem|] == COLON;
    if c.nType == CatchAll {
      BoundaryRoute(c, r, g);
      LeafText(c.children[0], |stem|);
    }
  }

  lemma LeafText(leaf: Tree, k: nat)
    requires IsLeaf(leaf) && k < |leaf.path|
    ensures leaf.path[k] != COLON
  {}
}
