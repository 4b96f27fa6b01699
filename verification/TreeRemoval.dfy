/** The hint for removing a trailing slash: where no route goes on behind the path, it is given exactly
    when the path is served. */
module TreeRemoval {
  import opened Bytes
  import opened Wrappers
  import opened Patterns
  import opened PatternLemmas
  import opened RadixTree
  import opened TreeShape
  import opened TreeInsert
  import opened TreeLookup
  import opened TreeRedirect

  /** Some route of `t` matches a longer path that starts with `q`. */
  ghost predicate GoesOn(t: Tree, q: bytes) {
    exists r, g, x :: Registered(t, r, g) && MatchesLonger(r, q, x)
  }

  predicate MatchesLonger(r: bytes, q: bytes, x: bytes) { x != [] && Match(r, q + x).Some? }

  /** Behind a node that starts with the path, or that is the path and has children, routes go on. */
  lemma RoutesBehind(t: Tree, q: bytes)
    requires Shape(t) && (t.nType == Static || t.nType == Root) && q <= t.path && (q == t.path ==> t.children != [])
    ensures GoesOn(t, q)
  {
    hide Match, Registered, Shape, Instance;
    var r, g := SomeRoute(t, q == t.path);
    LiteralText(t);
    var x := t.path[|q|..] + Instance(r, 120);
    InstanceMatches(r, 120);
    assert q + x == t.path + Instance(r, 120);
    MatchLiteral(t.path, r, t.path + Instance(r, 120));
    assert (t.path + Instance(r, 120))[|t.path|..] == Instance(r, 120);
    assert MatchesLonger(t.path + r, q, x);
  }

  lemma LiteralText(t: Tree)
    requires Shape(t) && (t.nType == Static || t.nType == Root)
    ensures Literal(t.path)
  {}

  /** Behind the empty path every tree goes on. */
  lemma EmptyGoesOn(t: Tree)
    requires Shape(t) && (t.nType == Static || t.nType == Root)
    ensures GoesOn(t, [])
  {
    RoutesBehind(t, []);
  }

  /** A route of the node, below it when there are children and one of them is asked for. */
  lemma SomeRoute(t: Tree, below: bool) returns (r: bytes, g: Chain)
    requires Shape(t) && (t.nType == Static || t.nType == Root) && (below ==> t.children != [])
    ensures Registered(t, t.path + r, g) && NoStar(r) && (below ==> r != [])
  {
    var q;
    if below {
      ChildShape(t, 0);
      r, g := SomeRegistered(t.children[0]);
      RegisteredStart(t.children[0], r, g);
      RegisteredBelow(t, 0, r, g);
    } else {
      q, g := SomeRegistered(t);
      r := RouteCases(t, q, g);
    }
  }

  // ---- what goes on below goes on above ----

  lemma BelowStatic(t: Tree, i: nat, rest: bytes)
    requires Shape(t) && (t.nType == Static || t.nType == Root) && i < |t.children| && GoesOn(t.children[i], rest)
    ensures GoesOn(t, t.path + rest)
  {
    var r, g, x :| Registered(t.children[i], r, g) && MatchesLonger(r, rest, x);
    RegisteredBelow(t, i, r, g);
    ChildShape(t, i);
    RegisteredStart(t.children[i], r, g);
    assert t.path + rest + x == t.path + (rest + x);
    MatchLiteral(t.path, r, t.path + (rest + x));
    assert (t.path + (rest + x))[|t.path|..] == rest + x;
    assert MatchesLonger(t.path + r, t.path + rest, x);
  }

  lemma BelowParam(w: Tree, rest: bytes)
    requires Shape(w) && w.nType == Param && rest != [] && w.children != []
    requires GoesOn(w.children[0], rest[SegmentEnd(rest)..])
    ensures GoesOn(w, rest)
  {
    hide Registered, Shape, SegmentEnd, MatchesLonger;
    var end, n := SegmentEnd(rest), w.children[0];
    ParamAbove(w);
    var r, g, x :| Registered(n, r, g) && MatchesLonger(r, rest[end..], x);
    RegisteredBelow(w, 0, r, g);
    RegisteredStart(n, r, g);
    LongerBehindParam(w.paramName, r, rest, x);
  }

  lemma LongerBehindParam(name: bytes, r: bytes, rest: bytes, x: bytes)
    requires ValidName(name) && r != [] && r[0] == SLASH && rest != [] && MatchesLonger(r, rest[SegmentEnd(rest)..], x)
    ensures MatchesLonger([COLON] + name + r, rest, x)
  {
    hide Match, SegmentEnd;
    var end := SegmentEnd(rest);
    StartsWithSlash(r, rest[end..] + x);
    SegmentEndUnique(rest + x, end);
    assert (rest + x)[end..] == rest[end..] + x;
    MatchParam(name, r, rest + x);
  }

  lemma ParamAbove(w: Tree)
    requires Shape(w) && w.nType == Param && w.children != []
    ensures w.path == [COLON] + w.paramName && ValidName(w.paramName)
    ensures var n := w.children[0]; Shape(n) && Head(n) == SLASH && n.nType == Static
  {
    ChildShape(w, 0);
  }

  lemma StartsWithSlash(r: bytes, p: bytes)
    requires r != [] && r[0] == SLASH && Match(r, p).Some?
    ensures p != [] && p[0] == SLASH
  {}

  // ---- the hint ----

  /** No route matches the path with the slash when none goes on behind the path. */
  lemma SlashIsNotServed(t: Tree, q: bytes, ps: seq<Capture>)
    requires Shape(t) && (t.nType == Static || t.nType == Root) && !GoesOn(t, q)
    ensures Get(t, q, ps).Found?
    ensures var l := Get(t, q + [SLASH], ps); l.Found? && l.handlers.None?
  {
    hide Get, Match, Registered;
    GetCorrect(t, q, ps);
    GetCorrect(t, q + [SLASH], ps);
    if Get(t, q + [SLASH], ps).handlers.Some? {
      var r, g :| Registered(t, r, g) && Match(r, q + [SLASH]).Some?;
      SlashGoesOn(t, q, r, g);
    }
  }

  lemma SlashGoesOn(t: Tree, q: bytes, r: bytes, g: Chain)
    requires Registered(t, r, g) && Match(r, q + [SLASH]).Some?
    ensures GoesOn(t, q)
  {
    assert MatchesLonger(r, q, [SLASH]);
  }

  /** When no route goes on behind a path, the path with a slash gets the hint exactly when the path itself
      is served. */
  lemma {:induction false} RemovingHintExactlyWhen(t: Tree, q: bytes, ps: seq<Capture>)
    requires Shape(t) && (t.nType == Static || t.nType == Root) && !GoesOn(t, q)
    ensures var r, s := Get(t, q, ps), Get(t, q + [SLASH], ps);
      r.Found? && s.Found? && s.handlers.None? && (s.tsr <==> r.handlers.Some?)
    decreases t, 1
  {
    hide Get, GoesOn, Shape;
    SlashIsNotServed(t, q, ps);
    if q <= t.path && q != t.path {
      RoutesBehind(t, q);
    } else if q == t.path {
      if t.children != [] { RoutesBehind(t, q); }
      ServedAtEnd(t, ps);
    } else if t.path <= q {
      var rest := q[|t.path|..];
      assert q == t.path + rest && q + [SLASH] == t.path + (rest + [SLASH]);
      if t.wildChild { ExactBehindParam(t, rest, ps); } else { ExactBelow(t, rest, ps); }
    } else {
      NoHintAside(t, q, ps);
    }
  }

  lemma ServedAtEnd(t: Tree, ps: seq<Capture>)
    requires Shape(t) && (t.nType == Static || t.nType == Root) && t.children == []
    ensures Get(t, t.path, ps) == Found(t.handlers, ps, false) && t.handlers.Some?
    ensures Get(t, t.path + [SLASH], ps) == Found(None, ps, true)
  {
    assert (t.path + [SLASH])[|t.path|..] == [SLASH];
  }

  /** A node with other text neither serves the path nor gives a hint for the longer one. */
  lemma NoHintAside(t: Tree, q: bytes, ps: seq<Capture>)
    requires !(q <= t.path) && !(t.path <= q)
    ensures var r := Get(t, q, ps); r.Found? ==> r.handlers.None?
    ensures var r := Get(t, q + [SLASH], ps); r.Found? && r.handlers.None? ==> !r.tsr
  {
    var p := q + [SLASH];
    if |p| > |t.path| {
      assert p[..|t.path|] == q[..|t.path|];
    } else {
      assert p[..|q|] == q && (p <= t.path ==> q <= t.path);
    }
  }

  lemma {:induction false} ExactBelow(t: Tree, rest: bytes, ps: seq<Capture>)
    requires Shape(t) && (t.nType == Static || t.nType == Root) && !t.wildChild && rest != [] && !GoesOn(t, t.path + rest)
    requires var s := Get(t, t.path + (rest + [SLASH]), ps); s.Found? && s.handlers.None?
    ensures var r, s := Get(t, t.path + rest, ps), Get(t, t.path + (rest + [SLASH]), ps);
      r.Found? && (s.tsr <==> r.handlers.Some?)
    decreases t, 0
  {
    var rest' := rest + [SLASH];
    assert (t.path + rest)[|t.path|..] == rest && (t.path + rest')[|t.path|..] == rest';
    assert rest'[0] == rest[0] && |rest'| >= 2;
    var i := IndexOf(t.indices, rest[0]);
    if i < |t.indices| {
      ChildShape(t, i);
      var n := t.children[i];
      if GoesOn(n, rest) { BelowStatic(t, i, rest); }
      assert n.nType != CatchAll;
      RemovingHintExactlyWhen(n, rest, ps);
    }
  }

  lemma {:induction false} ExactBehindParam(t: Tree, rest: bytes, ps: seq<Capture>)
    requires Shape(t) && (t.nType == Static || t.nType == Root) && t.wildChild && rest != [] && !GoesOn(t, t.path + rest)
    requires var s := Get(t, t.path + (rest + [SLASH]), ps); s.Found? && s.handlers.None?
    ensures var r, s := Get(t, t.path + rest, ps), Get(t, t.path + (rest + [SLASH]), ps);
      r.Found? && (s.tsr <==> r.handlers.Some?)
    decreases t, 0
  {
    hide Get, GoesOn, Registered;
    var w, end, rest' := t.children[0], SegmentEnd(rest), rest + [SLASH];
    ChildShape(t, 0);
    GetBehindParam(t, rest, ps);
    GetBehindParam(t, rest', ps);
    SegmentEndAppend(rest);
    assert rest'[..end] == rest[..end] && rest'[end..] == rest[end..] + [SLASH];
    if w.children != [] {
      var n := w.children[0];
      ChildShape(w, 0);
      if GoesOn(n, rest[end..]) {
        BelowParam(w, rest);
        BelowStatic(t, 0, rest);
      }
      if end == |rest| {
        assert rest[end..] == [];
        RoutesBehind(n, []);
      } else {
        RemovingHintExactlyWhen(n, rest[end..], ps + [Capture(w.paramName, rest[..end])]);
      }
    }
  }
}
