/** The trailing-slash hint and the redirects it leads to. */
module TreeRedirect {
  import opened Bytes
  import opened Wrappers
  import opened Patterns
  import opened PatternLemmas
  import opened RadixTree
  import opened TreeShape
  import opened TreeInsert
  import opened TreeLookup

  predicate EndsInSlash(p: bytes) { p != [] && p[|p| - 1] == SLASH }

  lemma SegmentEndAppend(s: bytes)
    ensures SegmentEnd(s) < |s| ==> SegmentEnd(s + [SLASH]) == SegmentEnd(s)
    ensures SegmentEnd(s) == |s| ==> SegmentEnd(s + [SLASH]) == |s|
  {
    SegmentEndUnique(s + [SLASH], SegmentEnd(s));
  }

  /** A hint for a path without a trailing slash is right: the path with the slash has handlers. */
  lemma {:induction false} AddingHintIsRight(t: Tree, p: bytes, ps: seq<Capture>)
    requires Shape(t) && t.nType != Param && (t.nType == CatchAll ==> p != [] && p[0] == SLASH)
    requires !EndsInSlash(p)
    requires var r := Get(t, p, ps); r.Found? && r.handlers.None? && r.tsr
    ensures var r := Get(t, p + [SLASH], ps); r.Found? && r.handlers.Some?
    decreases t, 1
  {
    if |p| > |t.path| && t.path <= p && t.nType != CatchAll {
      var rest := p[|t.path|..];
      assert p == t.path + rest && p + [SLASH] == t.path + (rest + [SLASH]);
      if t.wildChild { HintBehindParam(t, rest, ps); } else { HintBelow(t, rest, ps); }
    } else if p == t.path {
      HintAtEnd(t, ps);
    } else if t.nType != CatchAll {
      assert t.path == p + [SLASH];
    }
  }

  /** The hint where the path ends at a node without handlers. */
  lemma HintAtEnd(t: Tree, ps: seq<Capture>)
    requires Shape(t) && (t.nType == Static || t.nType == Root) && !EndsInSlash(t.path)
    requires t.handlers.None? && ExactHint(t, t.path) == Some(true)
    ensures var r := Get(t, t.path + [SLASH], ps); r.Found? && r.handlers.Some?
  {
    var i := IndexOf(t.indices, SLASH);
    ChildShape(t, i);
    var n := t.children[i];
    assert (t.path + [SLASH])[|t.path|..] == [SLASH];
    assert t.path <= t.path + [SLASH];
    if n.nType != CatchAll { assert n.path == [SLASH]; }
  }

  /** An empty static node leads to a catch-all, which serves the bare slash. */
  lemma CatchAllServes(n: Tree, ps: seq<Capture>)
    requires Shape(n) && n.nType == Static && n.path == []
    ensures var r := Get(n, [SLASH], ps); r.Found? && r.handlers.Some?
  {
    ChildShape(n, 0);
    assert [SLASH][0..] == [SLASH];
  }

  /** The hint found below the child selected by the next byte. */
  lemma {:induction false} HintBelow(t: Tree, rest: bytes, ps: seq<Capture>)
    requires Shape(t) && (t.nType == Static || t.nType == Root) && !t.wildChild && rest != [] && !EndsInSlash(rest)
    requires var r := Get(t, t.path + rest, ps); r.Found? && r.handlers.None? && r.tsr
    ensures var r := Get(t, t.path + (rest + [SLASH]), ps); r.Found? && r.handlers.Some?
    decreases t, 0
  {
    var rest' := rest + [SLASH];
    assert (t.path + rest)[|t.path|..] == rest && (t.path + rest')[|t.path|..] == rest';
    var i := IndexOf(t.indices, rest[0]);
    ChildShape(t, i);
    AddingHintIsRight(t.children[i], rest, ps);
  }

  /** The hint found behind a parameter child. */
  lemma {:induction false} HintBehindParam(t: Tree, rest: bytes, ps: seq<Capture>)
    requires Shape(t) && (t.nType == Static || t.nType == Root) && t.wildChild && rest != [] && !EndsInSlash(rest)
    requires var r := Get(t, t.path + rest, ps); r.Found? && r.handlers.None? && r.tsr
    ensures var r := Get(t, t.path + (rest + [SLASH]), ps); r.Found? && r.handlers.Some?
    decreases t, 0
  {
    hide Get, Registered, Match, SegmentEnd;
    var w, end := t.children[0], SegmentEnd(rest);
    var captured := ps + [Capture(w.paramName, rest[..end])];
    BehindParamStep(t, rest, ps);
    var n := w.children[0];
    assert SelectedBy(n, SLASH);
    if end < |rest| {
      assert rest[end..][|rest| - end - 1] == rest[|rest| - 1];
      AddingHintIsRight(n, rest[end..], captured);
    } else if n.path == [] {
      CatchAllServes(n, captured);
    } else {
      SlashServes(n, captured);
    }
  }

  lemma SlashServes(n: Tree, ps: seq<Capture>)
    requires n.path == [SLASH] && n.handlers.Some?
    ensures var r := Get(n, [SLASH], ps); r.Found? && r.handlers.Some?
  {}

  /** What the lookup does behind a parameter, for a path and for the path with a slash added. */
  lemma BehindParamStep(t: Tree, rest: bytes, ps: seq<Capture>)
    requires Shape(t) && (t.nType == Static || t.nType == Root) && t.wildChild && rest != [] && !EndsInSlash(rest)
    requires var r := Get(t, t.path + rest, ps); r.Found? && r.handlers.None? && r.tsr
    ensures var w, end := t.children[0], SegmentEnd(rest);
      var captured := ps + [Capture(w.paramName, rest[..end])];
      && w.children != []
      && Get(t, t.path + (rest + [SLASH]), ps) == Get(w.children[0], rest[end..] + [SLASH], captured)
      && if end < |rest| then Get(t, t.path + rest, ps) == Get(w.children[0], rest[end..], captured)
         else rest[end..] + [SLASH] == [SLASH] &&
              ((w.children[0].path == [SLASH] && w.children[0].handlers.Some?) || w.children[0].path == [])
  {
    hide Get, Registered;
    ChildShape(t, 0);
    GetBehindParam(t, rest, ps);
    var rest' := rest + [SLASH];
    GetBehindParam(t, rest', ps);
    var w, end := t.children[0], SegmentEnd(rest);
    SegmentEndAppend(rest);
    assert rest'[..end] == rest[..end] && rest'[end..] == rest[end..] + [SLASH];
    if w.children != [] { ChildShape(w, 0); }
  }

  /** A lookup that meets the parameter child of `t`. */
  lemma GetBehindParam(t: Tree, rest: bytes, ps: seq<Capture>)
    requires t.wildChild && |t.children| == 1 && t.children[0].nType == Param && rest != []
    ensures var w, end := t.children[0], SegmentEnd(rest);
      var captured := ps + [Capture(w.paramName, rest[..end])];
      Get(t, t.path + rest, ps) ==
        if end < |rest| then
          if w.children != [] then Get(w.children[0], rest[end..], captured) else Found(None, captured, |rest| == end + 1)
        else if w.handlers.Some? then Found(w.handlers, captured, false)
        else Found(None, captured, |w.children| == 1 &&
          ((w.children[0].path == [SLASH] && w.children[0].handlers.Some?) || (w.children[0].path == [] && w.children[0].indices == [SLASH])))
  {
    assert (t.path + rest)[|t.path|..] == rest && (t.path + rest)[..|t.path|] == t.path;
  }

  // ---- when the hint is given ----

  /** Pattern `q` ends in a slash of its own and matches the path with a slash added. */
  predicate ServesWithSlash(q: bytes, p: bytes) { EndsInSlash(q) && Match(q, p + [SLASH]).Some? }

  /** The pattern without its last byte. */
  function Unslashed(q: bytes): bytes
    requires q != []
  {
    q[..|q| - 1]
  }

  /** The routes of a catch-all do not end in a slash. */
  lemma CatchAllEndsInName(t: Tree, q: bytes, g: Chain)
    requires Shape(t) && t.nType == CatchAll && Registered(t, q, g)
    ensures !EndsInSlash(q)
  {
    var leaf := t.children[0];
    var r := RouteCases(t, q, g);
    OnlyLeaf(leaf, leaf.path, leaf.handlers.value);
    assert q == leaf.path;
  }

  /** When a route with a slash of its own matches the path with the slash, the path, which is not served,
      gets the hint exactly when the route's pattern without its slash matches it. */
  lemma {:induction false} AddingHintExactlyWhen(t: Tree, p: bytes, ps: seq<Capture>, q: bytes, g: Chain)
    requires Shape(t) && (t.nType == Static || t.nType == Root) && !EndsInSlash(p)
    requires Registered(t, q, g) && ServesWithSlash(q, p)
    requires var r := Get(t, p, ps); r.Found? && r.handlers.None?
    ensures Get(t, p, ps).tsr <==> Match(Unslashed(q), p).Some?
    decreases t, 1
  {
    hide Match, Registered, Shape, Get, ServesWithSlash, Unslashed;
    var r := RouteCases(t, q, g);
    MatchRest(t, r, p);
    var after := (p + [SLASH])[|t.path|..];
    if |t.path| == |p| + 1 {
      if r != [] { MatchNothingLeft(r); }
      assert q == t.path;
      GivenInside(t, p, ps);
    } else {
      var rest := p[|t.path|..];
      assert after == rest + [SLASH] && p == t.path + rest;
      SlashBelow(t, r, rest);
      if rest == [] {
        assert p == t.path;
        GivenAtEnd(t, ps, r, g);
      } else if t.wildChild {
        GivenBehindParam(t, rest, ps, r, g);
      } else {
        GivenBelow(t, rest, ps, r, g);
      }
    }
  }

  /** The node's text is the path with the slash. */
  lemma GivenInside(t: Tree, p: bytes, ps: seq<Capture>)
    requires Shape(t) && (t.nType == Static || t.nType == Root) && t.path == p + [SLASH] && t.handlers.Some?
    ensures var l := Get(t, p, ps); l.Found? && l.tsr
    ensures Match(Unslashed(t.path), p).Some?
  {
    assert Literal(p) by { assert forall i :: 0 <= i < |p| ==> p[i] == t.path[i]; }
    MatchLiteral(p, [], p);
    assert Unslashed(t.path) == p == p + [] && p[|p|..] == [];
  }

  lemma MatchRest(t: Tree, r: bytes, p: bytes)
    requires Shape(t) && (t.nType == Static || t.nType == Root) && Continues(t, r) && ServesWithSlash(t.path + r, p)
    ensures t.path <= p + [SLASH] && Match(r, (p + [SLASH])[|t.path|..]).Some?
  {
    MatchLiteral(t.path, r, p + [SLASH]);
  }

  lemma SlashBelow(t: Tree, r: bytes, rest: bytes)
    requires Shape(t) && (t.nType == Static || t.nType == Root) && Continues(t, r)
    requires ServesWithSlash(t.path + r, t.path + rest)
    ensures r != [] && ServesWithSlash(r, rest)
    ensures Match(Unslashed(t.path + r), t.path + rest).Some? <==> Match(Unslashed(r), rest).Some?
  {
    hide Match;
    assert t.path + rest + [SLASH] == t.path + (rest + [SLASH]);
    MatchLiteral(t.path, r, t.path + (rest + [SLASH]));
    assert (t.path + (rest + [SLASH]))[|t.path|..] == rest + [SLASH];
    if r == [] { MatchNothingLater(rest); }
    assert Unslashed(t.path + r) == t.path + Unslashed(r);
    MatchLiteral(t.path, Unslashed(r), t.path + rest);
    assert (t.path + rest)[|t.path|..] == rest;
  }

  lemma MatchNothingLater(rest: bytes)
    ensures Match([], rest + [SLASH]).None?
  {}

  /** The path ends at the node. */
  lemma GivenAtEnd(t: Tree, ps: seq<Capture>, r: bytes, g: Chain)
    requires Shape(t) && (t.nType == Static || t.nType == Root) && !EndsInSlash(t.path)
    requires r != [] && InSome(t.children, r, g) && ServesWithSlash(r, [])
    requires var l := Get(t, t.path, ps); l.Found? && l.handlers.None?
    ensures Get(t, t.path, ps).tsr <==> Match(Unslashed(r), []).Some?
  {
    hide Get, Match, Registered, InSome, Shape, ExactHint;
    GetAtEnd(t, ps);
    RoutePlace(t, r, g);
    if t.wildChild {
      assert r != [COLON];
      MatchNothingLeft(Unslashed(r));
      NoHintAtWild(t);
    } else {
      SlashMatchesSlash(r);
      var k := IndexOf(t.indices, SLASH);
      ChildShape(t, k);
      OnlySlash(t.children[k], r, g);
      HintAtSlash(t, k);
      MatchesEmpty();
      assert Unslashed(r) == [];
    }
  }

  lemma GetAtEnd(t: Tree, ps: seq<Capture>)
    requires var l := Get(t, t.path, ps); l.Found? && l.handlers.None?
    ensures ExactHint(t, t.path) == Some(Get(t, t.path, ps).tsr)
  {
    hide ExactHint;
  }

  lemma NoHintAtWild(t: Tree)
    requires Shape(t) && (t.nType == Static || t.nType == Root) && t.wildChild && !EndsInSlash(t.path)
    ensures ExactHint(t, t.path) == Some(false)
  {}

  lemma HintAtSlash(t: Tree, k: nat)
    requires k == IndexOf(t.indices, SLASH) < |t.indices| && k < |t.children|
    requires t.children[k].path == [SLASH] && t.children[k].handlers.Some?
    ensures ExactHint(t, t.path) == Some(true)
  {}

  lemma SlashMatchesSlash(r: bytes)
    requires r != [] && !IsWild(r[0]) && ServesWithSlash(r, [])
    ensures r[0] == SLASH
  {
    assert [] + [SLASH] == [SLASH];
  }

  lemma MatchesEmpty()
    ensures Match([], []).Some?
  {}

  /** A child with a route that is the slash alone. */
  lemma OnlySlash(n: Tree, r: bytes, g: Chain)
    requires SelectedBy(n, SLASH) && Registered(n, r, g) && ServesWithSlash(r, [])
    ensures n.path == [SLASH] == r && n.handlers.Some? && n.nType == Static
  {
    hide Match, Registered;
    assert [] + [SLASH] == [SLASH];
    if n.nType == CatchAll {
      CatchAllEndsInName(n, r, g);
    } else {
      var x := RouteCases(n, r, g);
      MatchRest(n, x, []);
      if n.path == [] {
        NothingAtBoundary(n, x, g);
      } else {
        assert ([] + [SLASH])[|n.path|..] == [];
        if x != [] { MatchNothingLeft(x); }
      }
    }
  }

  lemma NothingAtBoundary(n: Tree, x: bytes, g: Chain)
    requires Shape(n) && n.nType == Static && n.path == [] && InSome(n.children, x, g)
    ensures !EndsInSlash(x)
  {
    var i :| 0 <= i < |n.children| && Registered(n.children[i], x, g);
    ChildShape(n, i);
    CatchAllEndsInName(n.children[i], x, g);
  }

  /** The path goes on below the child selected by its next byte. */
  lemma {:induction false} GivenBelow(t: Tree, rest: bytes, ps: seq<Capture>, r: bytes, g: Chain)
    requires Shape(t) && (t.nType == Static || t.nType == Root) && !t.wildChild && rest != [] && !EndsInSlash(rest)
    requires r != [] && InSome(t.children, r, g) && ServesWithSlash(r, rest)
    requires var l := Get(t, t.path + rest, ps); l.Found? && l.handlers.None?
    ensures Get(t, t.path + rest, ps).tsr <==> Match(Unslashed(r), rest).Some?
    decreases t, 0
  {
    var k :| 0 <= k < |t.children| && Registered(t.children[k], r, g);
    ChildShape(t, k);
    RegisteredStart(t.children[k], r, g);
    assert r[0] == t.indices[k] != COLON;
    assert (t.path + rest)[|t.path|..] == rest;
    if StartsCatchAll(r) { assert (rest + [SLASH])[0] == SLASH; }
    assert r[0] == rest[0] && IndexOf(t.indices, rest[0]) == k;
    if t.children[k].nType == CatchAll {
      CatchAllEndsInName(t.children[k], r, g);
    } else {
      AddingHintExactlyWhen(t.children[k], rest, ps, r, g);
    }
  }

  /** The path goes on through the parameter child. */
  lemma {:induction false} GivenBehindParam(t: Tree, rest: bytes, ps: seq<Capture>, r: bytes, g: Chain)
    requires Shape(t) && (t.nType == Static || t.nType == Root) && t.wildChild && rest != [] && !EndsInSlash(rest)
    requires r != [] && InSome(t.children, r, g) && ServesWithSlash(r, rest)
    requires var l := Get(t, t.path + rest, ps); l.Found? && l.handlers.None?
    ensures Get(t, t.path + rest, ps).tsr <==> Match(Unslashed(r), rest).Some?
    decreases t, 0
  {
    hide Match, Registered, Get, ServesWithSlash;
    var w, end := t.children[0], SegmentEnd(rest);
    ChildShape(t, 0);
    var x := SlashBehindParam(t, rest, r, g);
    GetBehindParam(t, rest, ps);
    var n := w.children[0];
    ChildShape(w, 0);
    var captured := ps + [Capture(w.paramName, rest[..end])];
    if end < |rest| {
      assert rest[end..][|rest| - end - 1] == rest[|rest| - 1];
      AddingHintExactlyWhen(n, rest[end..], captured, x, g);
    } else {
      assert rest[end..] == [];
      OnlySlash(n, x, g);
      NothingMatchesNothing();
      assert Unslashed(x) == [];
    }
  }

  lemma NothingMatchesNothing()
    ensures Match([], []).Some?
  {}

  /** The part of the route behind the parameter. */
  lemma SlashBehindParam(t: Tree, rest: bytes, r: bytes, g: Chain) returns (x: bytes)
    requires Shape(t) && (t.nType == Static || t.nType == Root) && t.wildChild && rest != [] && !EndsInSlash(rest)
    requires r != [] && InSome(t.children, r, g) && ServesWithSlash(r, rest)
    ensures var w, end := t.children[0], SegmentEnd(rest);
      && |w.children| == 1 && Registered(w.children[0], x, g) && ServesWithSlash(x, rest[end..])
      && (Match(Unslashed(r), rest).Some? <==> Match(Unslashed(x), rest[end..]).Some?)
  {
    hide Match, ServesWithSlash, Unslashed;
    var w, end := t.children[0], SegmentEnd(rest);
    ChildShape(t, 0);
    assert Registered(w, r, g);
    x := RouteCases(w, r, g);
    SegmentEndAppend(rest);
    assert (rest + [SLASH])[end..] == rest[end..] + [SLASH];
    SlashAfterName(w.paramName, x, rest);
    ChildShape(w, 0);
  }

  lemma SlashAfterName(name: bytes, x: bytes, rest: bytes)
    requires ValidName(name) && AfterParam(x) && rest != [] && SegmentEnd(rest + [SLASH]) == SegmentEnd(rest)
    requires (rest + [SLASH])[SegmentEnd(rest)..] == rest[SegmentEnd(rest)..] + [SLASH]
    requires ServesWithSlash([COLON] + name + x, rest)
    ensures x != [] && ServesWithSlash(x, rest[SegmentEnd(rest)..])
    ensures Match(Unslashed([COLON] + name + x), rest).Some? <==> Match(Unslashed(x), rest[SegmentEnd(rest)..]).Some?
  {
    hide Match;
    MatchParam(name, x, rest + [SLASH]);
    var r := [COLON] + name + x;
    if x == [] { NameEndsPlain(name); }
    assert x != [] ==> r[|r| - 1] == x[|x| - 1];
    assert Unslashed(r) == [COLON] + name + Unslashed(x);
    MatchParam(name, Unslashed(x), rest);
  }

  lemma NameEndsPlain(name: bytes)
    requires ValidName(name)
    ensures !EndsInSlash([COLON] + name + [])
  {
    var r := [COLON] + name + [];
    assert r[|r| - 1] == name[|name| - 1];
  }

  // ---- redirects ----

  /** The path with its trailing slash removed, or with one added. */
  function Toggle(p: bytes): bytes { if |p| > 1 && EndsInSlash(p) then p[..|p| - 1] else p + [SLASH] }

  /** Where the router redirects a request for `p`, if it does. */
  function Redirect(t: Tree, p: bytes): Option<bytes> {
    var r := Get(t, p, []);
    if r.Found? && r.handlers.None? && p != [SLASH] && r.tsr then
      Some(Toggle(p))
    else None
  }

  /** After a redirect that adds a slash the target is served; after one that removes a slash only
      removals can follow. */
  lemma NoWayBack(t: Tree, p: bytes)
    requires Shape(t) && t.nType == Root && Redirect(t, p).Some?
    ensures var p' := Redirect(t, p).value;
      && (|p'| > |p| ==> Get(t, p', []).Found? && Get(t, p', []).handlers.Some? && Redirect(t, p').None?)
      && (|p'| < |p| ==> match Redirect(t, p') case None => true case Some(p'') => |p''| < |p'|)
  {
    var p' := Redirect(t, p).value;
    if !(|p| > 1 && EndsInSlash(p)) {
      assert !EndsInSlash(p);
      AddingHintIsRight(t, p, []);
    } else {
      assert p' + [SLASH] == p;
      if Redirect(t, p').Some? && !EndsInSlash(p') { AddingHintIsRight(t, p', []); }
    }
  }

  /** A run of redirects, each followed by the client. */
  ghost predicate RedirectRun(t: Tree, run: seq<bytes>) {
    run != [] && forall k :: 0 <= k < |run| - 1 ==> Redirect(t, run[k]) == Some(run[k + 1])
  }

  /** Redirects always end: a run is at most one longer than the path it starts from, or it is the
      single step that adds a slash. */
  lemma {:induction false} RedirectsEnd(t: Tree, run: seq<bytes>)
    requires Shape(t) && t.nType == Root && RedirectRun(t, run)
    ensures |run| <= |run[0]| + 2
    ensures |run| >= 2 && |run[1]| > |run[0]| ==> |run| == 2
    decreases |run|
  {
    if |run| >= 2 {
      assert Redirect(t, run[0]) == Some(run[1]);
      NoWayBack(t, run[0]);
      var tail := run[1..];
      if |run| >= 3 {
        assert Redirect(t, run[1]) == Some(run[2]);
        forall k | 0 <= k < |tail| - 1 ensures Redirect(t, tail[k]) == Some(tail[k + 1]) {
          assert Redirect(t, run[k + 1]) == Some(run[k + 2]);
        }
        RedirectsEnd(t, tail);
      }
    }
  }
}
