/** Lookup: the walk finds exactly the registered route whose pattern matches the path. */
module TreeLookup {
  import opened Bytes
  import opened Wrappers
  import opened Patterns
  import opened PatternLemmas
  import opened RadixTree
  import opened TreeShape
  import opened TreeInsert

  /** `r` answers the lookup of `p` below `t`, `ps` captured so far: every matching route has the
      handlers found and the captures added, and handlers are found only if some route matches. */
  ghost predicate Answers(t: Tree, p: bytes, ps: seq<Capture>, r: Lookup) {
    && r.Found?
    && (forall q, g :: Registered(t, q, g) && Match(q, p).Some? ==>
         r.handlers == Some(g) && r.params == ps + Match(q, p).value)
    && (r.handlers.Some? ==> exists q, g :: Registered(t, q, g) && Match(q, p).Some?)
  }

  /** The same about the routes below a list of children. */
  ghost predicate AnswersIn(cs: seq<Tree>, p: bytes, ps: seq<Capture>, r: Lookup) {
    && r.Found?
    && (forall q, g :: InSome(cs, q, g) && Match(q, p).Some? ==>
         r.handlers == Some(g) && r.params == ps + Match(q, p).value)
    && (r.handlers.Some? ==> exists q, g :: InSome(cs, q, g) && Match(q, p).Some?)
  }

  lemma MatchNothingLeft(q: bytes)
    requires q != []
    ensures Match(q, []) == None
  {
  }

  /** The routes of a static node match what the routes below it match after its literal text. */
  lemma AnswersBelow(t: Tree, rest: bytes, ps: seq<Capture>, r: Lookup)
    requires Shape(t) && (t.nType == Static || t.nType == Root) && rest != []
    requires AnswersIn(t.children, rest, ps, r)
    ensures Answers(t, t.path + rest, ps, r)
  {
    forall q, g | Registered(t, q, g) && Match(q, t.path + rest).Some?
      ensures r.handlers == Some(g) && r.params == ps + Match(q, t.path + rest).value
    {
      var x := RouteCases(t, q, g);
      MatchLiteral(t.path, x, t.path + rest);
    }
    if r.handlers.Some? {
      var x, g :| InSome(t.children, x, g) && Match(x, rest).Some?;
      var i :| 0 <= i < |t.children| && Registered(t.children[i], x, g);
      RegisteredBelow(t, i, x, g);
      var x' := RouteCases(t, t.path + x, g);
      assert x' == x by { assert (t.path + x')[|t.path|..] == x' && (t.path + x)[|t.path|..] == x; }
      MatchLiteral(t.path, x, t.path + rest);
    }
  }

  /** A path that a static node does not start with matches none of its routes. */
  lemma NotThisWay(t: Tree, p: bytes)
    requires Shape(t) && (t.nType == Static || t.nType == Root) && !(t.path <= p)
    ensures forall q, g :: Registered(t, q, g) ==> Match(q, p).None?
  {
    forall q, g | Registered(t, q, g)
      ensures Match(q, p).None?
    {
      var x := RouteCases(t, q, g);
      MatchLiteral(t.path, x, p);
    }
  }

  /** The path ends at a static node. */
  lemma EndsHere(t: Tree, ps: seq<Capture>, tsr: bool)
    requires Shape(t) && (t.nType == Static || t.nType == Root)
    ensures Answers(t, t.path, ps, Found(t.handlers, ps, tsr))
  {
    forall q, g | Registered(t, q, g) && Match(q, t.path).Some?
      ensures t.handlers == Some(g) && ps == ps + Match(q, t.path).value
    {
      var x := RouteCases(t, q, g);
      MatchLiteral(t.path, x, t.path);
      assert t.path[|t.path|..] == [];
      if x != [] { MatchNothingLeft(x); }
      assert ps == ps + [];
    }
    if t.handlers.Some? {
      assert Registered(t, t.path, t.handlers.value);
      MatchLiteral(t.path, [], t.path);
      assert t.path + [] == t.path;
    }
  }

  lemma HintIsSafe(t: Tree, p: bytes)
    requires Shape(t) && t.nType != CatchAll
    ensures ExactHint(t, p).Some?
  {
    var i := IndexOf(t.indices, SLASH);
    if i < |t.indices| { ChildShape(t, i); }
  }

  /** Only the child selected by the next byte holds a matching route. */
  lemma OnlyChildAnswers(t: Tree, i: nat, rest: bytes, ps: seq<Capture>, r: Lookup)
    requires Shape(t) && t.nType != CatchAll && !t.wildChild && rest != []
    requires i <= |t.indices| && (forall k :: 0 <= k < |t.indices| && k != i ==> t.indices[k] != rest[0])
    requires if i < |t.indices| then i < |t.children| && Answers(t.children[i], rest, ps, r) else r.Found? && r.handlers.None?
    ensures AnswersIn(t.children, rest, ps, r)
  {
    forall q, g | InSome(t.children, q, g) && Match(q, rest).Some?
      ensures r.handlers == Some(g) && r.params == ps + Match(q, rest).value
    {
      var k :| 0 <= k < |t.children| && Registered(t.children[k], q, g);
      ChildShape(t, k);
      RegisteredStart(t.children[k], q, g);
      assert q[0] == t.indices[k] && q[0] != COLON;
      assert k == i;
    }
    if r.handlers.Some? {
      var q, g :| Registered(t.children[i], q, g) && Match(q, rest).Some?;
      assert InSome(t.children, q, g);
    }
  }

  /** The routes behind a parameter see the path after the captured segment. */
  lemma ParamAnswers(w: Tree, rest: bytes, ps: seq<Capture>, r: Lookup)
    requires Shape(w) && w.nType == Param && rest != [] && BehindParam(w, rest, ps, r)
    ensures Answers(w, rest, ps, r)
  {
    forall q, g | Registered(w, q, g) && Match(q, rest).Some?
      ensures r.handlers == Some(g) && r.params == ps + Match(q, rest).value
    {
      ParamAnswersOnly(w, rest, ps, r, q, g);
    }
    if r.handlers.Some? {
      ParamFinds(w, rest, ps, r);
    }
  }

  ghost predicate BehindParam(w: Tree, rest: bytes, ps: seq<Capture>, r: Lookup) {
    var end := SegmentEnd(rest);
    var captured := ps + [Capture(w.paramName, rest[..end])];
    if end == |rest| then r.Found? && r.handlers == w.handlers && r.params == captured
    else AnswersIn(w.children, rest[end..], captured, r)
  }

  lemma ParamAnswersOnly(w: Tree, rest: bytes, ps: seq<Capture>, r: Lookup, q: bytes, g: Chain)
    requires Shape(w) && w.nType == Param && rest != [] && BehindParam(w, rest, ps, r)
    requires Registered(w, q, g) && Match(q, rest).Some?
    ensures r.handlers == Some(g) && r.params == ps + Match(q, rest).value
  {
    hide Match, Registered, Shape, SegmentEnd, InSome;
    var end := SegmentEnd(rest);
    var first := Capture(w.paramName, rest[..end]);
    ParamText(w);
    var x := RouteCases(w, q, g);
    MatchParam(w.paramName, x, rest);
    assert Match(x, rest[end..]).Some?;
    var tail := Match(x, rest[end..]).value;
    if end == |rest| {
      assert rest[end..] == [];
      if x == [] { NothingMatches(); } else { MatchNothingLeft(x); }
    } else if x == [] {
      MatchedNothing(rest[end..]);
    }
    assert ps + [first] + tail == ps + ([first] + tail);
  }

  lemma ParamText(w: Tree)
    requires Shape(w) && w.nType == Param
    ensures w.path == [COLON] + w.paramName && ValidName(w.paramName)
  {}

  lemma NothingMatches()
    ensures Match([], []) == Some([])
  {}

  lemma MatchedNothing(p: bytes)
    requires Match([], p).Some?
    ensures p == []
  {}

  lemma ParamFinds(w: Tree, rest: bytes, ps: seq<Capture>, r: Lookup)
    requires Shape(w) && w.nType == Param && rest != [] && BehindParam(w, rest, ps, r) && r.handlers.Some?
    ensures exists q, g :: Registered(w, q, g) && Match(q, rest).Some?
  {
    var end := SegmentEnd(rest);
    if end == |rest| {
      MatchParam(w.paramName, [], rest);
      assert w.path + [] == w.path && rest[end..] == [];
      assert Registered(w, w.path, w.handlers.value) && Match(w.path, rest).Some?;
    } else {
      var x, g :| InSome(w.children, x, g) && Match(x, rest[end..]).Some?;
      var i :| 0 <= i < |w.children| && Registered(w.children[i], x, g);
      RegisteredBelow(w, i, x, g);
      ChildShape(w, i);
      RegisteredStart(w.children[i], x, g);
      MatchParam(w.paramName, x, rest);
      assert Match(w.path + x, rest).Some?;
    }
  }

  lemma BoundaryAnswers(t: Tree, p: bytes, ps: seq<Capture>)
    requires Shape(t) && t.nType == CatchAll && p != [] && p[0] == SLASH
    ensures Answers(t, p, ps, Get(t, p, ps))
  {
    var leaf := t.children[0];
    forall q, g | Registered(t, q, g)
      ensures q == leaf.path && leaf.handlers == Some(g)
    {
      var x := RouteCases(t, q, g);
      OnlyLeaf(leaf, leaf.path, leaf.handlers.value);
      assert InSome(t.children, x, g) <==> Registered(leaf, x, g);
      assert q == x;
    }
    assert p[0..] == p;
    assert leaf.path[2..] == leaf.paramName;
    assert Match(leaf.path, p) == Some([Capture(leaf.paramName, p)]);
    assert Registered(leaf, leaf.path, leaf.handlers.value);
    RegisteredBelow(t, 0, leaf.path, leaf.handlers.value);
    assert [] + leaf.path == leaf.path;
  }

  /** A lookup never leaves the tree and answers exactly what the registered routes say. */
  lemma {:induction false} GetCorrect(t: Tree, p: bytes, ps: seq<Capture>)
    requires Shape(t) && t.nType != Param && (t.nType == CatchAll ==> p != [] && p[0] == SLASH)
    ensures Answers(t, p, ps, Get(t, p, ps))
    decreases t, 1
  {
    if t.nType == CatchAll {
      BoundaryAnswers(t, p, ps);
    } else if |p| > |t.path| && t.path <= p {
      var rest := p[|t.path|..];
      assert p == t.path + rest;
      if t.wildChild {
        GetThroughParam(t, rest, ps);
        assert forall q, g :: InSome(t.children, q, g) <==> Registered(t.children[0], q, g);
      } else {
        var i := IndexOf(t.indices, rest[0]);
        if i < |t.indices| {
          ChildShape(t, i);
          GetCorrect(t.children[i], rest, ps);
        }
        OnlyChildAnswers(t, i, rest, ps, Get(t, p, ps));
      }
      AnswersBelow(t, rest, ps, Get(t, p, ps));
    } else if p == t.path {
      HintIsSafe(t, p);
      EndsHere(t, ps, Get(t, p, ps).tsr);
    } else {
      NotThisWay(t, p);
    }
  }

  lemma {:induction false} GetThroughParam(t: Tree, rest: bytes, ps: seq<Capture>)
    requires Shape(t) && (t.nType == Static || t.nType == Root) && t.wildChild && rest != []
    ensures Answers(t.children[0], rest, ps, Get(t, t.path + rest, ps))
    decreases t, 0
  {
    var w := t.children[0];
    var end := SegmentEnd(rest);
    var captured := ps + [Capture(w.paramName, rest[..end])];
    var r := Get(t, t.path + rest, ps);
    if end < |rest| {
      if w.children != [] {
        assert SelectedBy(w.children[0], SLASH);
        GetCorrect(w.children[0], rest[end..], captured);
        assert r == Get(w.children[0], rest[end..], captured);
        assert forall q, g :: InSome(w.children, q, g) <==> Registered(w.children[0], q, g);
      }
    } else {
      assert rest[..end] == rest;
    }
    ParamAnswers(w, rest, ps, r);
  }
}
