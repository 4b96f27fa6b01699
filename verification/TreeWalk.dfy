/** The walk of a registration down the tree, case by case. */
module TreeWalk {
  import opened Bytes
  import opened Wrappers
  import opened Patterns
  import opened PatternLemmas
  import opened RadixTree
  import opened TreeShape
  import opened TreeInsert

  /** A path that ends inside a static node, or where a node has no handlers. */
  lemma EndHere(t: Tree, h: Chain)
    requires Shape(t) && t.nType != CatchAll && t.path != []
    ensures Correct(t, t.path, h, if t.handlers.Some? then Outcome(t, Rejected) else Outcome(t.(handlers := Some(h)), Accepted))
  {
    WellFormedBelow(t, []);
    assert t.path + [] == t.path;
    if t.handlers.Some? {
      assert Registered(t, t.path, t.handlers.value);
      ClashBelow(t, [], []);
    } else {
      forall q, g | Registered(t, q, g)
        ensures !Clash(t.path, q)
      {
        var r := RouteCases(t, q, g);
        var i :| 0 <= i < |t.children| && Registered(t.children[i], r, g);
        ChildShape(t, i);
        RegisteredStart(t.children[i], r, g);
        ClashBelow(t, [], r);
      }
      var t' := t.(handlers := Some(h));
      forall q, g
        ensures Registered(t', q, g) <==> Registered(t, q, g) || (q == t.path && g == h)
      {
      }
    }
  }

  /** No route below aligned children starts with byte `c` when no index is `c`. */
  lemma NoRouteStarts(t: Tree, rest: bytes)
    requires Shape(t) && t.nType != CatchAll && !t.wildChild && rest != [] && rest[0] !in t.indices
    ensures CompatibleIn(t.children, rest)
  {
    forall r, g | InSome(t.children, r, g)
      ensures !Clash(rest, r)
    {
      var i :| 0 <= i < |t.children| && Registered(t.children[i], r, g);
      ChildShape(t, i);
      RegisteredStart(t.children[i], r, g);
      assert r[0] == t.indices[i];
      assert !IsWild(r[0]);
    }
  }

  lemma RealignedShape(t: Tree, indices: bytes, cs: seq<Tree>)
    requires Shape(t) && t.nType != CatchAll && !t.wildChild && t.path != []
    requires cs != [] && Aligned(indices, cs) && (t.nType == Param ==> indices == [SLASH] && cs[0].nType == Static)
    ensures Shape(t.(indices := indices, children := cs)) && Head(t.(indices := indices, children := cs)) == Head(t)
  {
    assert SelectedBy(cs[0], indices[0]);
  }

  /** A new static child below a static node or a parameter without children. */
  lemma NewStaticChild(t: Tree, rest: bytes, h: Chain)
    requires Shape(t) && t.nType != CatchAll && !t.wildChild && t.path != []
    requires rest != [] && !IsWild(rest[0]) && rest[0] !in t.indices && rest[0] < 128
    requires t.nType == Param ==> t.children == [] && rest[0] == SLASH
    ensures Correct(t, t.path + rest, h, InsertStatic(t, rest, h))
  {
    InsertStaticCorrect(t, rest, h);
    var r := InsertStatic(t, rest, h);
    assert r.status == Accepted <==> WellFormed(t.path + rest) && Compatible(t, t.path + rest) by {
      NoRouteStarts(t, rest);
      CompatibleBelow(t, rest);
      WellFormedBelow(t, rest);
    }
    if r.status == Accepted {
      AddsBelow(t, r.tree, rest, h);
      RealignedShape(t, r.tree.indices, r.tree.children);
    }
  }

  /** The same routes under the same kind of node: what is promised of one is promised of the other. */
  ghost predicate Alike(t: Tree, s: Tree) {
    t.nType == s.nType && Head(t) == Head(s) && forall q, g :: Registered(s, q, g) == Registered(t, q, g)
  }

  lemma CorrectAlike(t: Tree, s: Tree, p: bytes, h: Chain, r: Outcome)
    requires Alike(t, s) && Correct(s, p, h, r)
    ensures Correct(t, p, h, r)
  {
    assert Compatible(t, p) <==> Compatible(s, p);
  }

  /** The walk reaches node `t`: after a split, if there is one, the path goes on behind the node. */
  lemma SplitAtKeeps(t: Tree, p: bytes)
    requires Shape(t) && t.nType != CatchAll && Enters(t, p) && ForksInAscii(t, p)
    ensures var s, i := SplitAt(Bump(t), p), CommonPrefix(p, t.path);
      && Shape(s) && Alike(t, s) && s.path == p[..i] && i <= |p|
      && (i == 0 ==> t.path == [] && p[0] == SLASH)
      && (i < |t.path| ==> !s.wildChild && s.nType != Param && s.indices == [t.path[i]] && (i < |p| ==> p[i] != t.path[i]))
      && (i == |t.path| ==> s == Bump(t))
  {
    var i := CommonPrefix(p, t.path);
    PriorityFree(t, t.priority + 1);
    if i < |t.path| {
      ForkByte(t, p);
      SplitKeeps(Bump(t), i);
    }
  }

  /** Descending into child `idx` selected by the first byte of `rest`. */
  lemma DescendStatic(t: Tree, idx: nat, rest: bytes, h: Chain, r: Outcome)
    requires Shape(t) && t.nType != CatchAll && !t.wildChild && rest != [] && !IsWild(rest[0])
    requires idx < |t.children| && idx < |t.indices| && t.indices[idx] == rest[0]
    requires Correct(t.children[idx], rest, h, r)
    requires t.path == [] ==> r.status != Accepted
    ensures var s := Promote(t, idx);
      Correct(t, t.path + rest, h, Outcome(s.(children := s.children[PromotedPos(t.children, idx) := r.tree]), r.status))
  {
    var c := t.children[idx];
    ChildShape(t, idx);
    CompatibleBelow(t, rest);
    WellFormedBelow(t, rest);
    assert CompatibleIn(t.children, rest) <==> Compatible(c, rest) by { OnlyChildMatters(t, idx, rest); }
    if r.status == Accepted {
      PutBack(t, idx, rest, h, r);
    }
  }

  /** The promoted and replaced child keeps the shape of its parent, with one more route. */
  lemma PutBack(t: Tree, idx: nat, rest: bytes, h: Chain, r: Outcome)
    requires Shape(t) && t.nType != CatchAll && !t.wildChild && t.path != []
    requires idx < |t.children| && idx < |t.indices|
    requires Shape(r.tree) && r.tree.nType == t.children[idx].nType && Head(r.tree) == Head(t.children[idx])
    requires AddsRoute(t.children[idx], r.tree, rest, h)
    ensures var s := Promote(t, idx);
      var t' := s.(children := s.children[PromotedPos(t.children, idx) := r.tree]);
      Shape(t') && t'.nType == t.nType && Head(t') == Head(t) && AddsRoute(t, t', t.path + rest, h)
  {
    var newPos := PromotedPos(t.children, idx);
    var cs := t.children[idx := r.tree];
    PromoteValue(t, idx, r.tree);
    ChildShape(t, idx);
    ReplaceChild(t.children, idx, r.tree, rest, h);
    RotateAddsIn(t.children, cs, newPos, idx, rest, h);
    ReplaceAligned(t.indices, t.children, idx, r.tree);
    RotateAligned(t.indices, cs, newPos, idx);
    RealignedShape(t, Rotate(t.indices, newPos, idx), Rotate(cs, newPos, idx));
    AddsBelow(t, t.(indices := Rotate(t.indices, newPos, idx), children := Rotate(cs, newPos, idx)), rest, h);
  }

  lemma ReplaceAligned(indices: bytes, cs: seq<Tree>, idx: nat, c: Tree)
    requires Aligned(indices, cs) && idx < |cs| && SelectedBy(c, indices[idx])
    ensures Aligned(indices, cs[idx := c])
  {
  }

  /** Only the child selected by the first byte of `rest` can hold a route that clashes with it. */
  lemma OnlyChildMatters(t: Tree, idx: nat, rest: bytes)
    requires Shape(t) && t.nType != CatchAll && !t.wildChild && rest != []
    requires idx < |t.children| && idx < |t.indices| && t.indices[idx] == rest[0]
    ensures CompatibleIn(t.children, rest) <==> Compatible(t.children[idx], rest)
  {
    forall r, g | InSome(t.children, r, g) && Compatible(t.children[idx], rest)
      ensures !Clash(rest, r)
    {
      var i :| 0 <= i < |t.children| && Registered(t.children[i], r, g);
      ChildShape(t, i);
      RegisteredStart(t.children[i], r, g);
      ChildShape(t, idx);
      assert i != idx ==> t.indices[i] != t.indices[idx];
    }
    forall q, g | Registered(t.children[idx], q, g) && CompatibleIn(t.children, rest)
      ensures !Clash(rest, q)
    {
      assert InSome(t.children, q, g);
    }
  }

  /** Descending into the parameter child. */
  lemma DescendParam(t: Tree, rest: bytes, h: Chain, r: Outcome)
    requires Shape(t) && t.nType != CatchAll && t.wildChild && rest != []
    requires NoStar(rest) && Correct(t.children[0], rest, h, r)
    ensures Correct(t, t.path + rest, h, Outcome(t.(children := [r.tree]), r.status))
  {
    var c := t.children[0];
    CompatibleBelow(t, rest);
    WellFormedBelow(t, rest);
    assert CompatibleIn(t.children, rest) <==> Compatible(c, rest) by {
      assert forall q, g :: InSome(t.children, q, g) <==> Registered(c, q, g);
    }
    if r.status == Accepted {
      ReplaceChild(t.children, 0, r.tree, rest, h);
      assert t.children[0 := r.tree] == [r.tree];
      AddsBelow(t, t.(children := [r.tree]), rest, h);
    }
  }

  /** A path that does not follow the parameter child is refused, and it clashes with its routes. */
  lemma WrongParam(t: Tree, rest: bytes)
    requires Shape(t) && t.nType != CatchAll && t.wildChild && rest != []
    requires rest[0] == COLON && !Follows(rest, t.children[0])
    ensures !Compatible(t, t.path + rest)
  {
    var c := t.children[0];
    var q, g := SomeRegistered(c);
    RegisteredStart(c, q, g);
    var n := SegmentEnd(rest);
    assert rest[..n] != c.path;
    ParamSegment(c.paramName, q[|c.path|..]);
    assert q == [COLON] + c.paramName + q[|c.path|..];
    assert q[..SegmentEnd(q)] == c.path;
    assert Clash(rest, q);
    CompatibleBelow(t, rest);
    assert InSome(t.children, q, g);
  }

  /** A catch-all cannot start in the middle of an existing node. */
  lemma StarHere(t: Tree, rest: bytes)
    requires Shape(t) && (t.nType == Static || t.nType == Root) && rest != [] && rest[0] == STAR && t.path != []
    ensures !(WellFormed(t.path + rest) && Compatible(t, t.path + rest))
  {
    if t.path[|t.path| - 1] == SLASH {
      var q, g := SomeRegistered(t);
      var r := RouteCases(t, q, g);
      ClashBelowSlash(t.path, rest, r);
    } else {
      StrayStar(t.path, rest);
    }
  }

  lemma StarRejected(t: Tree, rest: bytes, h: Chain)
    requires rest != [] && rest[0] == STAR
    ensures InsertChild(t, rest, h).status == Rejected
  {
  }

  /** A first parameter below a node without children. */
  lemma NewParamChild(t: Tree, rest: bytes, h: Chain)
    requires Shape(t) && (t.nType == Static || t.nType == Root) && t.children == [] && t.path != []
    requires rest != [] && rest[0] == COLON
    ensures Correct(t, t.path + rest, h, InsertChild(t, rest, h))
  {
    InsertParam(t, rest, 0, h);
    assert rest[0..] == rest;
    CompatibleBelow(t, rest);
    assert CompatibleIn(t.children, rest);
    WellFormedBelow(t, rest);
    var r := InsertChild(t, rest, h);
    if r.status == Accepted {
      AppendChild([], r.tree.children[0], rest, h);
      assert [] + [r.tree.children[0]] == r.tree.children;
      AddsBelow(t, r.tree, rest, h);
    }
  }

  /** Nothing can be registered below a catch-all's '/'. */
  lemma BoundaryIncompatible(t: Tree, p: bytes)
    requires Shape(t) && t.nType == CatchAll && p != [] && p[0] == SLASH
    ensures !Compatible(t, p)
  {
    var leaf := t.children[0];
    var q := leaf.path;
    assert Registered(leaf, q, leaf.handlers.value);
    RegisteredBelow(t, 0, q, leaf.handlers.value);
    assert [] + q == q;
    assert StartsCatchAll(q);
  }

  lemma BoundaryRejects(t: Tree, p: bytes, h: Chain)
    requires Shape(t) && t.nType == CatchAll && p != [] && p[0] == SLASH
    ensures Walk(t, p, h).status == Rejected
  {
  }

  // ---- one turn of the walk, case by case ----

  /** The path has the node's whole text. */
  lemma WholeText(t: Tree, p: bytes, h: Chain)
    requires CommonPrefix(p, t.path) == |t.path| < |p|
    ensures Walk(t, p, h) == WalkBelow(Bump(t), p[|t.path|..], false, h)
  {
    hide WalkBelow, CommonPrefix;
  }

  /** On to the child that the next byte selects. */
  lemma SelectedTurn(s: Tree, idx: nat, rest: bytes, h: Chain)
    requires rest != [] && s.nType != Param && idx == IndexOf(s.indices, rest[0]) < |s.indices| && idx < |s.children|
    ensures var u := Promote(s, idx); u == s.(indices := u.indices, children := u.children)
    ensures var r, u := Walk(s.children[idx], rest, h), Promote(s, idx);
      WalkBelow(s, rest, false, h) == Outcome(u.(children := u.children[PromotedPos(s.children, idx) := r.tree]), r.status)
  {
    hide Walk, PromotedPos, Rotate;
  }

  /** On from a parameter to what is behind the slash. */
  lemma ThroughParamTurn(w: Tree, rest: bytes, h: Chain)
    requires w.nType == Param && rest != [] && rest[0] == SLASH && |w.children| == 1
    ensures var n := Walk(w.children[0], rest, h); WalkBelow(w, rest, false, h) == Outcome(w.(children := [n.tree]), n.status)
  {
    hide Walk;
  }

  /** On to the parameter child, or not. */
  lemma FollowTurn(s: Tree, rest: bytes, h: Chain)
    requires s.nType != Param && s.wildChild && |s.children| == 1 && s.indices == [] && rest != [] && rest[0] == COLON
    ensures var w := s.children[0];
      if Follows(rest, w) then
        var r := Walk(w, rest, h);
        WalkBelow(s, rest, false, h) == Outcome(s.(children := [r.tree]), r.status)
      else WalkBelow(s, rest, false, h).status == Rejected
  {
    hide Walk, Follows;
    assert forall x :: s.children[0 := x] == [x];
  }

  // ---- the walk ----

  /** A walk stands behind node `s` of a well-shaped tree and goes on with `rest`. */
  ghost predicate Behind(s: Tree, rest: bytes, split: bool) {
    && Shape(s) && s.nType != CatchAll && rest != []
    && SeparatedFrom(s, s.path + rest) && ForksInAscii(s, s.path + rest)
    && (s.path == [] ==> rest[0] == SLASH)
    && (split ==> |s.children| == 1 && s.children[0].nType != Param && !s.wildChild && s.nType != Param && rest[0] !in s.indices)
    && (s.nType == Param ==> rest[0] == SLASH)
  }

  /** What a walk behind `s` promises. */
  ghost predicate CorrectBehind(s: Tree, rest: bytes, h: Chain, r: Outcome) {
    r.status != Diverged && Correct(s, s.path + rest, h, r)
  }

  /** Registration below a node: what is accepted and what it changes. */
  lemma {:induction false} WalkCorrect(t: Tree, p: bytes, h: Chain)
    requires Shape(t) && Enters(t, p) && SeparatedFrom(t, p) && ForksInAscii(t, p)
    ensures Walk(t, p, h).status != Diverged
    ensures Correct(t, p, h, Walk(t, p, h))
    decreases t, 2
  {
    hide Walk, WalkBelow, Correct, Shape, Behind, SplitAt, CommonPrefix, SeparatedFrom, Enters;
    if t.nType == CatchAll {
      WalkBoundary(t, p, h);
    } else {
      SplitAtKeeps(t, p);
      WalkUnfolds(t, p, h);
      var i, s := CommonPrefix(p, t.path), SplitAt(Bump(t), p);
      if i == |p| {
        EnterEnds(t, s, p, h);
      } else {
        EnterBehind(t, p);
        BelowCorrect(t, s, p[i..], i < |t.path|, h);
      }
      CorrectAlike(t, s, p, h, Walk(t, p, h));
    }
  }

  lemma WalkBoundary(t: Tree, p: bytes, h: Chain)
    requires Shape(t) && Enters(t, p) && t.nType == CatchAll
    ensures Walk(t, p, h).status == Rejected && Correct(t, p, h, Walk(t, p, h))
  {
    BoundaryRejects(t, p, h);
    BoundaryIncompatible(t, p);
  }

  lemma WalkUnfolds(t: Tree, p: bytes, h: Chain)
    ensures var i, s := CommonPrefix(p, t.path), SplitAt(Bump(t), p);
      && (i < |t.path| && i < |p| ==> |s.children| == 1 && s.children[0].nType != Param && !s.wildChild)
      && Walk(t, p, h) ==
        if i < |p| then WalkBelow(s, p[i..], i < |t.path|, h)
        else if s.handlers.Some? then Outcome(s, Rejected)
        else Outcome(s.(handlers := Some(h)), Accepted)
  {
    hide WalkBelow, CommonPrefix;
  }

  /** The path ends at the node. */
  lemma EnterEnds(t: Tree, s: Tree, p: bytes, h: Chain)
    requires Shape(t) && Enters(t, p) && t.nType != CatchAll && Shape(s) && s.nType == t.nType && s.path == p
    ensures Correct(s, p, h, if s.handlers.Some? then Outcome(s, Rejected) else Outcome(s.(handlers := Some(h)), Accepted))
  {
    hide Correct, Registered;
    EndHere(s, h);
  }

  /** The path goes on behind the node. */
  lemma EnterBehind(t: Tree, p: bytes)
    requires Shape(t) && t.nType != CatchAll && Enters(t, p) && SeparatedFrom(t, p) && ForksInAscii(t, p)
    requires CommonPrefix(p, t.path) < |p|
    ensures var i, s := CommonPrefix(p, t.path), SplitAt(Bump(t), p);
      p == s.path + p[i..] && Behind(s, p[i..], i < |t.path|)
  {
    hide SplitAt, CommonPrefix, Registered, Shape, SeparatedFrom, ForksInAscii, Alike;
    SplitAtKeeps(t, p);
    var i, s := CommonPrefix(p, t.path), SplitAt(Bump(t), p);
    AlikeApart(t, s, p);
    if i < |t.path| { SplitHasOneChild(t, p); }
    if s.nType == Param { ParamEntered(t, p); }
  }

  lemma AlikeApart(t: Tree, s: Tree, p: bytes)
    requires Alike(t, s) && SeparatedFrom(t, p) && ForksInAscii(t, p)
    ensures SeparatedFrom(s, p) && ForksInAscii(s, p) && s.nType == t.nType
  {
    hide Mixed, AsciiFork;
  }

  /** A parameter is entered with its whole name, and left with a slash. */
  lemma ParamEntered(t: Tree, p: bytes)
    requires Enters(t, p) && t.nType == Param
    ensures CommonPrefix(p, t.path) == |t.path| && AfterParam(p[|t.path|..])
  {
    CommonPrefixUnique(p, t.path, |t.path|);
  }

  lemma SplitHasOneChild(t: Tree, p: bytes)
    requires CommonPrefix(p, t.path) < |t.path|
    ensures var s := SplitAt(Bump(t), p); |s.children| == 1 && s.children[0].nType != Param
  {
    hide CommonPrefix;
  }

  /** A walk goes on below an existing child, unless the parameter there has another name. */
  predicate GoesDown(s: Tree, rest: bytes)
    requires rest != []
  {
    if s.nType == Param then s.children != [] else rest[0] in s.indices || (rest[0] == COLON && s.wildChild)
  }

  /** Where a walk goes on to, seen from the shape of the node. */
  lemma BehindCases(s: Tree, rest: bytes, split: bool)
    requires Behind(s, rest, split) && GoesDown(s, rest)
    ensures !split
    ensures s.nType != Param && !s.wildChild ==>
      var idx := IndexOf(s.indices, rest[0]);
      idx < |s.indices| == |s.children| && Shape(s.children[idx]) && Enters(s.children[idx], rest)
    ensures s.nType == Param || s.wildChild ==> |s.children| == 1 && Shape(s.children[0])
    ensures s.nType == Param ==> rest[0] == SLASH && Enters(s.children[0], rest)
    ensures s.wildChild ==> s.nType != Param && s.indices == [] && (Follows(rest, s.children[0]) ==> Enters(s.children[0], rest))
  {
    if s.nType == Param {
      ChildShape(s, 0);
    } else if !s.wildChild {
      assert Aligned(s.indices, s.children);
      ChildShape(s, IndexOf(s.indices, rest[0]));
    }
  }

  lemma {:induction false} BelowCorrect(t: Tree, s: Tree, rest: bytes, split: bool, h: Chain)
    requires Behind(s, rest, split) && (!split ==> s == Bump(t))
    ensures CorrectBehind(s, rest, h, WalkBelow(s, rest, split, h))
    decreases t, 1
  {
    if s.nType == Param {
      BelowParam(t, s, rest, split, h);
    } else if rest[0] in s.indices {
      BelowStatic(t, s, rest, split, h);
    } else if !IsWild(rest[0]) {
      if s.wildChild {
        SeparatedBelow(s, 0, rest);
        SeparatedHead(s.children[0], rest);
        assert false;
      }
      ForkBelow(s, rest);
      NewStaticChild(s, rest, h);
    } else if rest[0] == COLON {
      BelowWild(t, s, rest, split, h);
    } else {
      StarHere(s, rest);
      StarBelow(s, rest, split, h);
    }
  }

  lemma StarBelow(s: Tree, rest: bytes, split: bool, h: Chain)
    requires Behind(s, rest, split) && s.nType != Param && rest[0] == STAR && STAR !in s.indices
    ensures WalkBelow(s, rest, split, h).status == Rejected
  {
    if s.wildChild {
      assert Shape(s.children[0]);
      assert s.children[0].path[0] == COLON;
    } else {
      StarRejected(s, rest, h);
    }
  }

  lemma {:induction false} BelowParam(t: Tree, s: Tree, rest: bytes, split: bool, h: Chain)
    requires Behind(s, rest, split) && (!split ==> s == Bump(t)) && s.nType == Param
    ensures CorrectBehind(s, rest, h, WalkBelow(s, rest, split, h))
    decreases t, 0
  {
    if s.children == [] {
      NewStaticChild(s, rest, h);
    } else {
      SeparatedBelow(s, 0, rest);
      ForksBelow(s, 0, rest);
      assert SelectedBy(t.children[0], SLASH);
      WalkCorrect(t.children[0], rest, h);
      DescendOnly(s, rest, h, Walk(t.children[0], rest, h));
    }
  }

  /** `DescendStatic` for the only child of a parameter. */
  lemma DescendOnly(s: Tree, rest: bytes, h: Chain, r: Outcome)
    requires Shape(s) && s.nType == Param && |s.children| == 1 && rest != [] && rest[0] == SLASH
    requires Correct(s.children[0], rest, h, r)
    ensures Correct(s, s.path + rest, h, Outcome(s.(children := [r.tree]), r.status))
  {
    DescendStatic(s, 0, rest, h, r);
    PromoteValue(s, 0, r.tree);
    assert Rotate(s.children[0 := r.tree], 0, 0) == [r.tree];
    assert Rotate(s.indices, 0, 0) == s.indices;
  }

  lemma {:induction false} BelowStatic(t: Tree, s: Tree, rest: bytes, split: bool, h: Chain)
    requires Behind(s, rest, split) && (!split ==> s == Bump(t)) && s.nType != Param && rest[0] in s.indices
    ensures CorrectBehind(s, rest, h, WalkBelow(s, rest, split, h))
    decreases t, 0
  {
    var idx := IndexOf(s.indices, rest[0]);
    assert Aligned(s.indices, s.children);
    ChildShape(s, idx);
    SeparatedBelow(s, idx, rest);
    ForksBelow(s, idx, rest);
    WalkCorrect(t.children[idx], rest, h);
    if s.path == [] { BoundaryRejects(t.children[0], rest, h); }
    DescendStatic(s, idx, rest, h, Walk(t.children[idx], rest, h));
  }

  lemma BelowWildUnfolds(s: Tree, rest: bytes, split: bool, h: Chain)
    requires Behind(s, rest, split) && s.nType != Param && rest[0] == COLON && COLON !in s.indices
    ensures !s.wildChild ==> WalkBelow(s, rest, split, h) == InsertChild(s, rest, h)
    ensures s.wildChild ==> !split && |s.children| == 1
    ensures s.wildChild && Follows(rest, s.children[0]) ==>
      (var r := Walk(s.children[0], rest, h); WalkBelow(s, rest, split, h) == Outcome(s.(children := [r.tree]), r.status))
    ensures s.wildChild && !Follows(rest, s.children[0]) ==>
      WalkBelow(s, rest, split, h) == Outcome(s.(children := [Bump(s.children[0])]), Rejected)
  {
    hide Walk, InsertChild, Registered, Follows;
    if s.wildChild {
      assert forall x :: s.children[0 := x] == [x];
    }
  }

  lemma {:induction false} BelowWild(t: Tree, s: Tree, rest: bytes, split: bool, h: Chain)
    requires Behind(s, rest, split) && (!split ==> s == Bump(t)) && s.nType != Param && rest[0] == COLON && COLON !in s.indices
    ensures CorrectBehind(s, rest, h, WalkBelow(s, rest, split, h))
    decreases t, 0
  {
    hide Walk, WalkBelow, InsertChild;
    BelowWildUnfolds(s, rest, split, h);
    if !s.wildChild {
      if s.children != [] {
        ChildShape(s, 0);
        SeparatedBelow(s, 0, rest);
        SeparatedHead(s.children[0], rest);
      }
      NewParamChild(s, rest, h);
    } else if Follows(rest, s.children[0]) {
      SeparatedBelow(s, 0, rest);
      ForksBelow(s, 0, rest);
      WalkCorrect(t.children[0], rest, h);
      var r := Walk(t.children[0], rest, h);
      assert s.children[0 := r.tree] == [r.tree];
      DescendParam(s, rest, h, r);
    } else {
      WrongParam(s, rest);
    }
  }
}
