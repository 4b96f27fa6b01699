/** The tree stays compressed: a node without handlers and without a wildcard child branches. */
module TreeCompact {
  import opened Bytes
  import opened Wrappers
  import opened Patterns
  import opened RadixTree
  import opened TreeShape
  import opened TreeInsert
  import opened TreeWalk
  import opened RouteTable

  /** A static node that only passes the walk on has two children at least, unless it leads to a catch-all. */
  predicate Branches(t: Tree) {
    (t.nType == Static || t.nType == Root) && t.handlers.None? && !t.wildChild && t.children != [] && t.children[0].nType != CatchAll ==>
      |t.children| >= 2
  }

  ghost predicate Compact(t: Tree)
    decreases t
  {
    Branches(t) && forall i :: 0 <= i < |t.children| ==> Compact(t.children[i])
  }

  ghost predicate AllCompact(cs: seq<Tree>) { forall i :: 0 <= i < |cs| ==> Compact(cs[i]) }

  lemma CompactParts(t: Tree)
    ensures Compact(t) <==> Branches(t) && AllCompact(t.children)
  {}

  // ---- new nodes ----

  lemma {:induction false} InsertCompact(t: Tree, p: bytes, h: Chain)
    requires t.children == []
    ensures var r := InsertChild(t, p, h); r.status == Accepted ==> Compact(r.tree)
    decreases |p|, 0
  {
    hide Compact, AllCompact, FirstWild, SegmentEnd, Literal, ParamNode;
    var r := InsertChild(t, p, h);
    CompactParts(r.tree);
    NoneCompact();
    match FindWildcard(p)
    case NoWildcard =>
    case Wildcard(text, start, valid) =>
      if r.status == Accepted {
        if text[0] == COLON {
          ParamCompact(text, p[start + |text|..], h);
          OneCompact(ParamNode(text, p[start + |text|..], h).tree);
        } else {
          BoundaryCompact(p[start - 1..], text[1..], h);
          OneCompact(Boundary(p[start - 1..], text[1..], h));
        }
      }
  }

  lemma NoneCompact()
    ensures AllCompact([])
  {}

  lemma OneCompact(c: Tree)
    requires Compact(c)
    ensures AllCompact([c])
  {}

  lemma BoundaryCompact(path: bytes, name: bytes, h: Chain)
    ensures Compact(Boundary(path, name, h))
  {
    assert Compact(Boundary(path, name, h).children[0]);
  }

  lemma {:induction false} ParamCompact(text: bytes, rest: bytes, h: Chain)
    requires text != []
    ensures var r := ParamNode(text, rest, h); r.status == Accepted ==> Compact(r.tree)
    decreases |rest|, 1
  {
    if rest != [] { InsertCompact(EMPTY.(priority := 1), rest, h); }
  }

  lemma RotateCompact(cs: seq<Tree>, newPos: nat, pos: nat)
    requires newPos <= pos < |cs| && AllCompact(cs)
    ensures AllCompact(Rotate(cs, newPos, pos))
  {
    hide Compact, Rotate;
    forall i | 0 <= i < |cs|
      ensures Compact(Rotate(cs, newPos, pos)[i])
    {
      RotatedFrom(cs, newPos, pos, i);
    }
  }

  /** One more static child. */
  lemma InsertStaticCompact(t: Tree, rest: bytes, h: Chain)
    requires rest != [] && rest[0] < 128 && |t.indices| == |t.children| && AllCompact(t.children)
    ensures var r := InsertStatic(t, rest, h);
      && r.tree == t.(indices := r.tree.indices, children := r.tree.children)
      && (r.status == Accepted ==> AllCompact(r.tree.children) && |r.tree.children| == |t.children| + 1)
  {
    hide InsertStatic, InsertChild, Compact, Rotate, BubblePos;
    var newPos, sub := InsertStaticValue(t, rest, h);
    InsertCompact(Bump(EMPTY), rest, h);
    if sub.status == Accepted {
      RotateCompact(t.children + [sub.tree], newPos, |t.children|);
    }
  }

  // ---- the walk ----

  /** What a walk behind `s` leaves. */
  ghost predicate CompactBehind(s: Tree, r: Outcome) {
    r.status == Accepted ==> r.tree.nType == s.nType && Compact(r.tree)
  }

  lemma SplitCompact(t: Tree, p: bytes)
    requires Compact(t) && t.nType != CatchAll && (t.nType == Param ==> CommonPrefix(p, t.path) == |t.path|)
    ensures AllCompact(SplitAt(Bump(t), p).children)
  {
    hide Compact, CommonPrefix, RuneString;
    CompactParts(t);
    var s := SplitAt(Bump(t), p);
    if CommonPrefix(p, t.path) < |t.path| { CompactParts(s.children[0]); }
  }

  /** An accepted registration leaves a compressed tree compressed. */
  lemma {:induction false} WalkCompact(t: Tree, p: bytes, h: Chain)
    requires Shape(t) && Enters(t, p) && SeparatedFrom(t, p) && ForksInAscii(t, p) && Compact(t)
    ensures Walk(t, p, h).status == Accepted ==> Compact(Walk(t, p, h).tree)
    decreases t, 2
  {
    hide Walk, WalkBelow, SplitAt, CommonPrefix, Shape, Compact, AllCompact, Behind, Enters, Registered;
    if t.nType == CatchAll {
      WalkBoundary(t, p, h);
    } else {
      WalkUnfolds(t, p, h);
      SplitAtKeeps(t, p);
      if t.nType == Param { ParamEntered(t, p); }
      SplitCompact(t, p);
      var i, s := CommonPrefix(p, t.path), SplitAt(Bump(t), p);
      if i < |p| {
        EnterBehind(t, p);
        SplitOrNot(t, p);
        BelowCompact(t, s, p[i..], i < |t.path|, h);
      } else {
        CompactParts(s.(handlers := Some(h)));
      }
    }
  }

  lemma SplitOrNot(t: Tree, p: bytes)
    ensures CommonPrefix(p, t.path) == |t.path| ==> SplitAt(Bump(t), p) == Bump(t)
  {
    hide CommonPrefix;
  }

  lemma {:induction false} BelowCompact(t: Tree, s: Tree, rest: bytes, split: bool, h: Chain)
    requires Behind(s, rest, split) && AllCompact(s.children) && (!split ==> s == Bump(t) && Compact(t))
    ensures CompactBehind(s, WalkBelow(s, rest, split, h))
    decreases t, 1
  {
    hide Walk, WalkBelow, Compact, AllCompact, Shape, Registered;
    if GoesDown(s, rest) {
      DownCompact(t, s, rest, split, h);
    } else if !IsWild(rest[0]) {
      NewStaticCompact(s, rest, split, h);
    } else if rest[0] == COLON {
      NewParamCompact(s, rest, split, h);
    } else {
      NotSelected(s, rest, split);
      StarBelow(s, rest, split, h);
    }
  }

  lemma NotSelected(s: Tree, rest: bytes, split: bool)
    requires Behind(s, rest, split) && IsWild(rest[0]) && !GoesDown(s, rest)
    ensures s.nType != Param && rest[0] !in s.indices
  {}

  lemma NewStaticCompact(s: Tree, rest: bytes, split: bool, h: Chain)
    requires Behind(s, rest, split) && AllCompact(s.children) && !GoesDown(s, rest) && !IsWild(rest[0])
    ensures CompactBehind(s, WalkBelow(s, rest, split, h))
  {
    hide Walk, InsertStatic, InsertChild, Registered, Mixed, Compact, AllCompact;
    if s.wildChild {
      SeparatedBelow(s, 0, rest);
      SeparatedHead(s.children[0], rest);
      assert false;
    }
    assert Aligned(s.indices, s.children);
    ForkBelow(s, rest);
    InsertStaticCompact(s, rest, h);
    CompactParts(InsertStatic(s, rest, h).tree);
  }

  lemma NewParamCompact(s: Tree, rest: bytes, split: bool, h: Chain)
    requires Behind(s, rest, split) && !GoesDown(s, rest) && rest[0] == COLON
    ensures CompactBehind(s, WalkBelow(s, rest, split, h))
  {
    hide Walk, InsertStatic, InsertChild, Registered, Mixed, Compact;
    if s.children != [] {
      ChildShape(s, 0);
      SeparatedBelow(s, 0, rest);
      SeparatedHead(s.children[0], rest);
    }
    InsertCompact(s, rest, h);
    GrowKeepsKind(s, rest, h);
  }

  lemma GrowKeepsKind(t: Tree, p: bytes, h: Chain)
    ensures InsertChild(t, p, h).tree.nType == t.nType
  {
    hide ParamNode;
  }

  lemma {:induction false} DownCompact(t: Tree, s: Tree, rest: bytes, split: bool, h: Chain)
    requires Behind(s, rest, split) && AllCompact(s.children) && (!split ==> s == Bump(t) && Compact(t)) && GoesDown(s, rest)
    ensures CompactBehind(s, WalkBelow(s, rest, split, h))
    decreases t, 0
  {
    hide Walk, WalkBelow, Promote, PromotedPos, Shape, Compact, Registered, SeparatedFrom, ForksInAscii;
    BehindCases(s, rest, split);
    if s.nType != Param && !s.wildChild {
      var idx := IndexOf(s.indices, rest[0]);
      SeparatedBelow(s, idx, rest);
      ForksBelow(s, idx, rest);
      WalkCompact(t.children[idx], rest, h);
      SelectedTurn(s, idx, rest, h);
      SelectedCompact(t, s, idx, rest, h);
    } else {
      if s.nType == Param { ThroughParamTurn(s, rest, h); } else { FollowTurn(s, rest, h); }
      if s.nType == Param || Follows(rest, s.children[0]) {
        SeparatedBelow(s, 0, rest);
        ForksBelow(s, 0, rest);
        WalkCompact(t.children[0], rest, h);
        CompactParts(s.(children := [Walk(t.children[0], rest, h).tree]));
      }
    }
  }

  /** The selected child put back. */
  lemma SelectedCompact(t: Tree, s: Tree, idx: nat, rest: bytes, h: Chain)
    requires s == Bump(t) && Compact(t) && Shape(s) && s.nType != Param && s.nType != CatchAll && !s.wildChild
    requires idx < |s.children| && idx < |s.indices| && AllCompact(s.children) && rest != [] && Enters(s.children[idx], rest)
    requires SeparatedFrom(s.children[idx], rest) && ForksInAscii(s.children[idx], rest)
    requires var r := Walk(s.children[idx], rest, h); r.status == Accepted ==> Compact(r.tree)
    ensures var r, u := Walk(s.children[idx], rest, h), Promote(s, idx);
      CompactBehind(s, Outcome(u.(children := u.children[PromotedPos(s.children, idx) := r.tree]), r.status))
  {
    hide Walk, Compact, Registered, SeparatedFrom, ForksInAscii, Rotate, PromotedPos;
    var r, newPos := Walk(s.children[idx], rest, h), PromotedPos(s.children, idx);
    ChildShape(s, idx);
    WalkCorrect(s.children[idx], rest, h);
    if r.status == Accepted {
      PromoteValue(s, idx, r.tree);
      var cs := Rotate(s.children[idx := r.tree], newPos, idx);
      RotateCompact(s.children[idx := r.tree], newPos, idx);
      CompactParts(t);
      var u := s.(indices := Rotate(s.indices, newPos, idx), children := cs);
      CompactParts(u);
      if |cs| == 1 { RotatedFrom(s.children[idx := r.tree], newPos, idx, 0); }
    }
  }

  /** After any accepted registrations of supported patterns the tree is compressed. */
  lemma {:induction false} TableIsCompact(rs: seq<Route>)
    requires Supported(rs) && Consistent(rs)
    ensures Compact(RegisterAll(rs).tree)
  {
    hide RegisterAll, AddRoute, Shape, StandsFor, Supported, Consistent, Compact, SeparatedFrom, ForksInAscii;
    RegisterAllCorrect(rs);
    if rs == [] {
      CompactParts(EMPTY);
    } else {
      var init, last := rs[..|rs| - 1], rs[|rs| - 1];
      InitKeeps(rs);
      TableIsCompact(init);
      RegisterAllCorrect(init);
      RegisterSteps(rs);
      if init == [] {
        FirstCompact(last.pattern, last.handlers);
      } else {
        assert init + [last] == rs;
        NextIsApart(RegisterAll(init).tree, init, last);
        NextCompact(RegisterAll(init).tree, last.pattern, last.handlers);
      }
    }
  }

  lemma FirstCompact(p: bytes, h: Chain)
    ensures var r := AddRoute(EMPTY, p, h); r.status == Accepted ==> Compact(r.tree)
  {
    hide InsertChild, Compact;
    InsertCompact(Bump(EMPTY), p, h);
    var t := InsertChild(Bump(EMPTY), p, h).tree;
    GrowKeepsKind(Bump(EMPTY), p, h);
    CompactParts(t);
    CompactParts(t.(nType := Root));
  }

  lemma NextIsApart(t: Tree, rs: seq<Route>, r: Route)
    requires StandsFor(t, rs) && Supported(rs + [r])
    ensures SeparatedFrom(t, r.pattern) && ForksInAscii(t, r.pattern) && r.pattern != [] && r.pattern[0] == SLASH
  {
    hide Mixed, AsciiFork;
    var all := rs + [r];
    assert all[|rs|] == r;
    forall q, g | Registered(t, q, g)
      ensures !Mixed(r.pattern, q) && AsciiFork(r.pattern, q)
    {
      var i :| 0 <= i < |rs| && rs[i] == Route(q, g);
      assert all[i] == rs[i];
    }
  }

  lemma NextCompact(t: Tree, p: bytes, h: Chain)
    requires Shape(t) && t.nType == Root && Head(t) == SLASH && Compact(t) && p != [] && p[0] == SLASH
    requires SeparatedFrom(t, p) && ForksInAscii(t, p)
    ensures var r := AddRoute(t, p, h); r.status == Accepted ==> Compact(r.tree)
  {
    hide Walk, Compact;
    WalkCompact(t, p, h);
    var q, g := SomeRegistered(t);
    RegisteredStart(t, q, g);
  }
}
