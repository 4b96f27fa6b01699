/** When a registration ends. */
module TreeEnds {
  import opened Bytes
  import opened Wrappers
  import opened Patterns
  import opened PatternLemmas
  import opened RadixTree
  import opened TreeShape
  import opened TreeInsert
  import opened TreeWalk
  import opened RouteTable

  // ---- ASCII trees, whatever their shape ----

  /** No text in the tree holds a byte from 128 on. */
  predicate AsciiTree(t: Tree)
    decreases t, 0
  {
    Ascii(t.path) && AsciiTrees(t.children)
  }

  predicate AsciiTrees(cs: seq<Tree>)
    decreases cs, 0
  {
    forall i :: 0 <= i < |cs| ==> AsciiTree(cs[i])
  }

  lemma {:induction false} InsertAscii(t: Tree, p: bytes, h: Chain)
    requires AsciiTree(t) && Ascii(p)
    ensures AsciiTree(InsertChild(t, p, h).tree)
    decreases |p|, 0
  {
    hide FirstWild, SegmentEnd, AsciiTrees, Literal;
    match FindWildcard(p)
    case NoWildcard =>
    case Wildcard(text, start, valid) =>
      if valid && |text| >= 2 && text[0] == COLON {
        ParamAscii(text, p[start + |text|..], h);
        OneAscii(ParamNode(text, p[start + |text|..], h).tree);
      } else if start > 0 {
        BoundaryAscii(p[start - 1..], text[1..], h);
        OneAscii(Boundary(p[start - 1..], text[1..], h));
      }
  }

  lemma OneAscii(c: Tree)
    requires AsciiTree(c)
    ensures AsciiTrees([c])
  {}

  lemma BoundaryAscii(path: bytes, name: bytes, h: Chain)
    requires Ascii(path)
    ensures AsciiTree(Boundary(path, name, h))
  {
    assert AsciiTree(Boundary(path, name, h).children[0]);
  }

  lemma {:induction false} ParamAscii(text: bytes, rest: bytes, h: Chain)
    requires text != [] && Ascii(text) && Ascii(rest)
    ensures AsciiTree(ParamNode(text, rest, h).tree)
    decreases |rest|, 1
  {
    if rest != [] { InsertAscii(EMPTY.(priority := 1), rest, h); }
  }

  lemma BumpAscii(t: Tree)
    ensures AsciiTree(Bump(t)) == AsciiTree(t)
  {
    assert Bump(t).children == t.children;
  }

  lemma PromoteAscii(t: Tree, pos: nat, c: Tree)
    requires pos < |t.children| && pos < |t.indices| && AsciiTree(t) && AsciiTree(c)
    ensures AsciiTree(Promote(t, pos))
    ensures var s := Promote(t, pos); AsciiTree(s.(children := s.children[PromotedPos(t.children, pos) := c]))
  {
    hide PromotedPos;
    BumpAscii(t.children[pos]);
  }

  lemma InsertStaticAscii(t: Tree, rest: bytes, h: Chain)
    requires AsciiTree(t) && rest != [] && Ascii(rest)
    ensures AsciiTree(InsertStatic(t, rest, h).tree)
  {
    hide InsertStatic, InsertChild, PromotedPos, Promote, Rotate;
    InsertStaticCases(t, rest, h);
    var t1 := t.(indices := t.indices + RuneString(rest[0]), children := t.children + [EMPTY]);
    var last, pos := |t.children|, |t1.indices| - 1;
    assert t1.children == t.children + [EMPTY] && AsciiTree(EMPTY);
    assert forall i :: 0 <= i < |t1.children| ==> AsciiTree(t1.children[i]);
    if pos <= last {
      PromoteAscii(t1, pos, EMPTY);
      var s := Promote(t1, pos);
      var at := if pos == last then PromotedPos(t1.children, pos) else last;
      InsertAscii(s.children[at], rest, h);
    }
  }

  lemma SplitAscii(t: Tree, p: bytes)
    requires AsciiTree(t)
    ensures AsciiTree(SplitAt(Bump(t), p))
    ensures var i := CommonPrefix(p, t.path); i < |t.path| && i < |p| ==> p[i] !in SplitAt(Bump(t), p).indices
  {
    hide CommonPrefix;
    var s := SplitAt(Bump(t), p);
    if CommonPrefix(p, t.path) < |t.path| { assert AsciiTree(s.children[0]); }
  }

  /** A walk through an ASCII tree ends, for any path; an ASCII path leaves an ASCII tree. */
  lemma {:induction false} WalkEnds(t: Tree, p: bytes, h: Chain)
    requires AsciiTree(t)
    ensures Walk(t, p, h).status != Diverged
    ensures Ascii(p) ==> AsciiTree(Walk(t, p, h).tree)
    decreases Height(t), if t.nType == Param then 1 else 0, 2
  {
    hide WalkBelow, Height, MaxHeight, SplitAt, CommonPrefix, Walk;
    WalkUnfolds(t, p, h);
    SplitAscii(t, p);
    var i, s := CommonPrefix(p, t.path), SplitAt(Bump(t), p);
    if i < |p| {
      SplitHeight(t, p);
      BelowEnds(s, p[i..], i < |t.path|, h);
    }
  }

  lemma SplitHeight(t: Tree, p: bytes)
    ensures var i, s := CommonPrefix(p, t.path), SplitAt(Bump(t), p);
      s.nType == t.nType && Height(s) == if i < |t.path| then 1 + Height(t) else Height(t)
  {
    hide CommonPrefix, RuneString;
    var s := SplitAt(Bump(t), p);
    if CommonPrefix(p, t.path) < |t.path| {
      var tail := s.children[0];
      assert tail.children == t.children && Height(tail) == Height(t);
      assert s.children == [tail] && MaxHeight([tail]) == Height(tail);
    }
  }

  lemma {:induction false} BelowEnds(s: Tree, rest: bytes, split: bool, h: Chain)
    requires AsciiTree(s) && rest != []
    requires split ==> |s.children| == 1 && s.children[0].nType != Param && !s.wildChild && rest[0] !in s.indices
    ensures var r := WalkBelow(s, rest, split, h); r.status != Diverged && (Ascii(rest) ==> AsciiTree(r.tree))
    decreases if split then Height(s) - 1 else Height(s), if s.nType == Param then 1 else 0, 1
  {
    hide Walk, InsertStatic, InsertChild, Promote, PromotedPos, Rotate;
    var idx := IndexOf(s.indices, rest[0]);
    if s.nType == Param && rest[0] == SLASH && |s.children| == 1 {
      ChildEnds(s, 0, rest, split, h);
    } else if s.nType != Param && idx < |s.indices| {
      if idx < |s.children| {
        ChildEnds(s, idx, rest, split, h);
        PromoteAscii(s, idx, if Ascii(rest) then Walk(s.children[idx], rest, h).tree else EMPTY);
      }
    } else if !IsWild(rest[0]) && s.nType != CatchAll {
      if Ascii(rest) { InsertStaticAscii(s, rest, h); }
    } else if s.wildChild {
      var last := |s.children| - 1;
      if last >= 0 {
        if Follows(rest, s.children[last]) { ChildEnds(s, last, rest, split, h); }
        BumpAscii(s.children[last]);
      }
    } else if Ascii(rest) {
      InsertAscii(s, rest, h);
    }
  }

  lemma {:induction false} ChildEnds(s: Tree, k: nat, rest: bytes, split: bool, h: Chain)
    requires AsciiTree(s) && k < |s.children|
    requires split ==> |s.children| == 1 && s.children[0].nType != Param && s.nType == Param
    ensures var r := Walk(s.children[k], rest, h); r.status != Diverged && (Ascii(rest) ==> AsciiTree(r.tree))
    decreases if split then Height(s) - 1 else Height(s), if s.nType == Param then 1 else 0, 0
  {
    hide Walk;
    MaxHeightBounds(s.children, k);
    WalkEnds(s.children[k], rest, h);
  }

  /** On a table of ASCII patterns every registration ends, whatever the new pattern is. */
  lemma {:induction false} AsciiTableEnds(rs: seq<Route>)
    requires forall i :: 0 <= i < |rs| - 1 ==> Ascii(rs[i].pattern)
    ensures RegisterAll(rs).status != Diverged
    ensures (forall i :: 0 <= i < |rs| ==> Ascii(rs[i].pattern)) ==> AsciiTree(RegisterAll(rs).tree)
  {
    hide Walk, InsertChild;
    if rs == [] {
      assert AsciiTree(EMPTY);
    } else {
      var init, last := rs[..|rs| - 1], rs[|rs| - 1];
      AsciiTableEnds(init);
      var t := RegisterAll(init).tree;
      WalkEnds(t, last.pattern, last.handlers);
      BumpAscii(t);
      if Ascii(last.pattern) { InsertAscii(Bump(t), last.pattern, last.handlers); }
      RootAscii(InsertChild(Bump(t), last.pattern, last.handlers).tree);
    }
  }

  lemma RootAscii(t: Tree)
    ensures AsciiTree(t.(nType := Root)) == AsciiTree(t)
  {
    assert t.(nType := Root).children == t.children;
  }

  // ---- exactly which registration does not end ----

  /** The new pattern `p` leaves the registered one `q` in the middle of literal text, at a byte from 128
      on, and goes on with the byte that the tree files that text under. */
  predicate Trap(p: bytes, q: bytes)
    decreases |p|
  {
    if p == [] || q == [] then false
    else if p[0] != q[0] then q[0] >= 128 && p[0] == RuneString(q[0])[0]
    else if StartsCatchAll(q) then false
    else if q[0] == COLON then
      var n, m := SegmentEnd(p), SegmentEnd(q);
      p[..n] == q[..m] && Trap(p[n..], q[m..])
    else Trap(p[1..], q[1..])
  }

  ghost predicate Trapped(t: Tree, p: bytes) {
    exists q, g :: Registered(t, q, g) && Trap(p, q)
  }

  ghost predicate TrappedIn(cs: seq<Tree>, p: bytes) {
    exists q, g :: InSome(cs, q, g) && Trap(p, q)
  }

  /** For a registered pattern without wildcards only the place where the two part counts. */
  lemma {:induction false} TrapInLiteral(p: bytes, q: bytes)
    requires Literal(q)
    ensures Trap(p, q) <==>
      var i := CommonPrefix(p, q); i < |p| && i < |q| && q[i] >= 128 && p[i] == RuneString(q[i])[0]
    decreases |p|
  {
    if p != [] && q != [] && p[0] == q[0] {
      TrapInLiteral(p[1..], q[1..]);
    }
  }

  lemma {:induction false} TrapLiteral(x: bytes, p: bytes, q: bytes)
    requires Literal(x) && NoStar(q)
    ensures Trap(x + p, x + q) == Trap(p, q)
  {
    if x == [] {
      assert x + p == p && x + q == q;
    } else {
      DropWithin(x, p, 1);
      DropWithin(x, q, 1);
      NoCatchAllAcross(x, q);
      TrapLiteral(x[1..], p, q);
    }
  }

  lemma TrapParam(name: bytes, p: bytes, q: bytes)
    requires ValidName(name) && AfterParam(p) && AfterParam(q)
    ensures Trap([COLON] + name + p, [COLON] + name + q) == Trap(p, q)
  {
    ParamSegment(name, p);
    ParamSegment(name, q);
    assert ([COLON] + name + p)[..1 + |name|] == [COLON] + name == ([COLON] + name + q)[..1 + |name|];
  }

  lemma TrapBelow(t: Tree, p: bytes, q: bytes)
    requires Shape(t) && t.nType != CatchAll && (t.nType == Param ==> AfterParam(p)) && Continues(t, q)
    ensures Trap(t.path + p, t.path + q) == Trap(p, q)
  {
    if t.nType == Param { TrapParam(t.paramName, p, q); } else { TrapLiteral(t.path, p, q); }
  }

  /** A path that goes on below `t` is trapped exactly by what is below. */
  lemma TrappedBelow(t: Tree, rest: bytes)
    requires Shape(t) && t.nType != CatchAll && (t.nType == Param ==> AfterParam(rest))
    ensures Trapped(t, t.path + rest) <==> TrappedIn(t.children, rest)
  {
    hide Trap, Shape;
    if q, g :| Registered(t, q, g) && Trap(t.path + rest, q) {
      var r := RouteCases(t, q, g);
      TrapBelow(t, rest, r);
      NoTrap(rest);
    }
    if r, g :| InSome(t.children, r, g) && Trap(rest, r) {
      var i :| 0 <= i < |t.children| && Registered(t.children[i], r, g);
      RegisteredBelow(t, i, r, g);
      var r' := RouteCases(t, t.path + r, g);
      assert r' == r by { assert (t.path + r')[|t.path|..] == r' && (t.path + r)[|t.path|..] == r; }
      TrapBelow(t, rest, r);
    }
  }

  lemma NoTrap(p: bytes)
    ensures !Trap(p, []) && !Trap([], p)
  {}

  /** A path that parts from the first byte of an ASCII-headed node is not trapped there. */
  lemma OtherHead(p: bytes, q: bytes)
    requires p != [] && q != [] && p[0] != q[0] && q[0] < 128
    ensures !Trap(p, q)
  {}

  /** Only the child that the next byte selects can trap. */
  lemma TrappedInOnly(t: Tree, idx: nat, rest: bytes)
    requires Shape(t) && t.nType != CatchAll && !t.wildChild && rest != []
    requires idx < |t.children| && idx < |t.indices| && t.indices[idx] == rest[0]
    ensures TrappedIn(t.children, rest) <==> Trapped(t.children[idx], rest)
  {
    hide Trap;
    if r, g :| InSome(t.children, r, g) && Trap(rest, r) {
      RoutePlace(t, r, g);
      if r[0] != rest[0] { OtherHead(rest, r); }
    }
    if q, g :| Registered(t.children[idx], q, g) && Trap(rest, q) {
      assert InSome(t.children, q, g);
    }
  }

  /** Where no child is selected nothing traps. */
  lemma TrappedInNone(t: Tree, rest: bytes)
    requires Shape(t) && t.nType != CatchAll && rest != [] && rest[0] !in t.indices && (t.wildChild ==> rest[0] != COLON)
    ensures !TrappedIn(t.children, rest)
  {
    hide Trap;
    if r, g :| InSome(t.children, r, g) && Trap(rest, r) {
      RoutePlace(t, r, g);
      OtherHead(rest, r);
    }
  }

  /** The path parts from the node's text in the middle. */
  lemma TrappedInText(t: Tree, p: bytes)
    requires Shape(t) && (t.nType == Static || t.nType == Root)
    requires CommonPrefix(p, t.path) < |t.path|
    ensures var i := CommonPrefix(p, t.path);
      Trapped(t, p) <==> i < |p| && t.path[i] >= 128 && p[i] == RuneString(t.path[i])[0]
  {
    hide Trap;
    var i := CommonPrefix(p, t.path);
    assert p == t.path[..i] + p[i..];
    forall q, g | Registered(t, q, g)
      ensures Trap(p, q) <==> i < |p| && t.path[i] >= 128 && p[i] == RuneString(t.path[i])[0]
    {
      RegisteredStart(t, q, g);
      TextTrap(t.path, i, p[i..], q);
    }
    var q, g := SomeRegistered(t);
  }

  lemma TextTrap(x: bytes, i: nat, p: bytes, q: bytes)
    requires i < |x| && Literal(x) && x <= q && (p != [] ==> p[0] != x[i])
    ensures Trap(x[..i] + p, q) <==> p != [] && x[i] >= 128 && p[0] == RuneString(x[i])[0]
  {
    assert q == x[..i] + q[i..] && q[i..][0] == x[i];
    TrapLiteral(x[..i], p, q[i..]);
  }

  lemma BoundaryTraps(t: Tree, p: bytes, h: Chain)
    requires Shape(t) && Enters(t, p) && t.nType == CatchAll
    ensures Walk(t, p, h).status == Rejected && !Trapped(t, p)
  {
    hide Walk, Registered;
    BoundaryRejects(t, p, h);
    forall q, g | Registered(t, q, g)
      ensures !Trap(p, q)
    {
      BoundaryRoute(t, q, g);
    }
  }

  lemma BoundaryRoute(t: Tree, q: bytes, g: Chain)
    requires Shape(t) && t.nType == CatchAll && Registered(t, q, g)
    ensures StartsCatchAll(q) && q[0] == SLASH
  {
    hide Registered, InSome;
    var r := RouteCases(t, q, g);
    assert q == r;
    OneHolds(t.children, r, g);
    LeafRoute(t.children[0], r, g);
  }

  lemma OneHolds(cs: seq<Tree>, r: bytes, g: Chain)
    requires |cs| == 1 && InSome(cs, r, g)
    ensures Registered(cs[0], r, g)
  {}

  lemma LeafRoute(leaf: Tree, r: bytes, g: Chain)
    requires IsLeaf(leaf) && Registered(leaf, r, g)
    ensures StartsCatchAll(r)
  {}

  /** Behind a cut the walk comes back to the cut text exactly when its index starts with the next byte. */
  lemma SplitDiverges(t: Tree, p: bytes, h: Chain)
    requires t.nType != Param && CommonPrefix(p, t.path) < |t.path| && CommonPrefix(p, t.path) < |p|
    ensures var i := CommonPrefix(p, t.path);
      Walk(t, p, h).status == Diverged <==> t.path[i] >= 128 && p[i] == RuneString(t.path[i])[0]
  {
    hide CommonPrefix, InsertStatic, InsertChild, Walk;
    WalkUnfolds(t, p, h);
    var i, s := CommonPrefix(p, t.path), SplitAt(Bump(t), p);
    assert s.indices == RuneString(t.path[i]);
  }

  lemma EndsUntrapped(t: Tree)
    ensures !TrappedIn(t.children, [])
  {}

  /** The walk goes on behind a node it has not cut. */
  lemma {:induction false} BelowDiverges(t: Tree, rest: bytes, h: Chain)
    requires Shape(t) && t.nType != CatchAll && rest != [] && (t.nType == Param ==> AfterParam(rest))
    ensures WalkBelow(Bump(t), rest, false, h).status == Diverged <==> TrappedIn(t.children, rest)
    decreases t, 1
  {
    hide Walk, WalkBelow, Trapped, TrappedIn, Registered;
    if rest[0] in t.indices {
      var idx := IndexOf(t.indices, rest[0]);
      ChildShape(t, idx);
      BelowSelected(t, idx, rest, h);
      TrappedInOnly(t, idx, rest);
      WalkDiverges(t.children[idx], rest, h);
    } else if t.wildChild && rest[0] == COLON {
      OnlyTrapped(t, rest);
      BelowParamChild(t, rest, h);
      if Follows(rest, t.children[0]) {
        WalkDiverges(t.children[0], rest, h);
      } else {
        WrongParamTraps(t.children[0], rest);
      }
    } else {
      TrappedInNone(t, rest);
      BelowNothing(t, rest, h);
    }
  }

  lemma BelowSelected(t: Tree, idx: nat, rest: bytes, h: Chain)
    requires Shape(t) && t.nType != CatchAll && rest != [] && (t.nType == Param ==> AfterParam(rest))
    requires idx == IndexOf(t.indices, rest[0]) < |t.indices| && idx < |t.children|
    ensures WalkBelow(Bump(t), rest, false, h).status == Walk(t.children[idx], rest, h).status
    ensures Enters(t.children[idx], rest) && !t.wildChild
  {
    hide Walk, InsertStatic, InsertChild, Registered, Promote;
    ChildShape(t, idx);
  }

  lemma BelowParamChild(t: Tree, rest: bytes, h: Chain)
    requires Shape(t) && t.nType != CatchAll && rest != [] && t.wildChild && rest[0] == COLON
    ensures Follows(rest, t.children[0]) ==>
      WalkBelow(Bump(t), rest, false, h).status == Walk(t.children[0], rest, h).status && Enters(t.children[0], rest)
    ensures !Follows(rest, t.children[0]) ==> WalkBelow(Bump(t), rest, false, h).status == Rejected
  {
    hide Walk, InsertStatic, InsertChild, Registered;
  }

  lemma BelowNothing(t: Tree, rest: bytes, h: Chain)
    requires Shape(t) && t.nType != CatchAll && rest != [] && (t.nType == Param ==> AfterParam(rest))
    requires rest[0] !in t.indices && !(t.wildChild && rest[0] == COLON)
    ensures WalkBelow(Bump(t), rest, false, h).status != Diverged
  {
    hide Walk, InsertStatic, InsertChild, Registered;
    if t.wildChild { assert t.children[0].path[0] == COLON; }
  }

  lemma OnlyTrapped(t: Tree, rest: bytes)
    requires |t.children| == 1
    ensures TrappedIn(t.children, rest) <==> Trapped(t.children[0], rest)
  {
    hide Trap;
    assert forall q, g :: InSome(t.children, q, g) <==> Registered(t.children[0], q, g);
  }

  /** A parameter of another name is refused, not trapped. */
  lemma WrongParamTraps(w: Tree, rest: bytes)
    requires Shape(w) && w.nType == Param && rest != [] && rest[0] == COLON && !Follows(rest, w)
    ensures !Trapped(w, rest)
  {
    forall q, g | Registered(w, q, g)
      ensures !Trap(rest, q)
    {
      RegisteredStart(w, q, g);
      ParamSegment(w.paramName, q[|w.path|..]);
      assert q == [COLON] + w.paramName + q[|w.path|..];
      assert q[..SegmentEnd(q)] == w.path;
      assert rest[..SegmentEnd(rest)] != w.path;
    }
  }

  /** A registration on a well-shaped tree ends unless one of its routes is a trap. */
  lemma {:induction false} WalkDiverges(t: Tree, p: bytes, h: Chain)
    requires Shape(t) && Enters(t, p)
    ensures Walk(t, p, h).status == Diverged <==> Trapped(t, p)
    decreases t, 2
  {
    hide Walk, WalkBelow, Shape, SplitAt, CommonPrefix, Trapped, TrappedIn;
    if t.nType == Param { ParamEntered(t, p); }
    var i, s := CommonPrefix(p, t.path), SplitAt(Bump(t), p);
    WalkUnfolds(t, p, h);
    if t.nType == CatchAll {
      BoundaryTraps(t, p, h);
    } else if i < |t.path| {
      TrappedInText(t, p);
      if i < |p| { SplitDiverges(t, p, h); }
    } else {
      assert p == t.path + p[i..];
      TrappedBelow(t, p[i..]);
      if i < |p| {
        WholeText(t, p, h);
        BelowDiverges(t, p[i..], h);
      } else {
        assert p[i..] == [];
        EndsUntrapped(t);
      }
    }
  }

  /** The next registration on a table of supported, consistent patterns: it never ends exactly when some
      route of the table is a trap for it. */
  lemma NextRouteDiverges(rs: seq<Route>, r: Route)
    requires Supported(rs) && Consistent(rs) && r.pattern != [] && r.pattern[0] == SLASH
    ensures RegisterAll(rs + [r]).status == Diverged <==> exists j :: 0 <= j < |rs| && Trap(r.pattern, rs[j].pattern)
  {
    hide RegisterAll, AddRoute, Trap, Shape, Supported, Consistent, Registered, Trapped;
    RegisterAllCorrect(rs);
    RegisterLast(rs, r);
    if rs == [] {
      FirstEnds(r);
    } else {
      var t := RegisterAll(rs).tree;
      AddDiverges(t, r.pattern, r.handlers);
      TrappedInList(t, rs, r.pattern);
    }
  }

  lemma FirstEnds(r: Route)
    ensures AddRoute(EMPTY, r.pattern, r.handlers).status != Diverged
  {
    hide InsertChild;
  }

  lemma AddDiverges(t: Tree, p: bytes, h: Chain)
    requires Shape(t) && t.nType == Root && Head(t) == SLASH && p != [] && p[0] == SLASH
    ensures AddRoute(t, p, h).status == Diverged <==> Trapped(t, p)
  {
    hide Walk, Trapped;
    WalkDiverges(t, p, h);
  }

  lemma TrappedInList(t: Tree, rs: seq<Route>, p: bytes)
    requires StandsFor(t, rs)
    ensures Trapped(t, p) <==> exists j :: 0 <= j < |rs| && Trap(p, rs[j].pattern)
  {
    hide Trap;
    if j :| 0 <= j < |rs| && Trap(p, rs[j].pattern) {
      assert Route(rs[j].pattern, rs[j].handlers) in rs;
      assert Registered(t, rs[j].pattern, rs[j].handlers);
    }
    if q, g :| Registered(t, q, g) && Trap(p, q) {
      var j :| 0 <= j < |rs| && rs[j] == Route(q, g);
    }
  }
}
