/** Registration: which patterns are accepted, and what an accepted one changes. */
module TreeInsert {
  import opened Bytes
  import opened Wrappers
  import opened Patterns
  import opened PatternLemmas
  import opened RadixTree
  import opened TreeShape

  /** `t'` has the routes of `t` and the new one. */
  ghost predicate AddsRoute(t: Tree, t': Tree, p: bytes, h: Chain) {
    forall q, g :: Registered(t', q, g) <==> Registered(t, q, g) || (q == p && g == h)
  }

  /** `p` clashes with no route of `t`. */
  ghost predicate Compatible(t: Tree, p: bytes) {
    forall q, g :: Registered(t, q, g) ==> !Clash(p, q)
  }

  /** `p` and the routes of `t` never put a parameter against a literal byte. */
  ghost predicate SeparatedFrom(t: Tree, p: bytes) {
    forall q, g :: Registered(t, q, g) ==> !Mixed(p, q)
  }

  /** `p` and each route of `t` part, or go on one behind the other, at bytes below 128. */
  ghost predicate ForksInAscii(t: Tree, p: bytes) {
    forall q, g :: Registered(t, q, g) ==> AsciiFork(p, q)
  }

  /** `p` is a path that a parent sends to `t`. */
  predicate Enters(t: Tree, p: bytes) {
    if t.nType == Param then t.path <= p && AfterParam(p[|t.path|..]) else p != [] && p[0] == Head(t)
  }

  /** What a registration of `p` below `t` promises. */
  ghost predicate Correct(t: Tree, p: bytes, h: Chain, r: Outcome) {
    && (r.status == Accepted <==> WellFormed(p) && Compatible(t, p))
    && (r.status == Accepted ==>
      && Shape(r.tree) && r.tree.nType == t.nType && Head(r.tree) == Head(t) && AddsRoute(t, r.tree, p, h))
  }

  // ---- growing new nodes ----

  /** A node that stands for exactly one route. */
  ghost predicate Only(t: Tree, p: bytes, h: Chain) {
    forall q, g :: Registered(t, q, g) <==> q == p && g == h
  }

  lemma OnlyLeaf(t: Tree, p: bytes, h: Chain)
    requires t.children == [] && t.path == p && t.handlers == Some(h)
    ensures Only(t, p, h)
  {
    forall q, g ensures Registered(t, q, g) <==> q == p && g == h {
      assert t.path <= q ==> !InSome(t.children, q[|t.path|..], g);
    }
  }

  lemma OnlyAbove(t: Tree, p: bytes, h: Chain)
    requires |t.children| == 1 && t.handlers.None? && Only(t.children[0], p, h)
    ensures Only(t, t.path + p, h)
  {
    forall q, g ensures Registered(t, q, g) <==> q == t.path + p && g == h {
      if t.path <= q {
        var r := q[|t.path|..];
        assert q == t.path + r;
        assert InSome(t.children, r, g) <==> Registered(t.children[0], r, g);
      }
      assert (t.path + p)[|t.path|..] == p;
    }
  }

  /** A fresh node at which a pattern that starts with a literal byte is grown. */
  predicate Fresh(t: Tree) {
    t.path == [] && t.indices == [] && t.children == [] && t.handlers.None? && !t.wildChild && t.nType == Static
  }

  ghost predicate GrownParam(p: bytes, h: Chain, r: Outcome) {
    && (r.status == Accepted <==> WellFormed(p))
    && (r.status == Accepted ==> Shape(r.tree) && r.tree.nType == Param && Only(r.tree, p, h))
  }

  ghost predicate Grown(t: Tree, p: bytes, h: Chain, r: Outcome) {
    && (r.status == Accepted <==> WellFormed(p))
    && (r.status == Accepted ==> Shape(r.tree) && r.tree.nType == Static && Only(r.tree, p, h))
  }

  /** The wildcard segment at the front of `q`: it is valid and named iff its name is. */
  lemma WildcardText(q: bytes)
    requires q != [] && IsWild(q[0])
    ensures var text := q[..SegmentEnd(q)];
      |text| >= 1 && (ValidName(text[1..]) <==> Literal(text[1..]) && |text| >= 2)
  {
    var text := q[..SegmentEnd(q)];
    assert forall k :: 0 <= k < |text| - 1 ==> text[1..][k] == q[k + 1];
  }

  lemma {:induction false} ParamNodeCorrect(name: bytes, rest: bytes, h: Chain)
    requires ValidName(name) && AfterParam(rest)
    ensures GrownParam([COLON] + name + rest, h, ParamNode([COLON] + name, rest, h))
    decreases |rest|, 3
  {
    var text := [COLON] + name;
    var r := ParamNode(text, rest, h);
    assert text[1..] == name;
    WellFormedParam(name, rest);
    if rest == [] {
      assert text + rest == text;
      OnlyLeaf(r.tree, text, h);
    } else {
      GrowFresh(EMPTY.(priority := 1), rest, h);
      if r.status == Accepted {
        var c := r.tree.children[0];
        RegisteredStart(c, rest, h);
        assert SelectedBy(c, SLASH);
        OnlyAbove(r.tree, rest, h);
      }
    }
  }

  lemma {:induction false} GrowFresh(t: Tree, p: bytes, h: Chain)
    requires Fresh(t) && p != [] && !IsWild(p[0])
    ensures Grown(t, p, h, InsertChild(t, p, h))
    decreases |p|, 2
  {
    var i := FirstWild(p);
    assert p == p[..i] + p[i..];
    if i == |p| {
      WellFormedLiteral(p, []);
      assert p + [] == p;
      OnlyLeaf(InsertChild(t, p, h).tree, p, h);
    } else if p[i] == COLON {
      GrowFreshParam(t, p, i, h);
    } else {
      GrowFreshCatchAll(t, p, i, h);
    }
  }

  lemma {:induction false} GrowFreshParam(t: Tree, p: bytes, i: nat, h: Chain)
    requires Fresh(t) && 0 < i == FirstWild(p) < |p| && p[i] == COLON
    ensures Grown(t, p, h, InsertChild(t, p, h))
    decreases |p|, 1
  {
    assert p == p[..i] + p[i..];
    WellFormedLiteral(p[..i], p[i..]);
    InsertParam(t, p, i, h);
    var r := InsertChild(t, p, h);
    if r.status == Accepted {
      OnlyAbove(r.tree, p[i..], h);
    }
  }

  /** Growing at a parameter after `i` literal bytes adds one parameter child. */
  lemma {:induction false} InsertParam(t: Tree, p: bytes, i: nat, h: Chain)
    requires i == FirstWild(p) < |p| && p[i] == COLON
    ensures var r := InsertChild(t, p, h);
      && (r.status == Accepted <==> WellFormed(p[i..]))
      && (r.status == Accepted ==>
        && |r.tree.children| == 1
        && r.tree == t.(path := if i > 0 then p[..i] else t.path, children := r.tree.children, wildChild := true)
        && Shape(r.tree.children[0]) && r.tree.children[0].nType == Param && Only(r.tree.children[0], p[i..], h))
    decreases |p|, 0
  {
    hide InsertChild, ParamNode, Shape, Only, WellFormed, FirstWild, SegmentEnd;
    var q := p[i..];
    WildcardText(q);
    var text := q[..SegmentEnd(q)];
    var rest := q[SegmentEnd(q)..];
    ParamSteps(t, p, i, h);
    assert text + rest == q;
    if ValidName(text[1..]) {
      assert text == [COLON] + text[1..];
      ParamNodeCorrect(text[1..], rest, h);
    }
  }

  /** What `insertChild` does at a parameter, and what makes it refuse. */
  lemma ParamSteps(t: Tree, p: bytes, i: nat, h: Chain)
    requires i == FirstWild(p) < |p| && p[i] == COLON
    ensures var q := p[i..];
      var text, rest := q[..SegmentEnd(q)], q[SegmentEnd(q)..];
      && |text| >= 1 && AfterParam(rest) && |rest| < |p|
      && (WellFormed(q) ==> ValidName(text[1..]))
      && (!ValidName(text[1..]) ==> InsertChild(t, p, h).status == Rejected)
      && (ValidName(text[1..]) ==>
        var param := ParamNode(text, rest, h);
        InsertChild(t, p, h) == Outcome(t.(path := if i > 0 then p[..i] else t.path, children := [param.tree], wildChild := true), param.status))
  {
    hide ParamNode;
    var q := p[i..];
    WildcardText(q);
    var text := q[..SegmentEnd(q)];
    assert text[1..] == q[1..SegmentEnd(q)] && p[i + |text|..] == q[SegmentEnd(q)..];
    assert FindWildcard(p) == Wildcard(text, i, Literal(text[1..]));
  }

  lemma {:induction false} GrowFreshCatchAll(t: Tree, p: bytes, i: nat, h: Chain)
    requires Fresh(t) && 0 < i == FirstWild(p) < |p| && p[i] == STAR
    ensures Grown(t, p, h, InsertChild(t, p, h))
  {
    hide WellFormed, InsertChild, Only, Shape;
    var q := p[i..];
    assert p == p[..i] + q;
    if p[i - 1] != SLASH {
      StrayStar(p[..i], q);
      NoSlashRejects(t, p, i, h);
    } else {
      var x, y := p[..i - 1], p[i - 1..];
      assert p == x + y && y[1..] == q;
      WellFormedLiteral(x, y);
      InsertCatchAll(t, p, i, h);
      if WellFormed(y) { CatchAllParent(t, x, y, h); }
    }
  }

  /** The node above a catch-all's boundary. */
  lemma CatchAllParent(t: Tree, x: bytes, y: bytes, h: Chain)
    requires Fresh(t) && Literal(x) && StartsCatchAll(y) && ValidName(y[2..])
    ensures var r := t.(path := x, indices := [SLASH], children := [Boundary(y, y[2..], h)]);
      Shape(r) && Only(r, x + y, h)
  {
    BoundaryCorrect(y, h);
    OnlyAbove(t.(path := x, indices := [SLASH], children := [Boundary(y, y[2..], h)]), y, h);
  }

  lemma NoSlashRejects(t: Tree, p: bytes, i: nat, h: Chain)
    requires 0 < i == FirstWild(p) < |p| && p[i] == STAR && p[i - 1] != SLASH
    ensures InsertChild(t, p, h).status == Rejected
  {
  }

  lemma BoundaryCorrect(y: bytes, h: Chain)
    requires StartsCatchAll(y) && ValidName(y[2..])
    ensures SelectedBy(Boundary(y, y[2..], h), SLASH) && Only(Boundary(y, y[2..], h), y, h)
  {
    var b := Boundary(y, y[2..], h);
    assert y == [SLASH, STAR] + y[2..];
    OnlyLeaf(b.children[0], y, h);
    OnlyAbove(b, y, h);
    assert b.path + y == y;
  }

  /** Growing at a catch-all after `i` bytes, the last of them '/'. */
  lemma InsertCatchAll(t: Tree, p: bytes, i: nat, h: Chain)
    requires t.path == [] && 0 < i == FirstWild(p) < |p| && p[i] == STAR && p[i - 1] == SLASH
    ensures var r, y := InsertChild(t, p, h), p[i - 1..];
      && (r.status == Accepted <==> WellFormed(y))
      && (r.status == Accepted ==>
        && ValidName(y[2..])
        && r.tree == t.(path := p[..i - 1], indices := [SLASH], children := [Boundary(y, y[2..], h)]))
  {
    var q, y := p[i..], p[i - 1..];
    assert y[2..] == q[1..] && StartsCatchAll(y);
    WildcardText(q);
    var text := q[..SegmentEnd(q)];
    if i + |text| == |p| {
      assert text == q;
    } else {
      assert q[SegmentEnd(q)] == SLASH;
      assert q[1..][SegmentEnd(q) - 1] == SLASH;
    }
  }

  // ---- seeing a node's routes through its children ----

  /** The part of a path below node `t`. */
  predicate Continues(t: Tree, rest: bytes) {
    if t.nType == Param then AfterParam(rest) else NoStar(rest)
  }

  lemma ClashBelow(t: Tree, p: bytes, q: bytes)
    requires Shape(t) && t.nType != CatchAll && Continues(t, p) && Continues(t, q)
    ensures Clash(t.path + p, t.path + q) == Clash(p, q)
  {
    if t.nType == Param { ClashParam(t.paramName, p, q); } else { ClashLiteral(t.path, p, q); }
  }

  lemma WellFormedBelow(t: Tree, p: bytes)
    requires Shape(t) && t.nType != CatchAll && Continues(t, p)
    ensures WellFormed(t.path + p) == WellFormed(p)
  {
    if t.nType == Param { WellFormedParam(t.paramName, p); } else { WellFormedLiteral(t.path, p); }
  }

  /** A route of `t` is its own path or a route below one of its children. */
  lemma RouteCases(t: Tree, q: bytes, g: Chain) returns (r: bytes)
    requires Shape(t) && Registered(t, q, g)
    ensures q == t.path + r
    ensures t.nType != CatchAll ==> Continues(t, r)
    ensures if r == [] then t.handlers == Some(g) else InSome(t.children, r, g)
  {
    RegisteredStart(t, q, g);
    r := q[|t.path|..];
    if InSome(t.children, r, g) {
      var i :| 0 <= i < |t.children| && Registered(t.children[i], r, g);
      if t.nType != CatchAll {
        ChildShape(t, i);
        RegisteredStart(t.children[i], r, g);
      }
    }
  }

  ghost predicate CompatibleIn(cs: seq<Tree>, p: bytes) {
    forall q, g :: InSome(cs, q, g) ==> !Clash(p, q)
  }

  /** A path that goes on below `t` is compatible with `t` iff it is with what is below. */
  lemma CompatibleBelow(t: Tree, rest: bytes)
    requires Shape(t) && t.nType != CatchAll && Continues(t, rest) && rest != []
    ensures Compatible(t, t.path + rest) <==> CompatibleIn(t.children, rest)
  {
    if CompatibleIn(t.children, rest) {
      forall q, g | Registered(t, q, g)
        ensures !Clash(t.path + rest, q)
      {
        var r := RouteCases(t, q, g);
        ClashBelow(t, rest, r);
      }
    }
    if Compatible(t, t.path + rest) {
      forall r, g | InSome(t.children, r, g)
        ensures !Clash(rest, r)
      {
        var i :| 0 <= i < |t.children| && Registered(t.children[i], r, g);
        RegisteredBelow(t, i, r, g);
        var r' := RouteCases(t, t.path + r, g);
        assert r' == r by { assert (t.path + r')[|t.path|..] == r' && (t.path + r)[|t.path|..] == r; }
        ClashBelow(t, rest, r);
      }
    }
  }

  /** Separation carries over to the children. */
  lemma SeparatedBelow(t: Tree, i: nat, rest: bytes)
    requires i < |t.children| && SeparatedFrom(t, t.path + rest)
    ensures SeparatedFrom(t.children[i], rest)
  {
    forall q, g | Registered(t.children[i], q, g)
      ensures !Mixed(rest, q)
    {
      RegisteredBelow(t, i, q, g);
      MixedPrefix(t.path, rest, q);
    }
  }

  /** So do the bytes at which paths part. */
  lemma ForksBelow(t: Tree, i: nat, rest: bytes)
    requires i < |t.children| && ForksInAscii(t, t.path + rest)
    ensures ForksInAscii(t.children[i], rest)
  {
    hide AsciiFork;
    forall q, g | Registered(t.children[i], q, g)
      ensures AsciiFork(rest, q)
    {
      RegisteredBelow(t, i, q, g);
      ForkPrefix(t.path, rest, q);
    }
  }

  /** The byte at which a path parts from a node's text is below 128. */
  lemma ForkByte(t: Tree, p: bytes)
    requires Shape(t) && ForksInAscii(t, p) && CommonPrefix(p, t.path) < |t.path|
    ensures t.path[CommonPrefix(p, t.path)] < 128
  {
    var i := CommonPrefix(p, t.path);
    var q, g := SomeRegistered(t);
    RegisteredStart(t, q, g);
    assert q[..|t.path|] == t.path;
    assert q[..i] == t.path[..i];
    CommonPrefixUnique(p, q, i);
    assert AsciiFork(p, q);
  }

  /** The child that holds a route, from the route's first byte. */
  lemma RoutePlace(t: Tree, r: bytes, g: Chain)
    requires Shape(t) && t.nType != CatchAll && InSome(t.children, r, g)
    ensures r != []
    ensures t.wildChild ==> r[0] == COLON && Registered(t.children[0], r, g)
    ensures !t.wildChild ==> !IsWild(r[0]) && r[0] in t.indices && Distinct(t.indices) && |t.indices| == |t.children|
    ensures !t.wildChild ==> r[0] < 128 && Registered(t.children[IndexOf(t.indices, r[0])], r, g)
  {
    var i :| 0 <= i < |t.children| && Registered(t.children[i], r, g);
    ChildShape(t, i);
    RegisteredStart(t.children[i], r, g);
    if t.wildChild { assert r[0] == t.children[i].path[0]; }
  }

  /** So is the byte with which a path goes on where no child fits. */
  lemma ForkBelow(t: Tree, rest: bytes)
    requires Shape(t) && t.nType != CatchAll && rest != [] && rest[0] !in t.indices && rest[0] != COLON
    requires ForksInAscii(t, t.path + rest)
    ensures rest[0] < 128
  {
    var q, g := SomeRegistered(t);
    var r := RouteCases(t, q, g);
    if r != [] { RoutePlace(t, r, g); }
    assert (t.path + rest)[..|t.path|] == t.path && q[..|t.path|] == t.path;
    CommonPrefixUnique(t.path + rest, q, |t.path|);
    assert AsciiFork(t.path + rest, q);
  }

  /** A separated path does not start with a parameter where a route starts with a literal byte,
      nor the other way round. */
  lemma SeparatedHead(t: Tree, p: bytes)
    requires Shape(t) && SeparatedFrom(t, p) && p != []
    ensures t.nType == Param ==> IsWild(p[0])
    ensures t.nType != Param ==> p[0] != COLON
  {
    var q, g := SomeRegistered(t);
    RegisteredStart(t, q, g);
    if t.nType == Param { assert q[0] == t.path[0]; }
    if MixedAt(p, q, 0) { assert Mixed(p, q); }
  }

  /** The children `cs'` have the routes of `cs` and one more. */
  ghost predicate AddsIn(cs: seq<Tree>, cs': seq<Tree>, p: bytes, h: Chain) {
    forall q, g :: InSome(cs', q, g) <==> InSome(cs, q, g) || (q == p && g == h)
  }

  lemma RotateAddsIn(cs: seq<Tree>, cs': seq<Tree>, newPos: nat, pos: nat, p: bytes, h: Chain)
    requires newPos <= pos < |cs'| && AddsIn(cs, cs', p, h)
    ensures AddsIn(cs, Rotate(cs', newPos, pos), p, h)
  {
    forall q, g { RotateInSome(cs', newPos, pos, q, g); }
  }

  /** Two nodes that differ only in their children, one of which has one more route below. */
  lemma AddsBelow(t: Tree, t': Tree, rest: bytes, h: Chain)
    requires t'.path == t.path && t'.handlers == t.handlers
    requires AddsIn(t.children, t'.children, rest, h)
    ensures AddsRoute(t, t', t.path + rest, h)
  {
    forall q, g
      ensures Registered(t', q, g) <==> Registered(t, q, g) || (q == t.path + rest && g == h)
    {
      if t.path <= q {
        var r := q[|t.path|..];
        assert q == t.path + r;
        assert (t.path + rest)[|t.path|..] == rest;
      }
    }
  }

  /** Replacing child `i` by one with one more route. */
  lemma ReplaceChild(cs: seq<Tree>, i: nat, c: Tree, rest: bytes, h: Chain)
    requires i < |cs| && AddsRoute(cs[i], c, rest, h)
    ensures AddsIn(cs, cs[i := c], rest, h)
  {
    forall r, g
      ensures InSome(cs[i := c], r, g) <==> InSome(cs, r, g) || (r == rest && g == h)
    {
      if InSome(cs[i := c], r, g) {
        var k :| 0 <= k < |cs| && Registered(cs[i := c][k], r, g);
        assert k != i ==> Registered(cs[k], r, g);
      }
      if InSome(cs, r, g) {
        var k :| 0 <= k < |cs| && Registered(cs[k], r, g);
        assert Registered(cs[i := c][k], r, g);
      }
      if r == rest && g == h { assert Registered(cs[i := c][i], r, g); }
    }
  }

  /** Adding a child that stands for one route. */
  lemma AppendChild(cs: seq<Tree>, c: Tree, rest: bytes, h: Chain)
    requires Only(c, rest, h)
    ensures AddsIn(cs, cs + [c], rest, h)
  {
    forall r, g
      ensures InSome(cs + [c], r, g) <==> InSome(cs, r, g) || (r == rest && g == h)
    {
      var cs' := cs + [c];
      if InSome(cs, r, g) {
        var k :| 0 <= k < |cs| && Registered(cs[k], r, g);
        assert Registered(cs'[k], r, g);
      }
      if r == rest && g == h { assert Registered(cs'[|cs|], r, g); }
    }
  }

  // ---- a new static child ----

  /** Replacing the promoted child is promoting the replaced one. */
  lemma PromoteValue(t: Tree, idx: nat, c: Tree)
    requires idx < |t.children| && idx < |t.indices|
    ensures var s, newPos := Promote(t, idx), PromotedPos(t.children, idx);
      s.(children := s.children[newPos := c]) ==
      t.(indices := Rotate(t.indices, newPos, idx), children := Rotate(t.children[idx := c], newPos, idx))
  {
    var s, newPos := Promote(t, idx), PromotedPos(t.children, idx);
    assert s.children[newPos := c] == Rotate(t.children[idx := c], newPos, idx);
  }

  /** `InsertStatic` on a node whose index bytes are aligned with its children. */
  lemma InsertStaticValue(t: Tree, rest: bytes, h: Chain) returns (newPos: nat, sub: Outcome)
    requires rest != [] && rest[0] < 128 && |t.indices| == |t.children|
    ensures newPos <= |t.children| && newPos == BubblePos(t.children + [EMPTY], |t.children|, 1)
    ensures sub == InsertChild(Bump(EMPTY), rest, h)
    ensures InsertStatic(t, rest, h) ==
      Outcome(t.(indices := Rotate(t.indices + [rest[0]], newPos, |t.children|),
                 children := Rotate(t.children + [sub.tree], newPos, |t.children|)), sub.status)
  {
    hide InsertStatic, InsertChild, Promote, BubblePos, Rotate;
    InsertStaticCases(t, rest, h);
    var last := |t.children|;
    var t1 := t.(indices := t.indices + [rest[0]], children := t.children + [EMPTY]);
    newPos := PromotedPos(t1.children, last);
    sub := InsertChild(Bump(EMPTY), rest, h);
    PromoteValue(t1, last, sub.tree);
    PromotedChild(t1, last);
    assert t1.children[last := sub.tree] == t.children + [sub.tree];
  }

  lemma PromotedChild(t: Tree, pos: nat)
    requires pos < |t.children| && pos < |t.indices|
    ensures Promote(t, pos).children[PromotedPos(t.children, pos)] == Bump(t.children[pos])
  {}

  lemma AppendAligned(indices: bytes, cs: seq<Tree>, c: Tree, b: byte)
    requires Aligned(indices, cs) && b !in indices && b < 128 && SelectedBy(c, b)
    ensures Aligned(indices + [b], cs + [c])
  {
  }

  lemma InsertStaticCorrect(t: Tree, rest: bytes, h: Chain)
    requires rest != [] && !IsWild(rest[0]) && rest[0] < 128
    requires Aligned(t.indices, t.children) && rest[0] !in t.indices
    ensures var r := InsertStatic(t, rest, h);
      && (r.status == Accepted <==> WellFormed(rest))
      && (r.status == Accepted ==>
        && r.tree == t.(indices := r.tree.indices, children := r.tree.children)
        && r.tree.children != [] && Aligned(r.tree.indices, r.tree.children)
        && (t.children == [] ==> r.tree.indices == [rest[0]] && r.tree.children[0].nType == Static)
        && AddsIn(t.children, r.tree.children, rest, h))
  {
    hide InsertStatic, InsertChild, Shape, Only, Aligned, AddsIn, WellFormed, BubblePos, Rotate, Registered;
    AlignedLengths(t.indices, t.children);
    var newPos, sub := InsertStaticValue(t, rest, h);
    GrowFresh(Bump(EMPTY), rest, h);
    if sub.status == Accepted {
      StaticAdded(t.indices, t.children, sub.tree, newPos, rest, h);
    }
  }

  lemma AlignedLengths(indices: bytes, cs: seq<Tree>)
    requires Aligned(indices, cs)
    ensures |indices| == |cs|
  {}

  /** A child that stands for the new route takes its place among the others. */
  lemma StaticAdded(indices: bytes, cs: seq<Tree>, c: Tree, newPos: nat, rest: bytes, h: Chain)
    requires Aligned(indices, cs) && |indices| == |cs| && rest != [] && rest[0] < 128 && rest[0] !in indices && newPos <= |cs|
    requires Shape(c) && c.nType == Static && Only(c, rest, h)
    ensures var indices', cs' := Rotate(indices + [rest[0]], newPos, |cs|), Rotate(cs + [c], newPos, |cs|);
      && Aligned(indices', cs') && AddsIn(cs, cs', rest, h)
      && (cs == [] ==> indices' == [rest[0]] && cs'[0].nType == Static)
  {
    hide Shape, Aligned, AddsIn, Registered;
    RegisteredStart(c, rest, h);
    AppendAligned(indices, cs, c, rest[0]);
    RotateAligned(indices + [rest[0]], cs + [c], newPos, |cs|);
    AppendChild(cs, c, rest, h);
    RotateAddsIn(cs, cs + [c], newPos, |cs|, rest, h);
  }
}
