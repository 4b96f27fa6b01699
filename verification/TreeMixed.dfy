/** A parameter and a literal byte at one position (tree.go:19-22): registering both is accepted, and it breaks
    the table. What every lookup that comes by the position then finds. */
module TreeMixed {
  import opened Bytes
  import opened Wrappers
  import opened Patterns
  import opened PatternLemmas
  import opened RadixTree
  import opened TreeShape
  import opened TreeInsert
  import opened TreeWalk
  import opened TreeLookup
  import opened RouteTable

  // ---- the part of a match before the fork ----

  /** What a match of the first part of a pattern has captured, and the rest of the path. */
  datatype Passage = Passage(captures: seq<Capture>, rest: bytes)

  /** Matches `x` with the front of `path`. */
  function Through(x: bytes, path: bytes): Option<Passage>
    decreases |x|
  {
    if x == [] then Some(Passage([], path))
    else if x[0] == COLON then
      if path == [] then None else
      var n, e := SegmentEnd(x), SegmentEnd(path);
      match Through(x[n..], path[e..])
      case None => None
      case Some(s) => Some(Passage([Capture(x[1..n], path[..e])] + s.captures, s.rest))
    else if path != [] && path[0] == x[0] then Through(x[1..], path[1..])
    else None
  }

  predicate Passes(x: bytes, path: bytes) { Through(x, path).Some? && Through(x, path).value.rest != [] }

  /** The first part of a pattern, cut at a literal position before any catch-all. */
  predicate Trunk(x: bytes)
    decreases |x|
  {
    if x == [] then true
    else if x[0] == COLON then SegmentEnd(x) < |x| && Trunk(x[SegmentEnd(x)..])
    else !StartsCatchAll(x) && Trunk(x[1..])
  }

  lemma {:induction false} ThroughLiteral(x: bytes, y: bytes, path: bytes)
    requires Literal(x)
    ensures Through(x + y, path) == if x <= path then Through(y, path[|x|..]) else None
  {
    if x == [] {
      assert x + y == y && path[0..] == path;
    } else {
      DropWithin(x, y, 1);
      if path != [] && path[0] == x[0] {
        ThroughLiteral(x[1..], y, path[1..]);
        assert x <= path <==> x[1..] <= path[1..] by { assert x == [x[0]] + x[1..] && path == [path[0]] + path[1..]; }
        if x <= path { assert path[1..][|x| - 1..] == path[|x|..]; }
      }
    }
  }

  lemma ThroughParam(name: bytes, y: bytes, path: bytes)
    requires ValidName(name) && AfterParam(y)
    ensures Through([COLON] + name + y, path) ==
      if path == [] then None
      else match Through(y, path[SegmentEnd(path)..])
           case None => None
           case Some(s) => Some(Passage([Capture(name, path[..SegmentEnd(path)])] + s.captures, s.rest))
  {
    ParamSegment(name, y);
  }

  /** A match is a passage through the first part and a match of the rest. */
  lemma {:induction false} MatchThrough(x: bytes, y: bytes, path: bytes)
    requires Trunk(x) && NoStar(y)
    ensures Match(x + y, path) ==
      match Through(x, path)
      case None => None
      case Some(s) =>
        match Match(y, s.rest)
        case None => None
        case Some(m) => Some(s.captures + m)
    decreases |x|
  {
    if x == [] {
      assert x + y == y;
      if Match(y, path).Some? { assert [] + Match(y, path).value == Match(y, path).value; }
    } else if x[0] == COLON {
      var n := SegmentEnd(x);
      SegmentEndUnique(x + y, n);
      DropWithin(x, y, n);
      if path != [] {
        MatchThrough(x[n..], y, path[SegmentEnd(path)..]);
        PrependCaptures(x, y, path);
      }
    } else {
      DropWithin(x, y, 1);
      NoCatchAllAcross(x, y);
      if path != [] { MatchThrough(x[1..], y, path[1..]); }
    }
  }

  lemma PrependCaptures(x: bytes, y: bytes, path: bytes)
    requires x != [] && x[0] == COLON && path != []
    ensures var n, e := SegmentEnd(x), SegmentEnd(path);
      var s := Through(x[n..], path[e..]);
      s.Some? && Match(y, s.value.rest).Some? ==>
        var c := [Capture(x[1..n], path[..e])];
        c + (s.value.captures + Match(y, s.value.rest).value) == (c + s.value.captures) + Match(y, s.value.rest).value
  {}

  /** Two well-formed patterns that mix a parameter and a literal byte share a trunk up to there. */
  lemma {:induction false} ForkTrunk(p: bytes, q: bytes, k: nat)
    requires WellFormed(p) && WellFormed(q) && k < |p| && k < |q| && MixedAt(p, q, k)
    ensures Trunk(p[..k]) && NoStar(p[k..]) && NoStar(q[k..])
    decreases |p|
  {
    hide WellFormed, Trunk;
    TrunkCases(p[..k]);
    if k > 0 {
      assert p[0] == p[..k][0] == q[..k][0] == q[0];
      WellFormedRest(p);
      WellFormedRest(q);
      if p[0] == COLON {
        ForkBehindName(p, q, k);
        var n := SegmentEnd(p);
        SegmentEndUnique(p[..k], n);
        SliceWithin(p, n, k);
        SliceWithin(q, n, k);
        ForkTrunk(p[n..], q[n..], k - n);
      } else {
        NoCatchAllBefore(p, q, k);
        SliceWithin(p, 1, k);
        SliceWithin(q, 1, k);
        ForkTrunk(p[1..], q[1..], k - 1);
      }
    }
  }

  lemma SliceWithin(s: bytes, n: nat, k: nat)
    requires n <= k <= |s|
    ensures s[n..][..k - n] == s[..k][n..] && s[n..][k - n..] == s[k..] && (k < |s| ==> s[n..][k - n] == s[k])
  {
  }

  lemma TrunkCases(x: bytes)
    ensures x == [] ==> Trunk(x)
    ensures x != [] && x[0] == COLON && SegmentEnd(x) < |x| && Trunk(x[SegmentEnd(x)..]) ==> Trunk(x)
    ensures x != [] && x[0] != COLON && !StartsCatchAll(x) && Trunk(x[1..]) ==> Trunk(x)
  {}

  lemma WellFormedRest(p: bytes)
    requires WellFormed(p) && p != []
    ensures if p[0] == COLON then WellFormed(p[SegmentEnd(p)..]) else StartsCatchAll(p) || WellFormed(p[1..])
  {}

  /** A fork is not within a parameter's name. */
  lemma ForkBehindName(p: bytes, q: bytes, k: nat)
    requires WellFormed(p) && WellFormed(q) && 0 < k < |p| && k < |q| && MixedAt(p, q, k) && p[0] == q[0] == COLON
    ensures SegmentEnd(p) == SegmentEnd(q) < k
  {
    hide WellFormed;
    if SegmentEnd(p) < k {
      FirstSegmentAlike(p, q, k);
    } else if SegmentEnd(q) < k {
      FirstSegmentAlike(q, p, k);
    } else {
      NotInName(p, k);
      NotInName(q, k);
    }
  }

  lemma FirstSegmentAlike(p: bytes, q: bytes, k: nat)
    requires k <= |p| && k <= |q| && p[..k] == q[..k] && SegmentEnd(p) < k
    ensures SegmentEnd(q) == SegmentEnd(p)
  {
    hide SegmentEnd;
    var n := SegmentEnd(p);
    forall j | 0 <= j <= n ensures q[j] == p[j] { assert p[..k][j] == q[..k][j]; }
    SegmentEndUnique(q, n);
  }

  /** No wildcard starts within a name. */
  lemma NotInName(p: bytes, k: nat)
    requires WellFormed(p) && p != [] && p[0] == COLON && 0 < k < |p| && k <= SegmentEnd(p)
    ensures !IsWild(p[k])
  {
    var n := SegmentEnd(p);
    if k < n { assert p[1..n][k - 1] == p[k]; }
  }

  lemma NoCatchAllBefore(p: bytes, q: bytes, k: nat)
    requires WellFormed(p) && WellFormed(q) && 0 < k < |p| && k < |q| && MixedAt(p, q, k) && p[0] != COLON
    ensures !StartsCatchAll(p) && !StartsCatchAll(q) && !StartsCatchAll(p[..k])
  {
    assert forall j :: 0 <= j < k ==> p[j] == p[..k][j] == q[..k][j] == q[j];
  }

  // ---- lookups that come by the fork ----

  /** What a lookup finds behind the fork, with `rest` of its path left: for a new parameter pattern `y`
      exactly what that matches, for a new literal pattern nothing. */
  predicate ForkAnswer(l: Lookup, ps: seq<Capture>, y: bytes, rest: bytes, h: Chain)
    requires y != []
  {
    && l.Found?
    && if y[0] != COLON then l.handlers.None?
       else match Match(y, rest)
            case None => l.handlers.None?
            case Some(m) => l.handlers == Some(h) && l.params == ps + m
  }

  /** Every lookup in `u` that passes `x` finds what is behind the fork. */
  ghost predicate Forked(u: Tree, x: bytes, y: bytes, h: Chain)
    requires y != []
  {
    forall path, ps :: Passes(x, path) ==>
      ForkAnswer(Get(u, path, ps), ps + Through(x, path).value.captures, y, Through(x, path).value.rest, h)
  }

  lemma PassesText(x: bytes, path: bytes)
    requires Literal(x) && Passes(x, path)
    ensures x < path && Through(x, path) == Some(Passage([], path[|x|..])) && path == x + path[|x|..]
  {
    hide Through;
    ThroughLiteral(x, [], path);
    assert x + [] == x;
    ThroughNothing(if x <= path then path[|x|..] else path);
  }

  lemma ThroughNothing(path: bytes)
    ensures Through([], path) == Some(Passage([], path))
  {}

  /** A new literal beside a parameter is put last, under a node still marked for a wildcard. */
  lemma LiteralFork(t: Tree, y: bytes, h: Chain)
    requires Shape(t) && (t.nType == Static || t.nType == Root) && t.wildChild
    requires y != [] && !IsWild(y[0]) && y[0] < 128 && WellFormed(y)
    ensures var r := WalkBelow(Bump(t), y, false, h);
      r.status == Accepted && r.tree.nType == t.nType && Forked(r.tree, t.path, y, h)
  {
    hide WalkBelow, Get, InsertChild, InsertStatic, Through, WellFormed;
    BesideParam(t, y, h);
    GrowFresh(EMPTY, y, h);
    var u := WalkBelow(Bump(t), y, false, h).tree;
    forall path, ps | Passes(t.path, path)
      ensures ForkAnswer(Get(u, path, ps), ps + Through(t.path, path).value.captures, y, Through(t.path, path).value.rest, h)
    {
      PassesText(t.path, path);
      LastIsStatic(u, path, ps);
    }
  }

  lemma BesideParam(t: Tree, y: bytes, h: Chain)
    requires Shape(t) && (t.nType == Static || t.nType == Root) && t.wildChild
    requires y != [] && !IsWild(y[0]) && y[0] < 128
    ensures var sub := InsertChild(EMPTY, y, h);
      WalkBelow(Bump(t), y, false, h) == Outcome(Bump(t).(indices := [y[0]], children := [Bump(t.children[0]), sub.tree]), sub.status)
  {
    hide WalkBelow, InsertChild, InsertStatic, Rotate;
    var s, w := Bump(t), t.children[0];
    NotSelected(s, y, h);
    InsertStaticCases(s, y, h);
    var t1 := s.(indices := [y[0]], children := [w, EMPTY]);
    assert s.indices + RuneString(y[0]) == [y[0]] && s.children + [EMPTY] == [w, EMPTY];
    PromoteFirst(t1, w);
  }

  lemma NotSelected(s: Tree, y: bytes, h: Chain)
    requires s.indices == [] && (s.nType == Static || s.nType == Root) && y != [] && !IsWild(y[0])
    ensures WalkBelow(s, y, false, h) == InsertStatic(s, y, h)
  {
    hide InsertStatic, Walk;
  }

  lemma PromoteFirst(t: Tree, w: Tree)
    requires |t.indices| == 1 && t.children == [w, EMPTY]
    ensures Promote(t, 0) == t.(children := [Bump(w), EMPTY])
  {
    var cs := [Bump(w), EMPTY];
    assert Rotate(t.indices, 0, 0) == t.indices && Rotate(cs, 0, 0) == cs;
  }

  lemma LastIsStatic(u: Tree, path: bytes, ps: seq<Capture>)
    requires u.wildChild && u.children != [] && u.children[|u.children| - 1].nType == Static && u.path < path
    ensures Get(u, path, ps) == Found(None, ps, false)
  {}

  /** A new parameter takes the place of the children. */
  lemma ParamFork(s: Tree, y: bytes, h: Chain)
    requires (s.nType == Static || s.nType == Root) && Literal(s.path) && s.path != []
    requires y != [] && y[0] == COLON && WellFormed(y)
    ensures var r := InsertChild(s, y, h);
      r.status == Accepted && r.tree.nType == s.nType && Forked(r.tree, s.path, y, h)
  {
    hide Get, InsertChild, Through, WellFormed, Match, Only;
    InsertParam(s, y, 0, h);
    assert y[0..] == y;
    var u := InsertChild(s, y, h).tree;
    var t0 := u.(indices := []);
    forall path, ps | Passes(s.path, path)
      ensures ForkAnswer(Get(u, path, ps), ps + Through(s.path, path).value.captures, y, Through(s.path, path).value.rest, h)
    {
      PassesText(s.path, path);
      var rest := path[|s.path|..];
      IndicesUnused(u, path, ps);
      GetThroughParam(t0, rest, ps);
      OnlyAnswers(t0.children[0], rest, ps, Get(u, path, ps), y, h);
    }
  }

  lemma IndicesUnused(u: Tree, path: bytes, ps: seq<Capture>)
    requires u.wildChild && u.path < path
    ensures Get(u, path, ps) == Get(u.(indices := []), path, ps)
  {}

  lemma OnlyAnswers(w: Tree, rest: bytes, ps: seq<Capture>, l: Lookup, y: bytes, h: Chain)
    requires Only(w, y, h) && Answers(w, rest, ps, l) && y != [] && y[0] == COLON
    ensures ForkAnswer(l, ps + [], y, rest, h)
  {
    assert ps + [] == ps;
    assert Registered(w, y, h);
  }

  // ---- from the fork up to the root ----

  /** The node above the child that a lookup selects. */
  lemma ForkedAbove(t: Tree, idx: nat, c: Tree, x: bytes, y: bytes, h: Chain)
    requires Literal(t.path) && !t.wildChild && idx < |t.children| == |t.indices| && Distinct(t.indices)
    requires x != [] && t.indices[idx] == x[0] != COLON && y != [] && Forked(c, x, y, h)
    ensures var s := Promote(t, idx);
      Forked(s.(children := s.children[PromotedPos(t.children, idx) := c]), t.path + x, y, h)
  {
    hide Get, Through, Promote, PromotedPos, Rotate, ForkAnswer;
    var newPos := PromotedPos(t.children, idx);
    PromoteValue(t, idx, c);
    var u := t.(indices := Rotate(t.indices, newPos, idx), children := Rotate(t.children[idx := c], newPos, idx));
    RotateDistinct(t.indices, newPos, idx);
    RotatedPlace(t.indices, t.children[idx := c], newPos, idx);
    forall path, ps | Passes(t.path + x, path)
      ensures ForkAnswer(Get(u, path, ps), ps + Through(t.path + x, path).value.captures, y, Through(t.path + x, path).value.rest, h)
    {
      ThroughLiteral(t.path, x, path);
      var rest := path[|t.path|..];
      assert Passes(x, rest);
      ThroughStart(x, rest);
      GetSelects(u, newPos, path, ps);
    }
  }

  lemma RotatedPlace(indices: bytes, cs: seq<Tree>, newPos: nat, pos: nat)
    requires newPos <= pos < |cs| == |indices|
    ensures Rotate(indices, newPos, pos)[newPos] == indices[pos] && Rotate(cs, newPos, pos)[newPos] == cs[pos]
    ensures |Rotate(indices, newPos, pos)| == |indices| && |Rotate(cs, newPos, pos)| == |cs|
  {}

  lemma ThroughStart(x: bytes, path: bytes)
    requires x != [] && Passes(x, path)
    ensures path != [] && (x[0] != COLON ==> path[0] == x[0])
  {}

  lemma GetSelects(u: Tree, k: nat, path: bytes, ps: seq<Capture>)
    requires u.path < path && !u.wildChild && k < |u.children| && k < |u.indices|
    requires Distinct(u.indices) && u.indices[k] == path[|u.path|]
    ensures Get(u, path, ps) == Get(u.children[k], path[|u.path|..], ps)
  {
    var i := IndexOf(u.indices, path[|u.path|]);
    assert i == k;
  }

  /** The node above a parameter that a lookup goes through. */
  lemma ForkedAboveParam(u: Tree, w: Tree, n: Tree, x: bytes, y: bytes, h: Chain)
    requires Literal(u.path) && u.wildChild && u.children == [w]
    requires w.nType == Param && w.path == [COLON] + w.paramName && ValidName(w.paramName) && w.children == [n]
    requires x != [] && x[0] == SLASH && y != [] && Forked(n, x, y, h)
    ensures Forked(u, u.path + (w.path + x), y, h)
  {
    hide Get, Through, ForkAnswer;
    var x' := w.path + x;
    forall path, ps | Passes(u.path + x', path)
      ensures ForkAnswer(Get(u, path, ps), ps + Through(u.path + x', path).value.captures, y, Through(u.path + x', path).value.rest, h)
    {
      ThroughLiteral(u.path, x', path);
      var rest := path[|u.path|..];
      ThroughParam(w.paramName, x, rest);
      var end := SegmentEnd(rest);
      var c := [Capture(w.paramName, rest[..end])];
      assert Passes(x, rest[end..]);
      ThroughStart(x, rest[end..]);
      GetThroughSegment(u, w, path, ps);
      var m := Through(x, rest[end..]).value.captures;
      assert ps + c + m == ps + (c + m);
    }
  }

  lemma GetThroughSegment(u: Tree, w: Tree, path: bytes, ps: seq<Capture>)
    requires u.path < path && u.wildChild && u.children == [w] && w.nType == Param && w.children != []
    requires SegmentEnd(path[|u.path|..]) < |path| - |u.path|
    ensures var rest := path[|u.path|..];
      var end := SegmentEnd(rest);
      Get(u, path, ps) == Get(w.children[0], rest[end..], ps + [Capture(w.paramName, rest[..end])])
  {}

  // ---- the walk to the fork ----

  /** Pattern `p`, of which a route of `t` is the match up to `k`, where they mix. */
  ghost predicate ForksAt(t: Tree, p: bytes, q: bytes, g: Chain, k: nat) {
    Registered(t, q, g) && k < |p| && k < |q| && MixedAt(p, q, k)
  }

  ghost predicate ForkedAt(t: Tree, p: bytes, k: nat, h: Chain, r: Outcome)
    requires k < |p|
  {
    r.status == Accepted && r.tree.nType == t.nType && Forked(r.tree, p[..k], p[k..], h)
  }

  /** What the walk of `p` asks of the tree. */
  ghost predicate Fits(t: Tree, p: bytes) {
    && Shape(t) && (t.nType == Static || t.nType == Root) && Enters(t, p)
    && WellFormed(p) && Compatible(t, p) && ForksInAscii(t, p)
  }

  /** The path and the route part in the middle of the node's text, or behind it. */
  lemma ForkPlace(t: Tree, p: bytes, q: bytes, k: nat)
    requires Literal(t.path) && t.path <= q && k < |p| && k < |q| && MixedAt(p, q, k)
    ensures var i := CommonPrefix(p, t.path);
      && (i < |t.path| ==> k == i && p[i] == COLON && !IsWild(t.path[i]))
      && (i == |t.path| ==> k >= |t.path| && p == t.path + p[|t.path|..])
  {
    var m := |t.path|;
    assert q[..m] == t.path;
    if k < m {
      PrefixOfPrefix(q, k, m);
      CommonPrefixUnique(p, t.path, k);
    } else {
      PrefixOfPrefix(p, m, k);
      PrefixOfPrefix(q, m, k);
      CommonPrefixUnique(p, t.path, m);
    }
  }

  lemma PrefixOfPrefix(s: bytes, i: nat, j: nat)
    requires i <= j <= |s|
    ensures s[..j][..i] == s[..i] && (i < j ==> s[..j][i] == s[i])
    ensures s == s[..i] + s[i..]
  {}

  lemma NoWildIndex(t: Tree, c: byte)
    requires Shape(t) && (t.nType == Static || t.nType == Root) && IsWild(c)
    ensures c !in t.indices
  {
    if c in t.indices {
      var idx := IndexOf(t.indices, c);
      ChildShape(t, idx);
    }
  }

  lemma Replaces(s: Tree, y: bytes, split: bool, h: Chain)
    requires (s.nType == Static || s.nType == Root) && !s.wildChild && y != [] && y[0] == COLON && COLON !in s.indices
    requires split ==> |s.children| == 1 && s.children[0].nType != Param
    ensures WalkBelow(s, y, split, h) == InsertChild(s, y, h)
  {
    hide InsertChild, Walk, InsertStatic;
  }

  lemma TextIsLiteral(t: Tree)
    requires Shape(t) && (t.nType == Static || t.nType == Root)
    ensures Literal(t.path)
  {}

  /** The new parameter parts from the node's text. */
  lemma ForkInText(t: Tree, p: bytes, q: bytes, g: Chain, k: nat, h: Chain)
    requires Fits(t, p) && ForksAt(t, p, q, g, k) && CommonPrefix(p, t.path) < |t.path|
    ensures ForkedAt(t, p, k, h, Walk(t, p, h))
  {
    hide Walk, WalkBelow, SplitAt, Registered, Compatible, ForksInAscii, WellFormed, Forked, CommonPrefix, InsertChild;
    RegisteredStart(t, q, g);
    ForkPlace(t, p, q, k);
    WalkUnfolds(t, p, h);
    SplitAtKeeps(t, p);
    var s := SplitAt(Bump(t), p);
    assert p == p[..k] + p[k..];
    WellFormedLiteral(p[..k], p[k..]);
    Replaces(s, p[k..], true, h);
    ParamFork(s, p[k..], h);
  }

  /** The new pattern parts from the route right behind the node's text. */
  lemma ForkBehindText(t: Tree, p: bytes, q: bytes, g: Chain, k: nat, h: Chain)
    requires Fits(t, p) && ForksAt(t, p, q, g, k) && CommonPrefix(p, t.path) == |t.path| == k
    ensures ForkedAt(t, p, k, h, Walk(t, p, h))
  {
    hide Walk, WalkBelow, SplitAt, Registered, Compatible, ForksInAscii, WellFormed, Forked, CommonPrefix, InsertChild;
    RegisteredStart(t, q, g);
    ForkPlace(t, p, q, k);
    WholeText(t, p, h);
    assert p[..k] == t.path;
    WellFormedBelow(t, p[k..]);
    ChildAtFork(t, q, g, k);
    if p[k] == COLON {
      NoWildIndex(t, COLON);
      Replaces(Bump(t), p[k..], false, h);
      ParamFork(Bump(t), p[k..], h);
    } else {
      ForkBelow(t, p[k..]);
      LiteralFork(t, p[k..], h);
    }
  }

  lemma ChildAtFork(t: Tree, q: bytes, g: Chain, k: nat)
    requires Shape(t) && (t.nType == Static || t.nType == Root) && Registered(t, q, g) && |t.path| == k < |q|
    ensures t.wildChild <==> q[k] == COLON
    ensures t.wildChild ==> t.indices == []
  {
    var r := RouteCases(t, q, g);
    assert r == q[k..];
    RoutePlace(t, r, g);
  }

  /** What the walk asks carries over to the child it goes on to. */
  lemma FitsBelow(t: Tree, idx: nat, rest: bytes)
    requires Fits(t, t.path + rest) && !t.wildChild && rest != [] && NoStar(rest)
    requires idx < |t.children| && idx < |t.indices| && t.indices[idx] == rest[0]
    ensures Fits(t.children[idx], rest)
  {
    hide WellFormed, Registered, Clash, AsciiFork;
    ChildShape(t, idx);
    CompatibleBelow(t, rest);
    OnlyChildMatters(t, idx, rest);
    WellFormedBelow(t, rest);
    ForksBelow(t, idx, rest);
    var c := t.children[idx];
    if c.nType == CatchAll { BoundaryIncompatible(c, rest); }
  }

  lemma {:induction false} DescendToFork(t: Tree, p: bytes, q: bytes, g: Chain, k: nat, h: Chain)
    requires Fits(t, p) && ForksAt(t, p, q, g, k) && CommonPrefix(p, t.path) == |t.path| < k
    ensures ForkedAt(t, p, k, h, Walk(t, p, h))
    decreases t, 1
  {
    hide Walk, WalkBelow, Registered, Compatible, ForksInAscii, WellFormed, Forked, CommonPrefix;
    RegisteredStart(t, q, g);
    ForkPlace(t, p, q, k);
    WholeText(t, p, h);
    var n := |t.path|;
    var rest, r := p[n..], q[n..];
    ForkBeyond(p, q, k, n);
    ChildAtPlace(t, q, g);
    if t.wildChild {
      DescendThroughParam(t, rest, r, g, k - n, h);
    } else {
      var idx := IndexOf(t.indices, rest[0]);
      FitsBelow(t, idx, rest);
      WalkForks(t.children[idx], rest, r, g, k - n, h);
      AboveSelected(t, idx, rest, k - n, h);
    }
  }

  /** Two patterns mix behind a common prefix where their rests do. */
  lemma ForkBeyond(p: bytes, q: bytes, k: nat, n: nat)
    requires n < k < |p| && k < |q| && MixedAt(p, q, k)
    ensures MixedAt(p[n..], q[n..], k - n) && p[n] == q[n] && p[..n] == q[..n]
    ensures p[..k] == p[..n] + p[n..][..k - n] && p[k..] == p[n..][k - n..]
  {
    SliceWithin(p, n, k);
    SliceWithin(q, n, k);
    assert p[n] == p[..k][n] && q[n] == q[..k][n];
    assert p[..n] == p[..k][..n] && q[..n] == q[..k][..n];
  }

  /** The child that holds the route. */
  lemma ChildAtPlace(t: Tree, q: bytes, g: Chain)
    requires Shape(t) && (t.nType == Static || t.nType == Root) && Registered(t, q, g) && |t.path| < |q|
    ensures NoStar(q[|t.path|..])
    ensures t.wildChild ==> q[|t.path|] == COLON && Registered(t.children[0], q[|t.path|..], g)
    ensures !t.wildChild ==>
      var idx := IndexOf(t.indices, q[|t.path|]);
      !IsWild(q[|t.path|]) && Distinct(t.indices) && idx < |t.indices| == |t.children| && Registered(t.children[idx], q[|t.path|..], g)
  {
    RegisteredStart(t, q, g);
    RoutePlace(t, q[|t.path|..], g);
  }

  lemma AboveSelected(t: Tree, idx: nat, rest: bytes, k: nat, h: Chain)
    requires Shape(t) && (t.nType == Static || t.nType == Root) && !t.wildChild && 0 < k < |rest| && !IsWild(rest[0])
    requires idx == IndexOf(t.indices, rest[0]) < |t.indices| == |t.children|
    requires ForkedAt(t.children[idx], rest, k, h, Walk(t.children[idx], rest, h))
    ensures ForkedAt(t, t.path + rest, |t.path| + k, h, WalkBelow(Bump(t), rest, false, h))
  {
    hide Walk, WalkBelow, Forked, Promote, PromotedPos;
    var c, s := Walk(t.children[idx], rest, h), Promote(Bump(t), idx);
    SelectedTurn(Bump(t), idx, rest, h);
    ForkedAbove(Bump(t), idx, c.tree, rest[..k], rest[k..], h);
    assert (t.path + rest)[..|t.path| + k] == t.path + rest[..k] && (t.path + rest)[|t.path| + k..] == rest[k..];
  }

  /** The walk goes through the parameter, which both patterns name alike. */
  lemma {:induction false} DescendThroughParam(t: Tree, rest: bytes, r: bytes, g: Chain, k: nat, h: Chain)
    requires Fits(t, t.path + rest) && t.wildChild && 0 < k < |rest| && k < |r| && MixedAt(rest, r, k) && rest[0] == COLON
    requires Registered(t.children[0], r, g)
    ensures ForkedAt(t, t.path + rest, |t.path| + k, h, WalkBelow(Bump(t), rest, false, h))
    decreases t, 0
  {
    hide Walk, WalkBelow, Registered, Compatible, ForksInAscii, WellFormed, Forked, Enters, Shape;
    SameParam(t, rest);
    var w := t.children[0];
    var m := |w.path|;
    ForkBehindParam(w, rest, r, g, k);
    FitsThroughParam(t, rest);
    var n, rest', r' := w.children[0], rest[m..], r[m..];
    ForkBeyond(rest, r, k, m);
    WalkForks(n, rest', r', g, k - m, h);
    ParamTurn(t, rest, h);
    var u := Bump(w).(children := [Walk(n, rest', h).tree]);
    ForkedAboveParam(Bump(t).(children := [u]), u, Walk(n, rest', h).tree, rest'[..k - m], rest'[k - m..], h);
    assert rest[..m] == w.path;
    assert (t.path + rest)[..|t.path| + k] == t.path + (w.path + rest'[..k - m]);
    assert (t.path + rest)[|t.path| + k..] == rest'[k - m..];
  }

  lemma SameParam(t: Tree, rest: bytes)
    requires Fits(t, t.path + rest) && t.wildChild && rest != [] && rest[0] == COLON
    ensures |t.children| == 1 && t.children[0].nType == Param && Shape(t.children[0])
    ensures Follows(rest, t.children[0]) && Literal(t.path)
    ensures var w := t.children[0]; w.path == [COLON] + w.paramName && ValidName(w.paramName) && !w.wildChild
  {
    hide Registered, WellFormed, Compatible;
    if !Follows(rest, t.children[0]) { WrongParam(t, rest); }
  }

  /** They go on alike behind the name, with a slash. */
  lemma ForkBehindParam(w: Tree, rest: bytes, r: bytes, g: Chain, k: nat)
    requires Shape(w) && w.nType == Param && Follows(rest, w) && Registered(w, r, g)
    requires k < |rest| && k < |r| && MixedAt(rest, r, k)
    ensures |w.path| < k && rest[|w.path|] == SLASH && |w.children| == 1 && w.indices == [SLASH]
    ensures Registered(w.children[0], r[|w.path|..], g)
  {
    var m := |w.path|;
    var x := RouteCases(w, r, g);
    assert r[m..] == x;
    assert forall j :: 0 <= j < m ==> rest[j] == w.path[j] == r[j];
    assert k >= m;
  }

  lemma FitsThroughParam(t: Tree, rest: bytes)
    requires Fits(t, t.path + rest) && t.wildChild && |t.children| == 1 && t.children[0].nType == Param && Shape(t.children[0])
    requires var w := t.children[0]; Follows(rest, w) && |w.path| < |rest| && rest[|w.path|] == SLASH && |w.children| == 1
    ensures var w := t.children[0]; Fits(w.children[0], rest[|w.path|..])
  {
    hide WellFormed, Registered, Clash, AsciiFork;
    var w := t.children[0];
    var rest' := rest[|w.path|..];
    assert rest == w.path + rest';
    assert w.path[0] == COLON == rest[0];
    WellFormedBelow(t, rest);
    WellFormedBelow(w, rest');
    CompatibleBelow(t, rest);
    OneChildCompatible(t.children, rest);
    CompatibleBelow(w, rest');
    OneChildCompatible(w.children, rest');
    ForksBelow(t, 0, rest);
    ForksBelow(w, 0, rest');
    assert SelectedBy(w.children[0], SLASH);
  }

  lemma OneChildCompatible(cs: seq<Tree>, rest: bytes)
    requires |cs| == 1 && CompatibleIn(cs, rest)
    ensures Compatible(cs[0], rest)
  {
    forall q, g | Registered(cs[0], q, g)
      ensures !Clash(rest, q)
    {
      assert InSome(cs, q, g);
    }
  }

  lemma ParamTurn(t: Tree, rest: bytes, h: Chain)
    requires Shape(t) && (t.nType == Static || t.nType == Root) && t.wildChild && |t.children| == 1 && rest != [] && rest[0] == COLON
    requires var w := t.children[0];
      w.nType == Param && Follows(rest, w) && |w.path| < |rest| && rest[|w.path|] == SLASH && |w.children| == 1
    ensures var w := t.children[0];
      var n := Walk(w.children[0], rest[|w.path|..], h);
      WalkBelow(Bump(t), rest, false, h) == Outcome(Bump(t).(children := [Bump(w).(children := [n.tree])]), n.status)
  {
    hide WalkBelow, Walk;
    var w := t.children[0];
    CommonPrefixUnique(rest, w.path, |w.path|);
    WholeText(w, rest, h);
    ThroughParamTurn(Bump(w), rest[|w.path|..], h);
    FollowTurn(Bump(t), rest, h);
  }

  /** The registration of a pattern that mixes with a route is accepted, and forks the tree where they mix. */
  lemma {:induction false} WalkForks(t: Tree, p: bytes, q: bytes, g: Chain, k: nat, h: Chain)
    requires Fits(t, p) && ForksAt(t, p, q, g, k)
    ensures ForkedAt(t, p, k, h, Walk(t, p, h))
    decreases t, 2
  {
    hide Walk, WalkBelow, Shape, SplitAt, Registered, Compatible, ForksInAscii, WellFormed, Forked, CommonPrefix;
    var i := CommonPrefix(p, t.path);
    RegisteredStart(t, q, g);
    TextIsLiteral(t);
    ForkPlace(t, p, q, k);
    if i < |t.path| {
      ForkInText(t, p, q, g, k, h);
    } else if k == |t.path| {
      ForkBehindText(t, p, q, g, k, h);
    } else {
      DescendToFork(t, p, q, g, k, h);
    }
  }

  // ---- the table with the new route ----

  /** A table of supported patterns and one more route, in conflict with none of them, which may mix parameters
      and literal bytes with them. */
  ghost predicate OneMore(rs: seq<Route>, r: Route) {
    NeverMixed(rs) && Plain(rs + [r]) && Consistent(rs + [r])
  }

  predicate MixesAt(rs: seq<Route>, r: Route, i: nat, k: nat) {
    i < |rs| && k < |r.pattern| && k < |rs[i].pattern| && MixedAt(r.pattern, rs[i].pattern, k)
  }

  /** The lookup finds every route of the list on every path the route matches. */
  ghost predicate AllServed(rs: seq<Route>) {
    forall i, p :: 0 <= i < |rs| && Match(rs[i].pattern, p).Some? ==> Served(rs[i], p, Get(RegisterAll(rs).tree, p, []))
  }

  lemma OldPart(rs: seq<Route>, r: Route)
    requires OneMore(rs, r)
    ensures Supported(rs) && Consistent(rs) && r.pattern != [] && r.pattern[0] == SLASH
    ensures forall i :: 0 <= i < |rs| ==> AsciiFork(r.pattern, rs[i].pattern)
  {
    hide Mixed, AsciiFork, Clash, WellFormed;
    var all := rs + [r];
    assert all[|rs|] == r && forall i :: 0 <= i < |rs| ==> all[i] == rs[i];
  }

  lemma ListFits(rs: seq<Route>, r: Route)
    requires OneMore(rs, r) && rs != []
    ensures RegisterAll(rs).status == Accepted && Fits(RegisterAll(rs).tree, r.pattern)
    ensures StandsFor(RegisterAll(rs).tree, rs) && RegisterAll(rs).tree.nType == Root
  {
    hide RegisterAll, Shape, Registered, Clash, AsciiFork, WellFormed, Supported, Mixed;
    assert (rs + [r])[..|rs|] == rs && (rs + [r])[|rs|] == r;
    OldPart(rs, r);
    ConsistentLast(rs + [r]);
    RegisterAllCorrect(rs);
    forall q, g | Registered(RegisterAll(rs).tree, q, g)
      ensures !Clash(r.pattern, q) && AsciiFork(r.pattern, q)
    {
      assert Route(q, g) in rs;
      var i :| 0 <= i < |rs| && rs[i] == Route(q, g);
    }
  }

  lemma MixedRegistration(rs: seq<Route>, r: Route, i: nat, k: nat)
    requires OneMore(rs, r) && MixesAt(rs, r, i, k)
    ensures ForkedAt(RegisterAll(rs).tree, r.pattern, k, r.handlers, RegisterAll(rs + [r]))
  {
    hide RegisterAll, Walk, Shape, Registered, Clash, AsciiFork, WellFormed, Forked, OneMore;
    ListFits(rs, r);
    var t := RegisterAll(rs).tree;
    RegisterLast(rs, r);
    assert Route(rs[i].pattern, rs[i].handlers) in rs;
    WalkForks(t, r.pattern, rs[i].pattern, rs[i].handlers, k, r.handlers);
    RootWalks(t, r.pattern, r.handlers);
  }

  lemma RootWalks(t: Tree, p: bytes, h: Chain)
    requires Shape(t)
    ensures AddRoute(t, p, h) == Walk(t, p, h)
  {
    hide Walk;
  }

  /** Lookups of paths that the new pattern or the one it mixes with matches. When the new one has the literal
      byte, neither route is found any more. When it has the parameter, it is found wherever it matches, and
      the other route is not: where the new pattern does not match, nothing is found. */
  lemma MixedLookups(rs: seq<Route>, r: Route, i: nat, k: nat, path: bytes)
    requires OneMore(rs, r) && MixesAt(rs, r, i, k)
    requires Match(r.pattern, path).Some? || Match(rs[i].pattern, path).Some?
    ensures var l := Get(RegisterAll(rs + [r]).tree, path, []);
      if r.pattern[k] == COLON && Match(r.pattern, path).Some? then Served(r, path, l) else l.Found? && l.handlers.None?
  {
    hide RegisterAll, Get, Through, Match, Trunk, WellFormed, Supported;
    var p, q := r.pattern, rs[i].pattern;
    BothWellFormed(rs, r, i);
    MixedRegistration(rs, r, i, k);
    ForkTrunk(p, q, k);
    var x := p[..k];
    assert p == x + p[k..] && q == x + q[k..];
    MatchThrough(x, p[k..], path);
    MatchThrough(x, q[k..], path);
    var s := Through(x, path).value;
    if s.rest == [] {
      MatchNothingLeft(p[k..]);
      MatchNothingLeft(q[k..]);
    }
    assert Passes(x, path);
    assert [] + s.captures == s.captures;
  }

  lemma BothWellFormed(rs: seq<Route>, r: Route, i: nat)
    requires Consistent(rs + [r]) && i < |rs|
    ensures WellFormed(r.pattern) && WellFormed(rs[i].pattern)
  {
    hide WellFormed, Clash;
    assert (rs + [r])[|rs|] == r && (rs + [r])[i] == rs[i];
  }

  // ---- a path on which the table fails ----

  lemma {:induction false} InstanceThrough(x: bytes, y: bytes, b: byte)
    requires Trunk(x) && NoStar(y) && b != SLASH
    ensures var s := Through(x, Instance(x + y, b)); s.Some? && s.value.rest == Instance(y, b)
    decreases |x|
  {
    if x == [] {
      assert x + y == y;
    } else if x[0] == COLON {
      var n := SegmentEnd(x);
      SegmentEndUnique(x + y, n);
      var path, z := Instance(x + y, b), x[n..] + y;
      DropWithin(x, y, n);
      assert z[0] == SLASH;
      InstanceMatches(z, b);
      SegmentEndUnique(path, 1);
      assert path[1..] == Instance(z, b);
      InstanceThrough(x[n..], y, b);
    } else {
      DropWithin(x, y, 1);
      NoCatchAllAcross(x, y);
      assert Instance(x + y, b)[1..] == Instance(x[1..] + y, b);
      InstanceThrough(x[1..], y, b);
    }
  }

  /** The parameter captures a segment that the literal pattern captures nowhere first. */
  lemma FirstCapture(p: bytes, q: bytes, b: byte)
    requires p != [] && p[0] == COLON && q != [] && !IsWild(q[0]) && b != SLASH && b != q[0]
    ensures Match(p, Instance(q, b)).Some? ==> Match(p, Instance(q, b)) != Match(q, Instance(q, b))
  {
    var path := Instance(q, b);
    InstanceMatches(q, b);
    if Match(p, path).Some? {
      var segment := path[..SegmentEnd(path)];
      assert Match(p, path).value[0].value == segment;
      assert path[0] == q[0];
      assert segment != [b] && segment != [SLASH];
    }
  }

  lemma CapturesDiffer(p: bytes, q: bytes, k: nat, b: byte)
    requires WellFormed(p) && WellFormed(q) && k < |p| && k < |q| && MixedAt(p, q, k) && p[k] == COLON
    requires b != SLASH && b != q[k]
    ensures var path := Instance(q, b);
      Match(q, path).Some? && (Match(p, path).Some? ==> Match(p, path) != Match(q, path))
  {
    hide Match, Through, WellFormed, Instance, Trunk;
    var path, x := Instance(q, b), p[..k];
    InstanceMatches(q, b);
    ForkTrunk(p, q, k);
    assert p == x + p[k..] && q == x + q[k..];
    InstanceThrough(x, q[k..], b);
    MatchThrough(x, p[k..], path);
    MatchThrough(x, q[k..], path);
    FirstCapture(p[k..], q[k..], b);
    var c := Through(x, path).value.captures;
    forall m: seq<Capture>, m': seq<Capture> | c + m == c + m'
      ensures m == m'
    {
      assert (c + m)[|c|..] == m && (c + m')[|c|..] == m';
    }
  }

  lemma MixingBreaks(rs: seq<Route>, r: Route, i: nat, k: nat)
    requires OneMore(rs, r) && MixesAt(rs, r, i, k)
    ensures RegisterAll(rs + [r]).status == Accepted && !AllServed(rs + [r])
  {
    hide RegisterAll, Get, Match, WellFormed, Supported, Consistent, Forked, Instance, OneMore;
    MixedRegistration(rs, r, i, k);
    ListOf(rs, r, i);
    var q := rs[i].pattern;
    if r.pattern[k] == COLON {
      assert OneMore(rs, r) ==> Consistent(rs + [r]) by { OneMoreIs(rs, r); }
      BothWellFormed(rs, r, i);
      var b: byte := if q[k] == 120 then 121 else 120;
      CapturesDiffer(r.pattern, q, k, b);
      MixedLookups(rs, r, i, k, Instance(q, b));
    } else {
      InstanceMatches(r.pattern, 120);
      MixedLookups(rs, r, i, k, Instance(r.pattern, 120));
    }
  }

  lemma OneMoreIs(rs: seq<Route>, r: Route)
    ensures OneMore(rs, r) ==> Consistent(rs + [r])
  {}

  lemma ListOf(rs: seq<Route>, r: Route, i: nat)
    requires i < |rs|
    ensures (rs + [r])[|rs|] == r && (rs + [r])[i] == rs[i]
  {}

  /** The next route is accepted whether or not it mixes parameters and literal bytes with a registered one. All
      routes are served, the old ones and the new one, if and only if it does not. */
  lemma ServedExactlyWhenNotMixed(rs: seq<Route>, r: Route)
    requires OneMore(rs, r)
    ensures RegisterAll(rs + [r]).status == Accepted
    ensures AllServed(rs + [r]) <==> forall i :: 0 <= i < |rs| ==> !Mixed(r.pattern, rs[i].pattern)
  {
    hide RegisterAll, Get, Match, WellFormed, Consistent, Clash, AsciiFork, AllServed;
    if i :| 0 <= i < |rs| && Mixed(r.pattern, rs[i].pattern) {
      var k :| 0 <= k < |r.pattern| && k < |rs[i].pattern| && MixedAt(r.pattern, rs[i].pattern, k);
      MixingBreaks(rs, r, i, k);
    } else {
      StillSupported(rs, r);
      RegisterAllCorrect(rs + [r]);
      NotMixedServes(rs + [r]);
    }
  }

  lemma StillSupported(rs: seq<Route>, r: Route)
    requires OneMore(rs, r) && forall i :: 0 <= i < |rs| ==> !Mixed(r.pattern, rs[i].pattern)
    ensures Supported(rs + [r])
  {
    hide Mixed, AsciiFork, Consistent;
  }

  lemma NotMixedServes(rs: seq<Route>)
    requires Supported(rs) && Consistent(rs)
    ensures AllServed(rs)
  {
    hide RegisterAll, Get, Match, Supported, Consistent;
    forall i, p | 0 <= i < |rs| && Match(rs[i].pattern, p).Some?
      ensures Served(rs[i], p, Get(RegisterAll(rs).tree, p, []))
    {
      LookupRefinesList(rs, p);
    }
  }

  // ---- whole tables ----

  /** After `n` registrations all of them were accepted, and all routes so far are served. */
  ghost predicate RightAfter(rs: seq<Route>, n: nat)
    requires n <= |rs|
  {
    RegisterAll(rs[..n]).status == Accepted && AllServed(rs[..n])
  }

  lemma RightWhenNeverMixed(rs: seq<Route>, n: nat)
    requires Plain(rs) && Consistent(rs) && NeverMixed(rs) && n <= |rs|
    ensures RightAfter(rs, n)
  {
    hide RegisterAll, AllServed, WellFormed, Clash, Mixed, AsciiFork;
    assert forall i :: 0 <= i < n ==> rs[..n][i] == rs[i];
    RegisterAllCorrect(rs[..n]);
    NotMixedServes(rs[..n]);
  }

  /** The first route that mixes breaks the table. */
  lemma {:induction false} WrongAfter(rs: seq<Route>) returns (n: nat)
    requires Plain(rs) && Consistent(rs) && !NeverMixed(rs)
    ensures n <= |rs| && !RightAfter(rs, n)
  {
    hide RegisterAll, AllServed, WellFormed, Clash, Mixed, AsciiFork, RightAfter;
    var init := rs[..|rs| - 1];
    InitPlain(rs);
    InitKeeps(rs);
    if NeverMixed(init) {
      LastBreaks(rs);
      n := |rs|;
    } else {
      n := WrongAfter(init);
      SameAfter(rs, n);
    }
  }

  lemma InitPlain(rs: seq<Route>)
    requires Plain(rs) && rs != []
    ensures Plain(rs[..|rs| - 1])
  {
    hide AsciiFork;
    assert forall i :: 0 <= i < |rs| - 1 ==> rs[..|rs| - 1][i] == rs[i];
  }

  lemma SameAfter(rs: seq<Route>, n: nat)
    requires n < |rs|
    ensures RightAfter(rs, n) == RightAfter(rs[..|rs| - 1], n)
  {
    hide RegisterAll, AllServed;
    assert rs[..n] == rs[..|rs| - 1][..n];
  }

  lemma LastBreaks(rs: seq<Route>)
    requires Plain(rs) && Consistent(rs) && !NeverMixed(rs) && rs != [] && NeverMixed(rs[..|rs| - 1])
    ensures !RightAfter(rs, |rs|)
  {
    hide RegisterAll, AllServed, WellFormed, Clash, Mixed, AsciiFork;
    var init, last := rs[..|rs| - 1], rs[|rs| - 1];
    assert init + [last] == rs && rs[..|rs|] == rs;
    assert forall i :: 0 <= i < |init| ==> init[i] == rs[i];
    InitPlain(rs);
    var i, j :| 0 <= i < j < |rs| && Mixed(rs[j].pattern, rs[i].pattern);
    assert j == |rs| - 1;
    ServedExactlyWhenNotMixed(init, last);
  }

  /** A table of well-formed patterns without conflicts is right after every registration if and only if it never
      mixes a parameter and a literal byte. */
  lemma RightExactlyWhenNeverMixed(rs: seq<Route>)
    requires Plain(rs) && Consistent(rs)
    ensures (forall n :: 0 <= n <= |rs| ==> RightAfter(rs, n)) <==> NeverMixed(rs)
  {
    hide Plain, Consistent, RightAfter, NeverMixed;
    if NeverMixed(rs) {
      forall n | 0 <= n <= |rs| ensures RightAfter(rs, n) { RightWhenNeverMixed(rs, n); }
    } else {
      var n := WrongAfter(rs);
    }
  }
}
