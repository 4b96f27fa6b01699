/** Priorities: every node but a catch-all's boundary counts the routes below it, and siblings stay
    sorted by priority. */
module TreePriority {
  import opened Bytes
  import opened Wrappers
  import opened Patterns
  import opened RadixTree
  import opened TreeShape
  import opened TreeInsert
  import opened TreeWalk
  import opened RouteTable

  /** The number of nodes with handlers. */
  function Count(t: Tree): nat { (if t.handlers.Some? then 1 else 0) + CountAll(t.children) }

  function CountAll(cs: seq<Tree>): nat {
    if cs == [] then 0 else Count(cs[0]) + CountAll(cs[1..])
  }

  predicate Sorted(cs: seq<Tree>) {
    forall i, j :: 0 <= i < j < |cs| ==> cs[i].priority >= cs[j].priority
  }

  ghost predicate Weighted(t: Tree)
    decreases t
  {
    && t.priority == (if IsBoundary(t) then 0 else Count(t))
    && Sorted(t.children)
    && forall i :: 0 <= i < |t.children| ==> Weighted(t.children[i])
  }

  predicate IsBoundary(t: Tree) { t.nType == CatchAll && t.path == [] }

  lemma {:induction false} CountConcat(a: seq<Tree>, b: seq<Tree>)
    ensures CountAll(a + b) == CountAll(a) + CountAll(b)
  {
    if a == [] {
      assert a + b == b;
    } else {
      assert (a + b)[1..] == a[1..] + b;
      CountConcat(a[1..], b);
    }
  }

  lemma CountOne(c: Tree)
    ensures CountAll([c]) == Count(c)
  {
  }

  lemma CountReplace(cs: seq<Tree>, i: nat, c: Tree)
    requires i < |cs|
    ensures CountAll(cs[i := c]) == CountAll(cs) - Count(cs[i]) + Count(c)
  {
    assert cs == cs[..i] + ([cs[i]] + cs[i + 1..]);
    assert cs[i := c] == cs[..i] + ([c] + cs[i + 1..]);
    CountConcat(cs[..i], [cs[i]] + cs[i + 1..]);
    CountConcat(cs[..i], [c] + cs[i + 1..]);
  }

  lemma CountSwap(b: seq<Tree>, x: seq<Tree>, c: seq<Tree>)
    ensures CountAll(b + (x + c)) == CountAll(x + (b + c))
  {
    CountConcat(b, x + c);
    CountConcat(x, c);
    CountConcat(x, b + c);
    CountConcat(b, c);
  }

  lemma RotateParts(cs: seq<Tree>, newPos: nat, pos: nat)
    requires newPos <= pos < |cs|
    ensures cs == cs[..newPos] + (cs[newPos..pos] + ([cs[pos]] + cs[pos + 1..]))
    ensures Rotate(cs, newPos, pos) == cs[..newPos] + ([cs[pos]] + (cs[newPos..pos] + cs[pos + 1..]))
  {
  }

  lemma CountRotate(cs: seq<Tree>, newPos: nat, pos: nat)
    requires newPos <= pos < |cs|
    ensures CountAll(Rotate(cs, newPos, pos)) == CountAll(cs)
  {
    RotateParts(cs, newPos, pos);
    var a, b, x, c := cs[..newPos], cs[newPos..pos], [cs[pos]], cs[pos + 1..];
    CountConcat(a, b + (x + c));
    CountConcat(a, x + (b + c));
    CountSwap(b, x, c);
  }

  /** Every child weighted, in sorted order. */
  ghost predicate AllWeighted(cs: seq<Tree>) {
    Sorted(cs) && forall i :: 0 <= i < |cs| ==> Weighted(cs[i])
  }

  /** Moving a heavier child before the lighter ones sorts the children again. */
  lemma BubbleSorts(cs: seq<Tree>, pos: nat, c: Tree)
    requires pos < |cs| && Weighted(c)
    requires forall i :: 0 <= i < |cs| && i != pos ==> Weighted(cs[i])
    requires forall i, j :: 0 <= i < j < |cs| && i != pos && j != pos ==> cs[i].priority >= cs[j].priority
    requires forall j :: pos < j < |cs| ==> c.priority >= cs[j].priority
    ensures AllWeighted(Rotate(cs[pos := c], BubblePos(cs, pos, c.priority), pos))
  {
    hide Weighted, Rotate;
    var newPos := BubblePos(cs, pos, c.priority);
    var r := Rotate(cs[pos := c], newPos, pos);
    forall i | 0 <= i < |r|
      ensures Weighted(r[i])
    {
      if newPos < i <= pos { assert r[i] == cs[i - 1]; }
    }
    forall i, j | 0 <= i < j < |r|
      ensures r[i].priority >= r[j].priority
    {
      if j == newPos && i < newPos - 1 { assert cs[i].priority >= cs[newPos - 1].priority; }
      if newPos < j <= pos { assert r[j] == cs[j - 1]; }
      if newPos < i <= pos { assert r[i] == cs[i - 1]; }
    }
  }

  // ---- registration ----

  /** New nodes are weighted. */
  lemma {:induction false} InsertWeighted(t: Tree, p: bytes, h: Chain)
    requires t.children == [] && (t.handlers.None? || (p != [] && p[0] == COLON))
    ensures var r := InsertChild(t, p, h);
      r.status == Accepted ==>
        r.tree.priority == t.priority && r.tree.nType == t.nType && Count(r.tree) == Count(t) + 1 && AllWeighted(r.tree.children)
    decreases |p|, 0
  {
    hide Weighted, AllWeighted, CountAll, ParamNode;
    NoChildren();
    var r := InsertChild(t, p, h);
    match FindWildcard(p)
    case NoWildcard =>
    case Wildcard(text, start, valid) =>
      if r.status == Accepted {
        var c := r.tree.children[0];
        if text[0] == COLON {
          ParamWeighted(text, p[start + |text|..], h);
        } else {
          BoundaryWeighted(p[start - 1..], text[1..], h);
        }
        OneChild(c);
        assert r.tree.children == [c];
      }
  }

  lemma NoChildren()
    ensures AllWeighted([]) && CountAll([]) == 0
  {}

  lemma OneChild(c: Tree)
    requires Weighted(c)
    ensures AllWeighted([c]) && CountAll([c]) == Count(c)
  {
    CountOne(c);
  }

  lemma BoundaryWeighted(path: bytes, name: bytes, h: Chain)
    requires path != []
    ensures var b := Boundary(path, name, h); Weighted(b) && Count(b) == 1
  {
    var b := Boundary(path, name, h);
    var leaf := b.children[0];
    NoChildren();
    CountOne(leaf);
    assert leaf.children == [] && Count(leaf) == 1 && !IsBoundary(leaf) && IsBoundary(b);
    assert Weighted(leaf) && b.children == [leaf];
  }

  lemma {:induction false} ParamWeighted(text: bytes, rest: bytes, h: Chain)
    requires text != []
    ensures var r := ParamNode(text, rest, h); r.status == Accepted ==> Weighted(r.tree) && Count(r.tree) == 1
    decreases |rest|, 1
  {
    var r := ParamNode(text, rest, h);
    if rest != [] {
      InsertWeighted(EMPTY.(priority := 1), rest, h);
      if r.status == Accepted {
        assert Weighted(r.tree.children[0]);
        CountOne(r.tree.children[0]);
      }
    }
  }

  lemma NewWeighted(rest: bytes, h: Chain)
    ensures var r := InsertChild(Bump(EMPTY), rest, h);
      r.status == Accepted ==> Weighted(r.tree) && r.tree.priority == 1 && Count(r.tree) == 1
  {
    hide InsertChild;
    InsertWeighted(Bump(EMPTY), rest, h);
  }

  /** A new static child among sorted ones. */
  lemma InsertStaticWeighted(t: Tree, rest: bytes, h: Chain)
    requires rest != [] && rest[0] < 128 && |t.indices| == |t.children| && AllWeighted(t.children)
    ensures var r := InsertStatic(t, rest, h);
      && (r.status == Accepted ==> AllWeighted(r.tree.children) && CountAll(r.tree.children) == CountAll(t.children) + 1)
      && r.tree == t.(indices := r.tree.indices, children := r.tree.children)
  {
    hide InsertStatic, InsertChild, Weighted, CountAll, Rotate;
    var newPos, sub := InsertStaticValue(t, rest, h);
    NewWeighted(rest, h);
    if sub.status == Accepted {
      var last, cs := |t.children|, t.children + [sub.tree];
      BubbleSorts(t.children + [EMPTY], last, sub.tree);
      assert (t.children + [EMPTY])[last := sub.tree] == cs;
      CountRotate(cs, newPos, last);
      CountConcat(t.children, [sub.tree]);
      CountOne(sub.tree);
    }
  }

  /** What an accepted registration does to the priorities. */
  ghost predicate Heavier(t: Tree, r: Outcome) {
    r.status == Accepted ==> Weighted(r.tree) && r.tree.priority == t.priority + 1 && Count(r.tree) == Count(t) + 1
  }

  lemma SplitWeighted(t: Tree, p: bytes)
    requires Weighted(t) && t.nType != CatchAll
    ensures var s := SplitAt(Bump(t), p);
      s.priority == t.priority + 1 && s.nType == t.nType && AllWeighted(s.children) && Count(s) == Count(t) == t.priority
  {
    var s := SplitAt(Bump(t), p);
    if CommonPrefix(p, t.path) < |t.path| {
      var tail := s.children[0];
      assert Weighted(tail);
      CountOne(tail);
    }
  }

  /** A child that went through a registration, put back in sorted order. */
  lemma DescendWeighted(s: Tree, idx: nat, r: Outcome)
    requires idx < |s.children| && idx < |s.indices| && AllWeighted(s.children) && Heavier(s.children[idx], r) && r.status == Accepted
    ensures var cs := Promote(s, idx).children[PromotedPos(s.children, idx) := r.tree];
      AllWeighted(cs) && CountAll(cs) == CountAll(s.children) + 1
  {
    var newPos := PromotedPos(s.children, idx);
    var cs := s.children[idx := r.tree];
    BubbleSorts(s.children, idx, r.tree);
    PromoteValue(s, idx, r.tree);
    CountRotate(cs, newPos, idx);
    CountReplace(s.children, idx, r.tree);
  }

  /** Every accepted registration below a node adds one to the node's priority and to the number of
      routes below it, and keeps the subtree weighted. */
  lemma {:induction false} WalkWeighted(t: Tree, p: bytes, h: Chain)
    requires Shape(t) && Enters(t, p) && SeparatedFrom(t, p) && ForksInAscii(t, p) && Weighted(t)
    ensures Heavier(t, Walk(t, p, h))
    decreases t, 2
  {
    hide Walk, WalkBelow, SplitAt, CommonPrefix, Shape, Weighted, AllWeighted, Count, HeavierBelow, Behind, Enters, Registered;
    if t.nType == CatchAll {
      WalkBoundary(t, p, h);
    } else {
      WalkUnfolds(t, p, h);
      SplitAtKeeps(t, p);
      SplitWeighted(t, p);
      var i, s := CommonPrefix(p, t.path), SplitAt(Bump(t), p);
      if i < |p| {
        EnterBehind(t, p);
        BelowWeighted(t, s, p[i..], i < |t.path|, h);
        RaisedAbove(t, s, WalkBelow(s, p[i..], i < |t.path|, h));
      } else if s.handlers.None? {
        EndWeighted(s, h);
      }
    }
  }

  lemma RaisedAbove(t: Tree, s: Tree, r: Outcome)
    requires s.priority == t.priority + 1 && Count(s) == Count(t) && s.nType == t.nType != CatchAll && HeavierBelow(s, r)
    requires t.priority == Count(t)
    ensures Heavier(t, r)
  {
    hide Count;
  }

  lemma EndWeighted(s: Tree, h: Chain)
    requires AllWeighted(s.children) && s.priority == Count(s) + 1 && s.handlers.None? && s.nType != CatchAll
    ensures var t := s.(handlers := Some(h)); Weighted(t) && Count(t) == Count(s) + 1
  {
  }

  /** The same behind a node whose own priority is already raised. */
  ghost predicate HeavierBelow(s: Tree, r: Outcome) {
    r.status == Accepted ==>
      r.tree.nType == s.nType && (r.tree.nType == CatchAll ==> r.tree.path == s.path) &&
      r.tree.priority == s.priority && Count(r.tree) == Count(s) + 1 && AllWeighted(r.tree.children)
  }

  lemma {:induction false} BelowWeighted(t: Tree, s: Tree, rest: bytes, split: bool, h: Chain)
    requires Behind(s, rest, split) && (!split ==> s == Bump(t)) && (!split ==> Weighted(t)) && AllWeighted(s.children)
    ensures HeavierBelow(s, WalkBelow(s, rest, split, h))
    decreases t, 1
  {
    if GoesDown(s, rest) {
      DownWeighted(t, s, rest, split, h);
    } else if !IsWild(rest[0]) {
      NewStaticWeighted(s, rest, split, h);
    } else if rest[0] == COLON {
      NewParamWeighted(s, rest, split, h);
    } else {
      StarBelow(s, rest, split, h);
    }
  }

  lemma NewStaticWeighted(s: Tree, rest: bytes, split: bool, h: Chain)
    requires Behind(s, rest, split) && AllWeighted(s.children) && (s.nType == Param ==> s.children == [])
    requires rest[0] !in s.indices && !IsWild(rest[0])
    ensures HeavierBelow(s, WalkBelow(s, rest, split, h))
  {
    hide Walk, InsertStatic, InsertChild, Registered, Mixed, Weighted;
    if s.wildChild {
      SeparatedBelow(s, 0, rest);
      SeparatedHead(s.children[0], rest);
      assert false;
    }
    assert Aligned(s.indices, s.children);
    ForkBelow(s, rest);
    InsertStaticWeighted(s, rest, h);
  }

  lemma NewParamWeighted(s: Tree, rest: bytes, split: bool, h: Chain)
    requires Behind(s, rest, split) && AllWeighted(s.children) && s.nType != Param
    requires rest[0] !in s.indices && rest[0] == COLON && !s.wildChild
    ensures HeavierBelow(s, WalkBelow(s, rest, split, h))
  {
    if s.children != [] {
      ChildShape(s, 0);
      SeparatedBelow(s, 0, rest);
      SeparatedHead(s.children[0], rest);
    }
    InsertWeighted(s, rest, h);
  }

  /** The child a walk goes on to, and what it leaves behind. */
  lemma {:induction false} DownWeighted(t: Tree, s: Tree, rest: bytes, split: bool, h: Chain)
    requires Behind(s, rest, split) && (!split ==> s == Bump(t)) && (!split ==> Weighted(t)) && AllWeighted(s.children)
    requires GoesDown(s, rest)
    ensures HeavierBelow(s, WalkBelow(s, rest, split, h))
    decreases t, 0
  {
    hide Walk, WalkBelow, Promote, PromotedPos, Shape, Weighted, Count, CountAll, Registered, SeparatedFrom, ForksInAscii;
    BehindCases(s, rest, split);
    if s.nType != Param && !s.wildChild {
      var idx := IndexOf(s.indices, rest[0]);
      SeparatedBelow(s, idx, rest);
      ForksBelow(s, idx, rest);
      WalkWeighted(t.children[idx], rest, h);
      SelectedTurn(s, idx, rest, h);
      var r := Walk(t.children[idx], rest, h);
      if r.status == Accepted {
        DescendWeighted(s, idx, r);
        AboveWeighted(s, Promote(s, idx), Promote(s, idx).children[PromotedPos(s.children, idx) := r.tree]);
      }
    } else {
      if s.nType == Param { ThroughParamTurn(s, rest, h); } else { FollowTurn(s, rest, h); }
      if s.nType == Param || Follows(rest, s.children[0]) {
        SeparatedBelow(s, 0, rest);
        ForksBelow(s, 0, rest);
        WalkWeighted(t.children[0], rest, h);
        var r := Walk(t.children[0], rest, h);
        OnlyChildWeighted(s, r);
        if r.status == Accepted { AboveWeighted(s, s, [r.tree]); }
      }
    }
  }

  lemma AboveWeighted(s: Tree, u: Tree, cs: seq<Tree>)
    requires u == s.(indices := u.indices, children := u.children)
    requires AllWeighted(cs) && CountAll(cs) == CountAll(s.children) + 1
    ensures HeavierBelow(s, Outcome(u.(children := cs), Accepted))
  {
    hide CountAll, AllWeighted;
  }

  lemma OnlyChildWeighted(s: Tree, r: Outcome)
    requires |s.children| == 1 && Heavier(s.children[0], r)
    ensures r.status == Accepted ==> AllWeighted([r.tree]) && CountAll([r.tree]) == CountAll(s.children) + 1
  {
    CountOne(r.tree);
    CountOne(s.children[0]);
    assert s.children == [s.children[0]];
  }

  /** After any accepted registrations the root's priority is the number of routes. */
  lemma {:induction false} PrioritiesCountRoutes(rs: seq<Route>)
    requires Supported(rs) && Consistent(rs)
    ensures var t := RegisterAll(rs).tree; Weighted(t) && Count(t) == |rs| && t.priority == |rs|
  {
    hide RegisterAll, AddRoute, Shape, StandsFor, Supported, Consistent, Weighted, Count;
    if rs == [] {
      EmptyWeighted();
    } else {
      var init, last := rs[..|rs| - 1], rs[|rs| - 1];
      InitKeeps(rs);
      StartsWithSlash(rs, |rs| - 1);
      PrioritiesCountRoutes(init);
      RegisterAllCorrect(init);
      RegisterAllCorrect(rs);
      RegisterSteps(rs);
      if init == [] {
        FirstWeighted(last.pattern, last.handlers);
      } else {
        assert init + [last] == rs;
        TableSeparated(RegisterAll(init).tree, init, last);
        AddWeighted(RegisterAll(init).tree, last.pattern, last.handlers);
      }
    }
  }

  lemma StartsWithSlash(rs: seq<Route>, i: nat)
    requires Supported(rs) && i < |rs|
    ensures rs[i].pattern != [] && rs[i].pattern[0] == SLASH
  {}

  lemma EmptyWeighted()
    ensures RegisterAll([]).tree == EMPTY && Weighted(EMPTY) && Count(EMPTY) == 0
  {}

  lemma FirstWeighted(p: bytes, h: Chain)
    requires p != [] && p[0] == SLASH
    ensures var r := AddRoute(EMPTY, p, h); r.status == Accepted ==> Weighted(r.tree) && Count(r.tree) == 1 && r.tree.priority == 1
  {
    hide InsertChild;
    InsertWeighted(Bump(EMPTY), p, h);
  }

  lemma AddWeighted(t: Tree, p: bytes, h: Chain)
    requires Shape(t) && t.nType == Root && Head(t) == SLASH && Weighted(t)
    requires p != [] && p[0] == SLASH && SeparatedFrom(t, p) && ForksInAscii(t, p)
    ensures Heavier(t, AddRoute(t, p, h))
  {
    var q, g := SomeRegistered(t);
    RegisteredStart(t, q, g);
    WalkWeighted(t, p, h);
  }

  lemma TableSeparated(t: Tree, rs: seq<Route>, r: Route)
    requires StandsFor(t, rs) && Supported(rs + [r])
    ensures SeparatedFrom(t, r.pattern) && ForksInAscii(t, r.pattern)
  {
    hide Mixed, AsciiFork;
    var all := rs + [r];
    assert all[|rs|] == r;
    forall q, g | Registered(t, q, g)
      ensures !Mixed(r.pattern, q) && AsciiFork(r.pattern, q)
    {
      var i :| 0 <= i < |rs| && rs[i] == Route(q, g);
      assert all[i] == rs[i];
    }
  }

  // ---- the root of any tree ----

  /** A registration adds one to the priority of the node it starts from, for any pattern. */
  lemma WalkRaises(t: Tree, p: bytes, h: Chain)
    ensures Walk(t, p, h).tree.priority == t.priority + 1
  {
    hide CommonPrefix, RuneString, InsertChild;
    var s := SplitAt(Bump(t), p);
    var i := CommonPrefix(p, t.path);
    if i < |p| { BelowKeeps(s, p[i..], i < |t.path|, h); }
  }

  lemma BelowKeeps(t: Tree, rest: bytes, split: bool, h: Chain)
    requires rest != [] && (split ==> |t.children| == 1 && t.children[0].nType != Param && !t.wildChild)
    ensures WalkBelow(t, rest, split, h).tree.priority == t.priority
  {
    hide Walk, RuneString, Rotate;
    GrowKeeps(t, rest, h);
  }

  lemma GrowKeeps(t: Tree, p: bytes, h: Chain)
    ensures InsertChild(t, p, h).tree.priority == t.priority
  {
    hide ParamNode;
  }

  /** After any accepted registrations, of any patterns, the root's priority is the number of routes. */
  lemma {:induction false} RootCountsRoutes(rs: seq<Route>)
    requires RegisterAll(rs).status == Accepted
    ensures RegisterAll(rs).tree.priority == |rs|
  {
    hide Walk, InsertChild;
    if rs != [] {
      var init, last := rs[..|rs| - 1], rs[|rs| - 1];
      RootCountsRoutes(init);
      var t := RegisterAll(init).tree;
      GrowKeeps(Bump(t), last.pattern, last.handlers);
      WalkRaises(t, last.pattern, last.handlers);
    }
  }
}
