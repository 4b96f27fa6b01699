/** Where a catch-all hangs: directly below the node that its slash follows, or below an empty node of its own. The
    hint for adding a slash depends on it, and it depends on what was registered before. */
module TreeBoundary {
  import opened Bytes
  import opened Wrappers
  import opened Patterns
  import opened PatternLemmas
  import opened RadixTree
  import opened TreeShape
  import opened TreeInsert
  import opened TreeWalk
  import opened TreeLookup
  import opened TreeRedirect
  import opened TreeHints
  import TreeCompact
  import TreeTrailing
  import opened RouteTable

  // ---- the pattern before a catch-all ----

  /** The pattern ends in a parameter. */
  predicate EndsInParam(s: bytes)
    decreases |s|
  {
    if s == [] then false
    else if s[0] == COLON then SegmentEnd(s) == |s| || EndsInParam(s[SegmentEnd(s)..])
    else EndsInParam(s[1..])
  }

  /** Pattern `p` is `s` and a catch-all behind it, and `s` ends in a literal byte. */
  predicate IsStem(p: bytes, s: bytes) { s != [] && s <= p && StartsCatchAll(p[|s|..]) && !EndsInParam(s) }

  lemma StemBytes(p: bytes, s: bytes)
    requires IsStem(p, s)
    ensures |s| + 1 < |p| && p[|s|] == SLASH && p[|s| + 1] == STAR && !EndsInParam(s)
  {
    assert p[|s|..][0] == p[|s|] && p[|s|..][1] == p[|s| + 1];
  }

  lemma {:induction false} EndsAfterLiteral(x: bytes, s: bytes)
    requires Literal(x)
    ensures EndsInParam(x + s) == EndsInParam(s)
  {
    if x == [] {
      assert x + s == s;
    } else {
      DropWithin(x, s, 1);
      EndsAfterLiteral(x[1..], s);
    }
  }

  lemma EndsAfterParam(name: bytes, s: bytes)
    requires ValidName(name) && AfterParam(s)
    ensures EndsInParam([COLON] + name + s) == (s == [] || EndsInParam(s))
  {
    ParamSegment(name, s);
  }

  lemma StemAfterLiteral(x: bytes, q: bytes, s: bytes)
    requires Literal(x) && s != []
    ensures IsStem(x + q, x + s) <==> IsStem(q, s)
  {
    hide EndsInParam;
    EndsAfterLiteral(x, s);
    PrefixAfter(x, q, s);
  }

  lemma PrefixAfter(x: bytes, q: bytes, s: bytes)
    ensures x + s <= x + q <==> s <= q
    ensures s <= q ==> (x + q)[|x + s|..] == q[|s|..]
  {
    if x + s <= x + q { assert forall k :: 0 <= k < |s| ==> s[k] == (x + s)[|x| + k] == (x + q)[|x| + k] == q[k]; }
    if s <= q { assert q == s + q[|s|..]; }
  }

  lemma StemAfterParam(name: bytes, q: bytes, s: bytes)
    requires ValidName(name) && AfterParam(q) && s != []
    ensures IsStem([COLON] + name + q, [COLON] + name + s) <==> IsStem(q, s)
  {
    hide EndsInParam;
    PrefixAfter([COLON] + name, q, s);
    if s <= q { EndsAfterParam(name, s); }
  }

  /** Of two prefixes of a string one is a prefix of the other. */
  lemma TwoPrefixes(x: bytes, s: bytes, p: bytes)
    requires x <= p && s <= p
    ensures if |x| <= |s| then x <= s else s <= x
  {
    assert x == p[..|x|] && s == p[..|s|];
  }

  /** A stem does not end within the text of a node, or of a parameter. */
  lemma NoStemWithin(x: bytes, q: bytes, s: bytes)
    requires IsStem(x + q, s) && !(x <= s)
    requires forall k :: 0 <= k < |x| ==> x[k] != STAR
    ensures q != [] && q[0] == STAR && x[|x| - 1] == SLASH
  {
    var p := x + q;
    TwoPrefixes(x, s, p);
    assert p[|s|..][0] == p[|s|] && p[|s|..][1] == p[|s| + 1];
    assert forall k :: 0 <= k < |x| ==> p[k] == x[k];
    assert forall k :: 0 <= k < |q| ==> p[|x| + k] == q[k];
  }

  // ---- where a catch-all hangs ----

  predicate EndsDirect(t: Tree) { t.nType != Param && exists i :: 0 <= i < |t.children| && t.children[i].nType == CatchAll }

  /** A catch-all hangs directly below the node at which pattern `s` ends. */
  ghost predicate Direct(t: Tree, s: bytes)
    decreases t
  {
    t.path <= s && if s == t.path then EndsDirect(t) else DirectIn(t.children, s[|t.path|..])
  }

  ghost predicate DirectIn(cs: seq<Tree>, s: bytes)
    decreases cs
  {
    exists i :: 0 <= i < |cs| && Direct(cs[i], s)
  }

  lemma DirectBelow(t: Tree, s: bytes)
    requires s != []
    ensures Direct(t, t.path + s) <==> DirectIn(t.children, s)
  {
    assert (t.path + s)[|t.path|..] == s;
  }

  lemma OneDirect(c: Tree, s: bytes)
    ensures DirectIn([c], s) <==> Direct(c, s)
  {
    hide Direct;
    assert [c][0] == c;
  }

  lemma NoneDirect(s: bytes)
    ensures !DirectIn([], s)
  {}

  lemma BoundaryNotDirect(c: Tree, s: bytes)
    requires Shape(c) && c.nType == CatchAll && s != []
    ensures !Direct(c, s)
  {
    var leaf := c.children[0];
    assert s[0..] == s;
    assert !Direct(leaf, s);
  }

  /** What hangs below a selected child starts with the byte that selects it. */
  lemma DirectStart(c: Tree, b: byte, s: bytes)
    requires SelectedBy(c, b) && s != [] && Direct(c, s)
    ensures s[0] == b
  {
    if c.nType == CatchAll {
      BoundaryNotDirect(c, s);
    } else if c.path == [] {
      ChildShape(c, 0);
      assert s[0..] == s;
      BoundaryNotDirect(c.children[0], s);
    }
  }

  /** No route of `t` starts with `s`. */
  ghost predicate NewPlace(t: Tree, s: bytes) { forall r, g :: Registered(t, r, g) ==> !(s <= r) }

  ghost predicate NewIn(cs: seq<Tree>, s: bytes) { forall r, g :: InSome(cs, r, g) ==> !(s <= r) }

  /** The tree `t'` has one more route `p`: its catch-all hangs directly where no route has gone on before. */
  ghost predicate Gains(t: Tree, t': Tree, p: bytes) {
    forall s :: s != [] ==> (Direct(t', s) <==> Direct(t, s) || (IsStem(p, s) && NewPlace(t, s)))
  }

  ghost predicate GainsIn(cs: seq<Tree>, cs': seq<Tree>, rest: bytes) {
    forall s :: s != [] ==> (DirectIn(cs', s) <==> DirectIn(cs, s) || (IsStem(rest, s) && NewIn(cs, s)))
  }

  lemma NewBelow(t: Tree, s: bytes)
    requires Shape(t) && s != []
    ensures NewPlace(t, t.path + s) <==> NewIn(t.children, s)
  {
    hide Shape, Registered;
    if NewPlace(t, t.path + s) {
      forall r, g | InSome(t.children, r, g)
        ensures !(s <= r)
      {
        var i :| 0 <= i < |t.children| && Registered(t.children[i], r, g);
        RegisteredBelow(t, i, r, g);
        PrefixAfter(t.path, r, s);
      }
    }
    if NewIn(t.children, s) {
      forall q, g | Registered(t, q, g)
        ensures !(t.path + s <= q)
      {
        var r := RouteCases(t, q, g);
        PrefixAfter(t.path, r, s);
      }
    }
  }

  /** Every route of a node starts with its text. */
  lemma NotNewWithin(t: Tree, s: bytes)
    requires Shape(t) && s <= t.path
    ensures !NewPlace(t, s)
  {
    hide Shape, Registered;
    var q, g := SomeRegistered(t);
    RegisteredStart(t, q, g);
    assert s == q[..|t.path|][..|s|];
  }

  /** What the children gain, the node gains. */
  lemma ParentGains(t: Tree, t': Tree, rest: bytes)
    requires Shape(t) && t.nType != CatchAll && Continues(t, rest) && rest != []
    requires t'.path == t.path && t'.nType == t.nType && (EndsDirect(t') <==> EndsDirect(t)) && GainsIn(t.children, t'.children, rest)
    ensures Gains(t, t', t.path + rest)
  {
    hide Shape, IsStem, EndsDirect, DirectIn, NewPlace, NewIn;
    forall s | s != []
      ensures Direct(t', s) <==> Direct(t, s) || (IsStem(t.path + rest, s) && NewPlace(t, s))
    {
      if t.path <= s && s != t.path {
        var below := s[|t.path|..];
        assert s == t.path + below;
        StemBelow(t, rest, below);
        NewBelow(t, below);
      } else {
        if IsStem(t.path + rest, s) { StemOutside(t, rest, s); }
      }
    }
  }

  lemma StemBelow(t: Tree, rest: bytes, s: bytes)
    requires Shape(t) && t.nType != CatchAll && Continues(t, rest) && s != []
    ensures IsStem(t.path + rest, t.path + s) <==> IsStem(rest, s)
  {
    hide IsStem;
    if t.nType == Param { StemAfterParam(t.paramName, rest, s); } else { StemAfterLiteral(t.path, rest, s); }
  }

  lemma StemOutside(t: Tree, rest: bytes, s: bytes)
    requires Shape(t) && IsStem(t.path + rest, s) && (!(t.path <= s) || s == t.path)
    ensures !NewPlace(t, s)
  {
    hide Shape, NewPlace;
    var p := t.path + rest;
    TwoPrefixes(t.path, s, p);
    NotNewWithin(t, s);
  }

  // ---- new nodes ----

  /** A grown node has its catch-all hang directly behind the stem of its pattern. */
  ghost predicate GrownFor(t: Tree, p: bytes) { forall s :: s != [] ==> (Direct(t, s) <==> IsStem(p, s)) }

  lemma {:induction false} GrowDirect(t: Tree, p: bytes, h: Chain)
    requires Fresh(t) && p != [] && !IsWild(p[0]) && InsertChild(t, p, h).status == Accepted
    ensures GrownFor(InsertChild(t, p, h).tree, p)
    decreases |p|, 2
  {
    hide InsertChild, GrownFor, FirstWild;
    var i := FirstWild(p);
    GrowFresh(t, p, h);
    if i == |p| {
      GrowLiteral(t, p, h);
    } else if p[i] == COLON {
      GrowToParam(t, p, i, h);
    } else {
      GrowToCatchAll(t, p, i, h);
    }
  }

  lemma GrowLiteral(t: Tree, p: bytes, h: Chain)
    requires Fresh(t) && FirstWild(p) == |p|
    ensures GrownFor(InsertChild(t, p, h).tree, p)
  {
    hide Direct, DirectIn, EndsDirect, FirstWild, EndsInParam;
    var r := InsertChild(t, p, h).tree;
    assert r.path == p && r.children == [] && p[..|p|] == p;
    forall s | s != []
      ensures Direct(r, s) <==> IsStem(p, s)
    {
      ChildlessNotDirect(r, s);
      NoStemInLiteral(p, s);
    }
  }

  lemma ChildlessNotDirect(t: Tree, s: bytes)
    requires t.children == []
    ensures !Direct(t, s)
  {}

  lemma NoStemInLiteral(p: bytes, s: bytes)
    requires Literal(p)
    ensures !IsStem(p, s)
  {
    hide IsStem, EndsInParam;
    if IsStem(p, s) { StemBytes(p, s); }
  }

  lemma {:induction false} GrowToParam(t: Tree, p: bytes, i: nat, h: Chain)
    requires Fresh(t) && 0 < i == FirstWild(p) < |p| && p[i] == COLON && InsertChild(t, p, h).status == Accepted
    ensures GrownFor(InsertChild(t, p, h).tree, p)
    decreases |p|, 1
  {
    hide InsertChild, ParamNode, Direct, IsStem, FirstWild;
    var q, r := p[i..], InsertChild(t, p, h).tree;
    ParamSteps(t, p, i, h);
    var text, rest := q[..SegmentEnd(q)], q[SegmentEnd(q)..];
    assert p == p[..i] + q && text == [COLON] + text[1..] && q == text + rest;
    ParamDirect(text[1..], rest, h);
    GrownAbove(r, p[..i], q);
  }

  /** A literal text above a parameter. */
  lemma GrownAbove(t: Tree, x: bytes, q: bytes)
    requires Literal(x) && t.path == x && |t.children| == 1 && t.children[0].nType == Param
    requires q != [] && q[0] == COLON && GrownFor(t.children[0], q)
    ensures GrownFor(t, x + q)
  {
    hide IsStem;
    var w := t.children[0];
    forall s | s != []
      ensures Direct(t, s) <==> IsStem(x + q, s)
    {
      if x <= s && s != x {
        var below := s[|x|..];
        assert s == x + below;
        StemAfterLiteral(x, q, below);
        DirectBelow(t, below);
        assert t.children == [w];
        OneDirect(w, below);
      } else {
        NoStemUpTo(x, q, s);
      }
    }
  }

  lemma NoStemUpTo(x: bytes, q: bytes, s: bytes)
    requires Literal(x) && q != [] && q[0] != STAR && q[0] != SLASH && (!(x <= s) || s == x)
    ensures !IsStem(x + q, s)
  {
    hide IsStem, EndsInParam;
    assert (x + q)[|x|] == q[0];
    if IsStem(x + q, s) {
      if s == x { StemBytes(x + q, s); } else { NoStemWithin(x, q, s); }
    }
  }

  /** What a parameter node grown for a pattern stands for. */
  lemma {:induction false} ParamDirect(name: bytes, rest: bytes, h: Chain)
    requires ValidName(name) && AfterParam(rest) && ParamNode([COLON] + name, rest, h).status == Accepted
    ensures GrownFor(ParamNode([COLON] + name, rest, h).tree, [COLON] + name + rest)
    ensures ParamNode([COLON] + name, rest, h).tree.nType == Param
    decreases |rest|, 3
  {
    hide InsertChild, IsStem, Direct;
    var text := [COLON] + name;
    var w := ParamNode(text, rest, h).tree;
    if rest != [] { GrowDirect(EMPTY.(priority := 1), rest, h); }
    forall s | s != []
      ensures Direct(w, s) <==> IsStem(text + rest, s)
    {
      if text <= s && s != text {
        var below := s[|text|..];
        assert s == text + below;
        StemAfterParam(name, rest, below);
        DirectBelow(w, below);
        if rest == [] { NoStemOfNothing(below); NoneDirect(below); } else { OneDirect(w.children[0], below); }
      } else {
        ParamNotDirect(w, s);
        NoStemInParam(name, rest, s);
      }
    }
  }

  lemma NoStemOfNothing(s: bytes)
    requires s != []
    ensures !IsStem([], s)
  {}

  lemma ParamNotDirect(w: Tree, s: bytes)
    requires w.nType == Param && (!(w.path <= s) || s == w.path)
    ensures !Direct(w, s)
  {}

  lemma NoStemInParam(name: bytes, rest: bytes, s: bytes)
    requires ValidName(name) && AfterParam(rest) && (!([COLON] + name <= s) || s == [COLON] + name)
    ensures !IsStem([COLON] + name + rest, s)
  {
    hide IsStem, EndsInParam;
    EndsAfterParam(name, []);
    assert [COLON] + name + [] == [COLON] + name;
    if IsStem([COLON] + name + rest, s) {
      if s == [COLON] + name { StemBytes([COLON] + name + rest, s); } else { NoStemWithin([COLON] + name, rest, s); }
    }
  }

  lemma GrowToCatchAll(t: Tree, p: bytes, i: nat, h: Chain)
    requires Fresh(t) && 0 < i == FirstWild(p) < |p| && p[i] != COLON && InsertChild(t, p, h).status == Accepted
    ensures GrownFor(InsertChild(t, p, h).tree, p)
  {
    hide InsertChild, FirstWild, WellFormed, Direct, IsStem;
    var x, y := p[..i - 1], p[i - 1..];
    if p[i - 1] != SLASH { NoSlashRejects(t, p, i, h); }
    InsertCatchAll(t, p, i, h);
    var r, b := InsertChild(t, p, h).tree, Boundary(y, y[2..], h);
    assert p == x + y && Literal(x) by { assert forall k :: 0 <= k < i - 1 ==> x[k] == p[..i][k]; }
    assert r.path == x && r.children == [b] && y[0] == SLASH && y[1] == STAR;
    BoundaryCorrect(y, h);
    forall s | s != []
      ensures Direct(r, s) <==> IsStem(p, s)
    {
      if s == x {
        LiteralStem(x, y);
        EndsAtBoundary(r, x);
      } else if x <= s {
        var below := s[|x|..];
        assert s == x + below;
        DirectBelow(r, below);
        OneDirect(b, below);
        BoundaryNotDirect(b, below);
        StemAfterLiteral(x, y, below);
        NoStemInCatchAll(y, below);
      } else {
        NotDirectAside(r, s);
        NoStemBefore(x, y, s);
      }
    }
  }

  lemma LiteralStem(x: bytes, y: bytes)
    requires Literal(x) && x != [] && StartsCatchAll(y)
    ensures IsStem(x + y, x)
  {
    EndsAfterLiteral(x, []);
    assert x + [] == x && (x + y)[|x|..] == y;
  }

  lemma EndsAtBoundary(t: Tree, x: bytes)
    requires t.path == x && t.nType != Param && |t.children| == 1 && t.children[0].nType == CatchAll
    ensures Direct(t, x)
  {}

  lemma NotDirectAside(t: Tree, s: bytes)
    requires !(t.path <= s)
    ensures !Direct(t, s)
  {}

  lemma NoStemInCatchAll(y: bytes, s: bytes)
    requires StartsCatchAll(y) && ValidName(y[2..]) && s != []
    ensures !IsStem(y, s)
  {
    hide IsStem, EndsInParam;
    assert forall k :: 2 <= k < |y| ==> y[k] == y[2..][k - 2];
    if IsStem(y, s) { StemBytes(y, s); }
  }

  lemma NoStemBefore(x: bytes, y: bytes, s: bytes)
    requires Literal(x) && y != [] && y[0] == SLASH && !(x <= s)
    ensures !IsStem(x + y, s)
  {
    hide EndsInParam;
    if IsStem(x + y, s) { NoStemWithin(x, y, s); }
  }

  // ---- the walk ----

  lemma SplitDirect(t: Tree, p: bytes)
    requires Shape(t) && t.nType != CatchAll && Enters(t, p) && ForksInAscii(t, p)
    ensures var s0 := SplitAt(Bump(t), p); forall s :: s != [] ==> (Direct(s0, s) <==> Direct(t, s))
    ensures var s0 := SplitAt(Bump(t), p); forall s :: NewPlace(s0, s) <==> NewPlace(t, s)
  {
    hide Shape, Registered, CommonPrefix;
    SplitAtKeeps(t, p);
    var i, s0 := CommonPrefix(p, t.path), SplitAt(Bump(t), p);
    forall s | s != []
      ensures Direct(s0, s) <==> Direct(t, s)
    {
      if i < |t.path| { CutDirect(t, i, s); } else { PriorityDirect(t, s); }
    }
  }

  lemma PriorityDirect(t: Tree, s: bytes)
    ensures Direct(Bump(t), s) <==> Direct(t, s)
  {}

  lemma CutDirect(t: Tree, i: nat, s: bytes)
    requires i < |t.path| && t.nType != Param
    ensures Direct(Split(Bump(t), i), s) <==> Direct(t, s)
  {
    hide RuneString;
    var cut := Split(Bump(t), i);
    var tail := cut.children[0];
    assert t.path == t.path[..i] + t.path[i..];
    if cut.path <= s {
      var below := s[i..];
      assert s == t.path[..i] + below;
      PrefixAfter(t.path[..i], below, t.path[i..]);
      if t.path <= s { assert s[|t.path|..] == below[|tail.path|..]; }
      assert s == t.path <==> below == tail.path;
      assert below != [] ==> (Direct(cut, s) <==> Direct(tail, below));
    } else {
      ShorterPrefix(t.path[..i], t.path[i..], s);
    }
  }

  lemma ShorterPrefix(x: bytes, y: bytes, s: bytes)
    ensures x + y <= s ==> x <= s
  {
    if x + y <= s { assert s[..|x + y|][..|x|] == x; }
  }

  lemma WithHandlers(t: Tree, h: Chain, s: bytes)
    ensures Direct(t.(handlers := Some(h)), s) <==> Direct(t, s)
  {}

  /** An accepted registration has its catch-all hang directly where no route has gone on, and moves no other. */
  lemma {:induction false} WalkDirect(t: Tree, p: bytes, h: Chain)
    requires Shape(t) && Enters(t, p) && SeparatedFrom(t, p) && ForksInAscii(t, p) && Walk(t, p, h).status == Accepted
    ensures Gains(t, Walk(t, p, h).tree, p)
    decreases t, 2
  {
    hide Walk, WalkBelow, SplitAt, CommonPrefix, Shape, Behind, Enters, Registered, Direct, IsStem, NewPlace, SeparatedFrom, ForksInAscii;
    if t.nType == CatchAll {
      WalkBoundary(t, p, h);
    } else {
      WalkUnfolds(t, p, h);
      SplitAtKeeps(t, p);
      SplitDirect(t, p);
      var i, s0 := CommonPrefix(p, t.path), SplitAt(Bump(t), p);
      if i < |p| {
        EnterBehind(t, p);
        TreeCompact.SplitOrNot(t, p);
        BelowDirect(t, s0, p[i..], i < |t.path|, h);
      } else {
        assert p[..i] == p;
        forall s ensures !IsStem(p, s) { NoStemInText(s0, s); }
        forall s ensures Direct(s0.(handlers := Some(h)), s) <==> Direct(s0, s) { WithHandlers(s0, h, s); }
      }
    }
  }

  lemma NoStemInText(t: Tree, s: bytes)
    requires Shape(t) && t.nType != CatchAll
    ensures !IsStem(t.path, s)
  {
    hide IsStem, EndsInParam;
    if t.nType == Param {
      NoStarInParam(t);
      if IsStem(t.path, s) { StemBytes(t.path, s); }
    } else {
      NoStemInLiteral(t.path, s);
    }
  }

  lemma NoStarInParam(t: Tree)
    requires Shape(t) && t.nType == Param
    ensures forall k :: 0 <= k < |t.path| ==> t.path[k] != STAR
  {}

  lemma {:induction false} BelowDirect(t: Tree, s0: Tree, rest: bytes, split: bool, h: Chain)
    requires Behind(s0, rest, split) && (!split ==> s0 == Bump(t)) && WalkBelow(s0, rest, split, h).status == Accepted
    ensures Gains(s0, WalkBelow(s0, rest, split, h).tree, s0.path + rest)
    decreases t, 1
  {
    hide Walk, WalkBelow, Shape, Registered, Gains;
    if GoesDown(s0, rest) {
      DownDirect(t, s0, rest, split, h);
    } else if !IsWild(rest[0]) {
      NewStaticDirect(s0, rest, split, h);
    } else if rest[0] == COLON {
      NewParamDirect(s0, rest, split, h);
    } else {
      TreeCompact.NotSelected(s0, rest, split);
      StarBelow(s0, rest, split, h);
    }
  }

  // ---- a new child ----

  lemma NewStaticDirect(s0: Tree, rest: bytes, split: bool, h: Chain)
    requires Behind(s0, rest, split) && !GoesDown(s0, rest) && !IsWild(rest[0]) && WalkBelow(s0, rest, split, h).status == Accepted
    ensures Gains(s0, WalkBelow(s0, rest, split, h).tree, s0.path + rest)
  {
    hide Walk, InsertStatic, InsertChild, Registered, Mixed, Gains, GainsIn, Direct, GrownFor, BubblePos, Rotate;
    if s0.wildChild {
      SeparatedBelow(s0, 0, rest);
      SeparatedHead(s0.children[0], rest);
      assert false;
    }
    assert Aligned(s0.indices, s0.children);
    ForkBelow(s0, rest);
    var newPos, sub := InsertStaticValue(s0, rest, h);
    GrowDirect(Bump(EMPTY), rest, h);
    GrowFresh(Bump(EMPTY), rest, h);
    var r := InsertStatic(s0, rest, h).tree;
    NewChildGains(s0, newPos, sub.tree, rest);
    EndsAlike(s0, r, newPos, sub.tree);
    ParentGains(s0, r, rest);
  }

  /** A new static child among the others. */
  lemma NewChildGains(t: Tree, newPos: nat, c: Tree, rest: bytes)
    requires Shape(t) && t.nType != CatchAll && !t.wildChild && rest != [] && rest[0] !in t.indices
    requires GrownFor(c, rest) && newPos <= |t.children|
    ensures GainsIn(t.children, Rotate(t.children + [c], newPos, |t.children|), rest)
  {
    hide Shape, Direct, IsStem, NewIn, Rotate;
    var cs := t.children + [c];
    forall s | s != []
      ensures DirectIn(Rotate(cs, newPos, |t.children|), s) <==> DirectIn(t.children, s) || (IsStem(rest, s) && NewIn(t.children, s))
    {
      RotateDirectIn(cs, newPos, |t.children|, s);
      AppendDirect(t.children, c, s);
      if IsStem(rest, s) { NoRouteBefore(t, rest, s); }
    }
  }

  lemma NoRouteBefore(t: Tree, rest: bytes, s: bytes)
    requires Shape(t) && t.nType != CatchAll && !t.wildChild && rest != [] && rest[0] !in t.indices && IsStem(rest, s)
    ensures NewIn(t.children, s)
  {
    hide Shape, InSome;
    StemHead(rest, s);
    forall r, g | InSome(t.children, r, g)
      ensures !(s <= r)
    {
      RoutePlace(t, r, g);
    }
  }

  lemma StemHead(p: bytes, s: bytes)
    requires IsStem(p, s)
    ensures s != [] && p != [] && s[0] == p[0]
  {}

  lemma AppendDirect(cs: seq<Tree>, c: Tree, s: bytes)
    ensures DirectIn(cs + [c], s) <==> DirectIn(cs, s) || Direct(c, s)
  {
    hide Direct;
    var all := cs + [c];
    if i :| 0 <= i < |cs| && Direct(cs[i], s) { assert Direct(all[i], s); }
    if Direct(c, s) { assert Direct(all[|cs|], s); }
  }

  lemma RotateDirectIn(cs: seq<Tree>, newPos: nat, pos: nat, s: bytes)
    requires newPos <= pos < |cs|
    ensures DirectIn(Rotate(cs, newPos, pos), s) <==> DirectIn(cs, s)
  {
    hide Direct;
    var r := Rotate(cs, newPos, pos);
    if i :| 0 <= i < |cs| && Direct(cs[i], s) {
      var j := if i == pos then newPos else if newPos <= i < pos then i + 1 else i;
      assert Direct(r[j], s);
    }
    if j :| 0 <= j < |r| && Direct(r[j], s) {
      var i := if j == newPos then pos else if newPos < j <= pos then j - 1 else j;
      assert Direct(cs[i], s);
    }
  }

  lemma EndsAlike(t: Tree, t': Tree, newPos: nat, c: Tree)
    requires newPos <= |t.children| && t'.children == Rotate(t.children + [c], newPos, |t.children|) && t'.nType == t.nType
    requires c.nType != CatchAll
    ensures EndsDirect(t') <==> EndsDirect(t)
  {
    hide Rotate;
    var cs := t.children + [c];
    if t.nType != Param {
      if i :| 0 <= i < |t.children| && t.children[i].nType == CatchAll {
        assert cs[i].nType == CatchAll;
        RotatedType(cs, newPos, |t.children|, i);
      }
      if j :| 0 <= j < |t'.children| && t'.children[j].nType == CatchAll {
        RotatedFrom(cs, newPos, |t.children|, j);
      }
    }
  }

  lemma RotatedType(cs: seq<Tree>, newPos: nat, pos: nat, i: nat)
    requires newPos <= pos < |cs| && i < |cs| && cs[i].nType == CatchAll
    ensures exists j :: 0 <= j < |cs| && Rotate(cs, newPos, pos)[j].nType == CatchAll
  {
    var j := if i == pos then newPos else if newPos <= i < pos then i + 1 else i;
    assert Rotate(cs, newPos, pos)[j] == cs[i];
  }

  lemma NewParamDirect(s0: Tree, rest: bytes, split: bool, h: Chain)
    requires Behind(s0, rest, split) && !GoesDown(s0, rest) && rest[0] == COLON && WalkBelow(s0, rest, split, h).status == Accepted
    ensures Gains(s0, WalkBelow(s0, rest, split, h).tree, s0.path + rest)
  {
    hide Walk, InsertStatic, InsertChild, Registered, Mixed, Gains, Direct, IsStem, ParamNode, FirstWild;
    if s0.children != [] {
      ChildShape(s0, 0);
      SeparatedBelow(s0, 0, rest);
      SeparatedHead(s0.children[0], rest);
    }
    FirstIsWild(rest);
    ParamSteps(s0, rest, 0, h);
    assert rest[0..] == rest;
    var text, tail := rest[..SegmentEnd(rest)], rest[SegmentEnd(rest)..];
    assert text == [COLON] + text[1..] && rest == text + tail;
    ParamDirect(text[1..], tail, h);
    var r, w := InsertChild(s0, rest, h).tree, ParamNode(text, tail, h).tree;
    OnlyChildGains(w, rest);
    ParentGains(s0, r, rest);
  }

  lemma FirstIsWild(p: bytes)
    requires p != [] && IsWild(p[0])
    ensures FirstWild(p) == 0
  {}

  lemma OnlyChildGains(w: Tree, rest: bytes)
    requires GrownFor(w, rest)
    ensures GainsIn([], [w], rest)
  {
    hide Direct, IsStem;
    forall s | s != []
      ensures DirectIn([w], s) <==> DirectIn([], s) || (IsStem(rest, s) && NewIn([], s))
    {
      OneDirect(w, s);
    }
  }

  // ---- an existing child ----

  lemma {:induction false} DownDirect(t: Tree, s0: Tree, rest: bytes, split: bool, h: Chain)
    requires Behind(s0, rest, split) && (!split ==> s0 == Bump(t)) && GoesDown(s0, rest)
    requires WalkBelow(s0, rest, split, h).status == Accepted
    ensures Gains(s0, WalkBelow(s0, rest, split, h).tree, s0.path + rest)
    decreases t, 0
  {
    hide Walk, WalkBelow, Promote, PromotedPos, Shape, Registered, SeparatedFrom, ForksInAscii, Gains, Direct;
    BehindCases(s0, rest, split);
    if s0.nType != Param && !s0.wildChild {
      var idx := IndexOf(s0.indices, rest[0]);
      SeparatedBelow(s0, idx, rest);
      ForksBelow(s0, idx, rest);
      SelectedTurn(s0, idx, rest, h);
      WalkDirect(t.children[idx], rest, h);
      WalkCorrect(t.children[idx], rest, h);
      SelectedGains(s0, idx, rest, Walk(t.children[idx], rest, h).tree);
    } else {
      if s0.nType == Param { ThroughParamTurn(s0, rest, h); } else { FollowTurn(s0, rest, h); }
      SeparatedBelow(s0, 0, rest);
      ForksBelow(s0, 0, rest);
      WalkDirect(t.children[0], rest, h);
      WalkCorrect(t.children[0], rest, h);
      OneChildGains(s0, rest, Walk(t.children[0], rest, h).tree);
    }
  }

  /** The only child of a parameter, or the parameter child. */
  lemma OneChildGains(t: Tree, rest: bytes, c: Tree)
    requires Shape(t) && t.nType != CatchAll && |t.children| == 1 && rest != [] && Continues(t, rest)
    requires c.nType == t.children[0].nType && Gains(t.children[0], c, rest)
    ensures Gains(t, t.(children := [c]), t.path + rest)
  {
    hide Shape, Registered, Direct, IsStem;
    var only := t.children[0];
    assert t.children == [only];
    forall s | s != []
      ensures DirectIn([c], s) <==> DirectIn([only], s) || (IsStem(rest, s) && NewIn([only], s))
    {
      OneDirect(c, s);
      OneDirect(only, s);
      OneNew(only, s);
    }
    assert [c][0] == c && [only][0] == only;
    assert EndsDirect(t.(children := [c])) <==> t.nType != Param && c.nType == CatchAll;
    assert EndsDirect(t) <==> t.nType != Param && only.nType == CatchAll;
    ParentGains(t, t.(children := [c]), rest);
  }

  lemma OneNew(c: Tree, s: bytes)
    ensures NewIn([c], s) <==> NewPlace(c, s)
  {
    hide Registered;
    forall r, g
      ensures InSome([c], r, g) <==> Registered(c, r, g)
    {
      assert [c][0] == c;
    }
  }

  /** The selected child, moved to its place. */
  lemma SelectedGains(t: Tree, idx: nat, rest: bytes, c: Tree)
    requires Shape(t) && t.nType != CatchAll && t.nType != Param && !t.wildChild && rest != [] && Continues(t, rest)
    requires idx == IndexOf(t.indices, rest[0]) < |t.indices| && idx < |t.children|
    requires c.nType == t.children[idx].nType && Gains(t.children[idx], c, rest)
    ensures var u := Promote(t, idx);
      Gains(t, u.(children := u.children[PromotedPos(t.children, idx) := c]), t.path + rest)
  {
    hide Shape, Registered, Direct, IsStem, PromotedPos, NewIn, NewPlace;
    var newPos, cs := PromotedPos(t.children, idx), t.children[idx := c];
    PromoteValue(t, idx, c);
    forall s | s != []
      ensures DirectIn(Rotate(cs, newPos, idx), s) <==> DirectIn(t.children, s) || (IsStem(rest, s) && NewIn(t.children, s))
    {
      RotateDirectIn(cs, newPos, idx, s);
      ReplaceDirect(t.children, idx, c, s);
      if IsStem(rest, s) { NewInSelected(t, idx, rest, s); }
    }
    var u := t.(indices := Rotate(t.indices, newPos, idx), children := Rotate(cs, newPos, idx));
    TypesKept(t, newPos, idx, c);
    ParentGains(t, u, rest);
  }

  lemma TypesKept(t: Tree, newPos: nat, idx: nat, c: Tree)
    requires newPos <= idx < |t.children| && c.nType == t.children[idx].nType
    ensures EndsDirect(t.(indices := [], children := Rotate(t.children[idx := c], newPos, idx))) <==> EndsDirect(t)
  {
    hide Rotate;
    var cs := t.children[idx := c];
    if t.nType != Param {
      if i :| 0 <= i < |t.children| && t.children[i].nType == CatchAll {
        assert cs[i].nType == CatchAll;
        RotatedType(cs, newPos, idx, i);
      }
      if j :| 0 <= j < |cs| && Rotate(cs, newPos, idx)[j].nType == CatchAll {
        RotatedFrom(cs, newPos, idx, j);
      }
    }
  }

  lemma ReplaceDirect(cs: seq<Tree>, idx: nat, c: Tree, s: bytes)
    requires idx < |cs| && (Direct(cs[idx], s) ==> Direct(c, s))
    ensures DirectIn(cs[idx := c], s) <==> DirectIn(cs, s) || Direct(c, s)
  {
    hide Direct;
    var cs' := cs[idx := c];
    if i :| 0 <= i < |cs| && Direct(cs[i], s) { assert Direct(cs'[i], s); }
    if Direct(c, s) { assert Direct(cs'[idx], s); }
    if i :| 0 <= i < |cs'| && Direct(cs'[i], s) { assert i != idx ==> Direct(cs[i], s); }
  }

  lemma NewInSelected(t: Tree, idx: nat, rest: bytes, s: bytes)
    requires Shape(t) && t.nType != CatchAll && !t.wildChild && rest != [] && IsStem(rest, s)
    requires idx == IndexOf(t.indices, rest[0]) < |t.indices| && idx < |t.children|
    ensures NewIn(t.children, s) <==> NewPlace(t.children[idx], s)
  {
    hide Shape, Registered, IsStem;
    StemHead(rest, s);
    var c := t.children[idx];
    if NewPlace(c, s) {
      forall r, g | InSome(t.children, r, g)
        ensures !(s <= r)
      {
        RoutePlace(t, r, g);
      }
    }
    if NewIn(t.children, s) {
      forall r, g | Registered(c, r, g)
        ensures !(s <= r)
      {
        assert InSome(t.children, r, g);
      }
    }
  }

  // ---- tables ----

  /** No route before the `i`th starts with `s`. */
  predicate NoneBefore(rs: seq<Route>, i: nat, s: bytes)
    requires i <= |rs|
  {
    forall j :: 0 <= j < i ==> !(s <= rs[j].pattern)
  }

  /** Some catch-all was registered behind `s` before any other route that starts with `s`. */
  ghost predicate PlacedFirst(rs: seq<Route>, s: bytes) {
    exists i :: 0 <= i < |rs| && IsStem(rs[i].pattern, s) && NoneBefore(rs, i, s)
  }

  /** In a table of supported patterns a catch-all hangs directly behind its stem exactly when it came first there. */
  lemma {:induction false} TableDirect(rs: seq<Route>, s: bytes)
    requires Supported(rs) && Consistent(rs) && s != []
    ensures Direct(RegisterAll(rs).tree, s) <==> PlacedFirst(rs, s)
  {
    hide RegisterAll, AddRoute, Shape, StandsFor, Supported, Consistent, PlacedFirst, Direct, IsStem, NewPlace, SeparatedFrom, ForksInAscii;
    RegisterAllCorrect(rs);
    if rs == [] {
      ChildlessNotDirect(EMPTY, s);
      NonePlaced(s);
    } else {
      var init, last := rs[..|rs| - 1], rs[|rs| - 1];
      InitKeeps(rs);
      TableDirect(init, s);
      RegisterAllCorrect(init);
      RegisterSteps(rs);
      assert init + [last] == rs;
      PlacedLast(init, last, s);
      if init == [] {
        NonePlaced(s);
        FirstEntry(last);
        StartsAtRoot(rs);
        FirstDirect(last.pattern, last.handlers, s);
      } else {
        var t := RegisterAll(init).tree;
        TreeCompact.NextIsApart(t, init, last);
        NextDirect(t, last.pattern, last.handlers, s);
        NewInTable(t, init, s);
      }
    }
  }

  lemma StartsAtRoot(rs: seq<Route>)
    requires Supported(rs) && rs != []
    ensures var p := rs[|rs| - 1].pattern; p != [] && p[0] == SLASH
  {
    hide NeverMixed, AsciiFork;
  }

  lemma NonePlaced(s: bytes)
    ensures !PlacedFirst([], s)
  {}

  lemma PlacedLast(init: seq<Route>, last: Route, s: bytes)
    ensures PlacedFirst(init + [last], s) <==> PlacedFirst(init, s) || (IsStem(last.pattern, s) && NoneBefore(init, |init|, s))
  {
    hide IsStem;
    var rs := init + [last];
    assert forall j :: 0 <= j < |init| ==> rs[j] == init[j];
    if i :| 0 <= i < |init| && IsStem(init[i].pattern, s) && NoneBefore(init, i, s) {
      assert IsStem(rs[i].pattern, s) && NoneBefore(rs, i, s);
    }
    if i :| 0 <= i < |rs| && IsStem(rs[i].pattern, s) && NoneBefore(rs, i, s) {
      if i < |init| { assert IsStem(init[i].pattern, s) && NoneBefore(init, i, s); }
    }
    if IsStem(last.pattern, s) && NoneBefore(init, |init|, s) {
      assert IsStem(rs[|init|].pattern, s) && NoneBefore(rs, |init|, s);
    }
  }

  lemma NewInTable(t: Tree, rs: seq<Route>, s: bytes)
    requires StandsFor(t, rs)
    ensures NewPlace(t, s) <==> NoneBefore(rs, |rs|, s)
  {
    hide Registered;
    if NewPlace(t, s) {
      forall j | 0 <= j < |rs|
        ensures !(s <= rs[j].pattern)
      {
        assert Route(rs[j].pattern, rs[j].handlers) in rs;
      }
    }
  }

  lemma FirstDirect(p: bytes, h: Chain, s: bytes)
    requires p != [] && p[0] == SLASH && s != [] && AddRoute(EMPTY, p, h).status == Accepted
    ensures Direct(AddRoute(EMPTY, p, h).tree, s) <==> IsStem(p, s)
  {
    hide InsertChild, IsStem;
    GrowDirect(Bump(EMPTY), p, h);
    GrowFresh(Bump(EMPTY), p, h);
    AsRoot(InsertChild(Bump(EMPTY), p, h).tree, s);
  }

  lemma AsRoot(t: Tree, s: bytes)
    requires t.nType == Static
    ensures Direct(t.(nType := Root), s) <==> Direct(t, s)
  {}

  lemma NextDirect(t: Tree, p: bytes, h: Chain, s: bytes)
    requires Shape(t) && t.nType == Root && Head(t) == SLASH && p != [] && p[0] == SLASH && s != []
    requires SeparatedFrom(t, p) && ForksInAscii(t, p) && AddRoute(t, p, h).status == Accepted
    ensures Direct(AddRoute(t, p, h).tree, s) <==> Direct(t, s) || (IsStem(p, s) && NewPlace(t, s))
  {
    hide Walk, IsStem, NewPlace, Direct;
    var q, g := SomeRegistered(t);
    RegisteredStart(t, q, g);
    WalkDirect(t, p, h);
  }

  // ---- the hint ----

  /** A path that ends where a catch-all starts, and is not served, gets the hint exactly when the catch-all hangs
      there directly. */
  lemma {:induction false} DirectIsHinted(t: Tree, p: bytes, ps: seq<Capture>, r: bytes, s: bytes, g: Chain)
    requires Shape(t) && (t.nType == Static || t.nType == Root) && Registered(t, r, g) && IsStem(r, s) && Match(s, p).Some?
    requires Get(t, p, ps).Found? && Get(t, p, ps).handlers.None?
    ensures Get(t, p, ps).tsr <==> Direct(t, s)
    decreases t, 1
  {
    hide Get, Match, Registered, Shape, IsStem, Direct;
    var x := RouteCases(t, r, g);
    TextIsLiteral(t);
    var s' := StemRest(t.path, x, s);
    var rest := PathRest(t.path, s', p);
    if s' == [] {
      assert s == t.path == p;
      AtStem(t, ps, x, g);
    } else {
      StemHead(x, s');
      DirectBelow(t, s');
      if t.wildChild {
        HintedThroughParam(t, rest, ps, x, s', g);
      } else {
        HintedThroughChild(t, rest, ps, x, s', g);
      }
    }
  }

  lemma StemRest(text: bytes, x: bytes, s: bytes) returns (s': bytes)
    requires Literal(text) && NoStar(x) && IsStem(text + x, s)
    ensures s == text + s' && NoStar(s') && if s' == [] then StartsCatchAll(x) else IsStem(x, s')
  {
    hide EndsInParam;
    if !(text <= s) { NoStemWithin(text, x, s); }
    s' := s[|text|..];
    assert s == text + s';
    if s' == [] {
      assert s == text && (text + x)[|text|..] == x;
    } else {
      StemAfterLiteral(text, x, s');
      StemHead(x, s');
    }
  }

  lemma PathRest(text: bytes, s: bytes, p: bytes) returns (rest: bytes)
    requires Literal(text) && NoStar(s) && Match(text + s, p).Some?
    ensures p == text + rest && Match(s, rest).Some? && (rest == [] <==> s == [])
  {
    MatchLiteral(text, s, p);
    rest := p[|text|..];
    if s == [] { MatchedNothing(rest); }
    if rest == [] && s != [] { MatchNothingLeft(s); }
  }

  lemma AtStem(t: Tree, ps: seq<Capture>, x: bytes, g: Chain)
    requires Shape(t) && (t.nType == Static || t.nType == Root) && Registered(t, t.path + x, g) && StartsCatchAll(x)
    requires Get(t, t.path, ps).Found? && Get(t, t.path, ps).handlers.None?
    ensures Get(t, t.path, ps).tsr <==> Direct(t, t.path)
  {
    hide Get, Registered, Shape;
    GetAtEnd(t, ps);
    var y := RouteCases(t, t.path + x, g);
    assert y == (t.path + x)[|t.path|..] == x;
    RoutePlace(t, x, g);
    var i := IndexOf(t.indices, SLASH);
    ChildShape(t, i);
    BoxOrBoundary(t.children[i], x, g);
    OneBoundary(t, i);
    HintOfChild(t, i);
  }

  /** The child that holds a catch-all route is its boundary, or an empty node above it. */
  lemma BoxOrBoundary(c: Tree, x: bytes, g: Chain)
    requires SelectedBy(c, SLASH) && Registered(c, x, g) && StartsCatchAll(x)
    ensures c.path == [] && (c.nType == CatchAll ==> |c.children| == 1 && c.children[0].handlers.Some?)
  {
    hide Registered;
    if c.nType != CatchAll {
      assert x == [SLASH, STAR] + x[2..];
      TreeTrailing.EmptyBox(c, x[2..], g);
    }
  }

  lemma OneBoundary(t: Tree, i: nat)
    requires Shape(t) && (t.nType == Static || t.nType == Root) && !t.wildChild
    requires i == IndexOf(t.indices, SLASH) < |t.indices| && i < |t.children|
    ensures EndsDirect(t) <==> t.children[i].nType == CatchAll
  {
    if k :| 0 <= k < |t.children| && t.children[k].nType == CatchAll {
      ChildShape(t, k);
      assert t.indices[k] == SLASH;
    }
  }

  lemma HintOfChild(t: Tree, i: nat)
    requires !t.wildChild && i == IndexOf(t.indices, SLASH) < |t.indices| && i < |t.children| && t.children[i].path == []
    requires t.children[i].nType == CatchAll ==> |t.children[i].children| == 1 && t.children[i].children[0].handlers.Some?
    ensures ExactHint(t, t.path) == Some(t.children[i].nType == CatchAll)
  {}

  lemma {:induction false} HintedThroughChild(t: Tree, rest: bytes, ps: seq<Capture>, x: bytes, s: bytes, g: Chain)
    requires Shape(t) && (t.nType == Static || t.nType == Root) && !t.wildChild && InSome(t.children, x, g)
    requires s != [] && rest != [] && IsStem(x, s) && Match(s, rest).Some?
    requires Get(t, t.path + rest, ps).Found? && Get(t, t.path + rest, ps).handlers.None?
    ensures Get(t, t.path + rest, ps).tsr <==> DirectIn(t.children, s)
    decreases t, 0
  {
    hide Get, Match, Registered, Shape, IsStem, Direct;
    TreeTrailing.SlashRest(t, rest, ps);
    RoutePlace(t, x, g);
    StemHead(x, s);
    LiteralHead(s, rest);
    var i := IndexOf(t.indices, rest[0]);
    ChildShape(t, i);
    NotTheBoundary(t.children[i], x, s, g);
    OnlySelectedDirect(t, i, s);
    DirectIsHinted(t.children[i], rest, ps, x, s, g);
  }

  lemma LiteralHead(s: bytes, rest: bytes)
    requires s != [] && !IsWild(s[0]) && Match(s, rest).Some?
    ensures rest != [] && rest[0] == s[0]
  {}

  lemma NotTheBoundary(c: Tree, x: bytes, s: bytes, g: Chain)
    requires Shape(c) && Registered(c, x, g) && IsStem(x, s)
    ensures c.nType != CatchAll
  {
    hide Shape, Registered, IsStem;
    if c.nType == CatchAll {
      StemHead(x, s);
      BoundaryRoute(c, x, g);
      LeafIsCatchAll(c.children[0]);
      NoStemInCatchAll(x, s);
    }
  }

  lemma LeafIsCatchAll(leaf: Tree)
    requires IsLeaf(leaf)
    ensures StartsCatchAll(leaf.path) && ValidName(leaf.path[2..])
  {
    assert leaf.path[2..] == leaf.paramName;
  }

  lemma OnlySelectedDirect(t: Tree, idx: nat, s: bytes)
    requires Shape(t) && (t.nType == Static || t.nType == Root) && !t.wildChild && s != []
    requires idx == IndexOf(t.indices, s[0]) < |t.indices| && idx < |t.children|
    ensures DirectIn(t.children, s) <==> Direct(t.children[idx], s)
  {
    hide Direct;
    if k :| 0 <= k < |t.children| && Direct(t.children[k], s) {
      ChildShape(t, k);
      DirectStart(t.children[k], t.indices[k], s);
    }
  }

  lemma {:induction false} HintedThroughParam(t: Tree, rest: bytes, ps: seq<Capture>, x: bytes, s: bytes, g: Chain)
    requires Shape(t) && (t.nType == Static || t.nType == Root) && t.wildChild && InSome(t.children, x, g)
    requires s != [] && rest != [] && IsStem(x, s) && Match(s, rest).Some?
    requires Get(t, t.path + rest, ps).Found? && Get(t, t.path + rest, ps).handlers.None?
    ensures Get(t, t.path + rest, ps).tsr <==> DirectIn(t.children, s)
    decreases t, 0
  {
    hide Get, Match, Registered, Shape, IsStem, Direct, SegmentEnd;
    var w := OnlyParam(t);
    RoutePlace(t, x, g);
    ParamText(w);
    var y := RouteCases(w, x, g);
    var s' := StemBehindName(w.paramName, y, s);
    var end := SegmentEnd(rest);
    MatchParam(w.paramName, s', rest);
    if rest[end..] == [] { MatchNothingLeft(s'); }
    GetBehindParam(t, rest, ps);
    RoutePlace(w, y, g);
    BehindName(w);
    DirectBelow(w, s');
    OneDirect(w, s);
    OneDirect(w.children[0], s');
    assert w.children == [w.children[0]];
    DirectIsHinted(w.children[0], rest[end..], ps + [Capture(w.paramName, rest[..end])], y, s', g);
  }

  lemma StemBehindName(name: bytes, y: bytes, s: bytes) returns (s': bytes)
    requires ValidName(name) && AfterParam(y) && IsStem([COLON] + name + y, s)
    ensures s == [COLON] + name + s' && s' != [] && y != [] && IsStem(y, s') && AfterParam(s')
  {
    hide IsStem;
    var text := [COLON] + name;
    if !(text <= s) || s == text { NoStemInParam(name, y, s); }
    s' := s[|text|..];
    assert s == text + s';
    StemAfterParam(name, y, s');
    StemHead(y, s');
  }

  // ---- which routes came first ----

  /** Two catch-alls with one stem clash. */
  lemma {:induction false} StemsClash(s: bytes, x: bytes, y: bytes)
    requires StartsCatchAll(x) && StartsCatchAll(y)
    ensures Clash(s + x, s + y)
    decreases |s|
  {
    if s == [] {
      assert s + x == x && s + y == y;
    } else if s[0] == COLON {
      var n := SegmentEnd(s);
      SegmentEndUnique(s + x, n);
      SegmentEndUnique(s + y, n);
      DropWithin(s, x, n);
      DropWithin(s, y, n);
      assert (s + x)[..n] == s[..n] == (s + y)[..n];
      StemsClash(s[n..], x, y);
    } else {
      DropWithin(s, x, 1);
      DropWithin(s, y, 1);
      StemsClash(s[1..], x, y);
    }
  }

  lemma SameStem(rs: seq<Route>, i: nat, j: nat, s: bytes)
    requires Consistent(rs) && i < j < |rs| && IsStem(rs[i].pattern, s)
    ensures !IsStem(rs[j].pattern, s)
  {
    hide EndsInParam, Clash;
    var p, q := rs[j].pattern, rs[i].pattern;
    if IsStem(p, s) {
      var x, y := p[|s|..], q[|s|..];
      StemsClash(s, x, y);
      SplitAtStem(p, s);
      SplitAtStem(q, s);
    }
  }

  lemma SplitAtStem(p: bytes, s: bytes)
    requires s <= p
    ensures p == s + p[|s|..]
  {}

  /** The hint for adding a slash before a catch-all behind a literal byte: a path that ends there, and that no route
      serves, gets it exactly when no route registered earlier starts with the text before the catch-all. */
  lemma CatchAllHintExactly(rs: seq<Route>, i: nat, s: bytes, p: bytes)
    requires Supported(rs) && Consistent(rs) && i < |rs| && IsStem(rs[i].pattern, s) && Match(s, p).Some?
    requires var l := Get(RegisterAll(rs).tree, p, []); l.Found? && l.handlers.None?
    ensures Get(RegisterAll(rs).tree, p, []).tsr <==> forall j :: 0 <= j < i ==> !(s <= rs[j].pattern)
  {
    hide Get, Match, RegisterAll, Supported, Consistent, Shape, Registered, Direct;
    RegisterAllCorrect(rs);
    var t := RegisterAll(rs).tree;
    assert Route(rs[i].pattern, rs[i].handlers) in rs;
    TableDirect(rs, s);
    DirectIsHinted(t, p, [], rs[i].pattern, s, rs[i].handlers);
    FirstIsThis(rs, i, s);
  }

  lemma FirstIsThis(rs: seq<Route>, i: nat, s: bytes)
    requires Consistent(rs) && i < |rs| && IsStem(rs[i].pattern, s)
    ensures PlacedFirst(rs, s) <==> NoneBefore(rs, i, s)
  {
    hide IsStem, Consistent;
    if k :| 0 <= k < |rs| && IsStem(rs[k].pattern, s) && NoneBefore(rs, k, s) {
      if k < i { SameStem(rs, k, i, s); }
      if i < k { SameStem(rs, i, k, s); }
    }
  }
}
