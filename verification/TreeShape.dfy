/** The invariant of the tree and the routes it stands for. */
module TreeShape {
  import opened Bytes
  import opened Wrappers
  import opened Patterns
  import opened PatternLemmas
  import opened RadixTree

  /** The first byte of every route below a node that a parent selects by index byte. */
  function Head(t: Tree): byte { if t.path == [] then SLASH else t.path[0] }

  predicate Distinct(s: bytes) { forall i, j :: 0 <= i < j < |s| ==> s[i] != s[j] }

  /** The node that carries a catch-all, below its empty boundary. */
  predicate IsLeaf(t: Tree) {
    && t.path == [SLASH, STAR] + t.paramName && ValidName(t.paramName)
    && t.indices == [] && t.children == [] && t.handlers.Some?
    && t.nType == CatchAll && !t.wildChild
  }

  /** Every index byte selects its own child and no other; a wildcard is an only child; a catch-all
      is reached only through an empty boundary node; every leaf has handlers. */
  ghost predicate Shape(t: Tree)
    decreases t, 0
  {
    match t.nType
    case Param =>
      && t.path == [COLON] + t.paramName && ValidName(t.paramName) && !t.wildChild
      && (t.children == [] ==> t.indices == [] && t.handlers.Some?)
      && (t.children != [] ==>
        |t.children| == 1 && t.indices == [SLASH] && t.children[0].nType == Static && SelectedBy(t.children[0], SLASH))
    case CatchAll =>
      && t.path == [] && t.indices == [] && t.wildChild && t.handlers.None?
      && |t.children| == 1 && IsLeaf(t.children[0])
    case _ =>
      && Literal(t.path)
      && (t.path == [] ==> t.handlers.None? && !t.wildChild && t.indices == [SLASH] && |t.children| == 1 && t.children[0].nType == CatchAll)
      && (t.children == [] ==> t.handlers.Some?)
      && (t.wildChild ==> t.indices == [] && |t.children| == 1 && t.children[0].nType == Param && Shape(t.children[0]))
      && (!t.wildChild ==> Aligned(t.indices, t.children))
  }

  /** Distinct index bytes below 128, each selecting the child at its place. */
  ghost predicate Aligned(indices: bytes, cs: seq<Tree>)
    decreases cs, 0
  {
    |indices| == |cs| && Distinct(indices) && Ascii(indices) && forall i :: 0 <= i < |cs| ==> SelectedBy(cs[i], indices[i])
  }

  ghost predicate SelectedBy(t: Tree, b: byte)
    decreases t, 1
  {
    (t.nType == Static || t.nType == CatchAll) && Shape(t) && Head(t) == b
  }

  /** Pattern `q` with handlers `g` is registered in the tree `t`. */
  ghost predicate Registered(t: Tree, q: bytes, g: Chain)
    decreases t
  {
    t.path <= q && ((q == t.path && t.handlers == Some(g)) || InSome(t.children, q[|t.path|..], g))
  }

  ghost predicate InSome(cs: seq<Tree>, q: bytes, g: Chain)
    decreases cs
  {
    exists i :: 0 <= i < |cs| && Registered(cs[i], q, g)
  }

  lemma ChildShape(t: Tree, i: nat)
    requires Shape(t) && t.nType != CatchAll && i < |t.children|
    ensures Shape(t.children[i])
    ensures !t.wildChild ==> i < |t.indices| && SelectedBy(t.children[i], t.indices[i])
  {
    if t.nType != Param && !t.wildChild { assert SelectedBy(t.children[i], t.indices[i]); }
  }

  /** Routes below a node start where the node starts, and a parameter's name ends a segment. */
  lemma {:induction false} RegisteredStart(t: Tree, q: bytes, g: Chain)
    requires Shape(t) && Registered(t, q, g)
    ensures q != [] && (t.nType != Param ==> q[0] == Head(t))
    ensures t.path <= q
    ensures t.nType == Param ==> AfterParam(q[|t.path|..])
    ensures t.nType == Static || t.nType == Root ==> NoStar(q[|t.path|..])
    decreases t
  {
    var r := q[|t.path|..];
    if !(q == t.path && t.handlers == Some(g)) {
      var i :| 0 <= i < |t.children| && Registered(t.children[i], r, g);
      if t.nType == CatchAll {
        assert t.children[0].path <= r;
      } else {
        ChildShape(t, i);
        RegisteredStart(t.children[i], r, g);
      }
    }
  }

  /** No subtree is empty. */
  lemma {:induction false} SomeRegistered(t: Tree) returns (q: bytes, g: Chain)
    requires Shape(t)
    ensures Registered(t, q, g)
    decreases t
  {
    if t.handlers.Some? {
      q, g := t.path, t.handlers.value;
    } else {
      var c := t.children[0];
      var r: bytes;
      if t.nType == CatchAll {
        r, g := c.path, c.handlers.value;
      } else {
        ChildShape(t, 0);
        r, g := SomeRegistered(c);
      }
      q := t.path + r;
      assert q[|t.path|..] == r;
      assert InSome(t.children, r, g);
    }
  }

  /** A route below child `i`, seen from the parent. */
  lemma RegisteredBelow(t: Tree, i: nat, q: bytes, g: Chain)
    requires i < |t.children| && Registered(t.children[i], q, g)
    ensures Registered(t, t.path + q, g)
  {
    assert (t.path + q)[|t.path|..] == q;
    assert InSome(t.children, q, g);
  }

  /** Priorities play no part in the shape or the routes. */
  lemma PriorityFree(t: Tree, prio: int)
    ensures Shape(t.(priority := prio)) == Shape(t)
    ensures forall q, g :: Registered(t.(priority := prio), q, g) == Registered(t, q, g)
  {
  }

  /** The routes below a list of children do not depend on the order of the list. */
  lemma RotateInSome(cs: seq<Tree>, newPos: nat, pos: nat, q: bytes, g: Chain)
    requires newPos <= pos < |cs|
    ensures InSome(Rotate(cs, newPos, pos), q, g) == InSome(cs, q, g)
  {
    var r := Rotate(cs, newPos, pos);
    if InSome(cs, q, g) {
      var i :| 0 <= i < |cs| && Registered(cs[i], q, g);
      var j := if i == pos then newPos else if newPos <= i < pos then i + 1 else i;
      assert Registered(r[j], q, g);
    }
    if InSome(r, q, g) {
      var j :| 0 <= j < |r| && Registered(r[j], q, g);
      var i := if j == newPos then pos else if newPos < j <= pos then j - 1 else j;
      assert Registered(cs[i], q, g);
    }
  }

  lemma RotateAligned(indices: bytes, cs: seq<Tree>, newPos: nat, pos: nat)
    requires newPos <= pos < |cs| && Aligned(indices, cs)
    ensures Aligned(Rotate(indices, newPos, pos), Rotate(cs, newPos, pos))
  {
    var s, r := Rotate(indices, newPos, pos), Rotate(cs, newPos, pos);
    forall i, j | 0 <= i < j < |s|
      ensures s[i] != s[j]
    {
      var i' := if i == newPos then pos else if newPos < i <= pos then i - 1 else i;
      var j' := if j == newPos then pos else if newPos < j <= pos then j - 1 else j;
      assert s[i] == indices[i'] && s[j] == indices[j'] && i' != j';
    }
    forall i | 0 <= i < |r|
      ensures SelectedBy(r[i], s[i])
    {
      var i' := if i == newPos then pos else if newPos < i <= pos then i - 1 else i;
      assert s[i] == indices[i'] && r[i] == cs[i'];
    }
  }

  /** Splitting a static node at a byte below 128 keeps the shape and the routes. */
  lemma SplitKeeps(t: Tree, i: nat)
    requires Shape(t) && (t.nType == Static || t.nType == Root) && 0 < i < |t.path| && t.path[i] < 128
    ensures Shape(Split(t, i)) && Head(Split(t, i)) == Head(t)
    ensures forall q, g :: Registered(Split(t, i), q, g) == Registered(t, q, g)
  {
    var s := Split(t, i);
    var tail := s.children[0];
    assert Shape(tail);
    assert SelectedBy(tail, s.indices[0]);
    forall q, g
      ensures Registered(s, q, g) == Registered(t, q, g)
    {
      if s.path <= q {
        var r := q[i..];
        assert t.path == t.path[..i] + t.path[i..];
        assert t.path <= q <==> t.path[i..] <= r by { if t.path[i..] <= r { assert q == t.path[..i] + r; } }
        if t.path <= q { assert q[|t.path|..] == r[|tail.path|..]; assert q == t.path <==> r == tail.path; }
        assert InSome(s.children, r, g) <==> Registered(tail, r, g);
      }
    }
  }
}
