/** The radix tree as the router keeps it: nodes that are split, reordered and extended in place.
    Each method computes the function of the same name in `RadixTree`.

    Every node carries its value in the ghost field `view`. A registration knows its result before
    it starts, so it sets each `view` ahead, on the way down, and the loops show that the fields
    catch up: at any time all nodes but the current one hold what their `view` says. */
module TreeNode {
  import opened Bytes
  import opened Wrappers
  import opened Patterns
  import RT = RadixTree
  import opened RadixTree

  method LongestCommonPrefix(a: bytes, b: bytes) returns (i: nat)
    ensures i == CommonPrefix(a, b)
  {
    var limit := if |a| < |b| then |a| else |b|;
    i := 0;
    while i < limit && a[i] == b[i]
      invariant i <= limit && CommonPrefix(a, b) == i + CommonPrefix(a[i..], b[i..])
    {
      i := i + 1;
    }
  }

  /** The first wildcard segment with its start and whether it is valid; start -1 if there is none. */
  method FindFirstWildcard(path: bytes) returns (wildcard: bytes, idx: int, valid: bool)
    ensures match FindWildcard(path)
      case NoWildcard => idx == -1
      case Wildcard(text, start, ok) => wildcard == text && idx == start && valid == ok
  {
    var start := 0;
    while start < |path| && !IsWild(path[start])
      invariant start <= |path| && FirstWild(path) == start + FirstWild(path[start..])
    {
      start := start + 1;
    }
    if start == |path| { return [], -1, false; }
    wildcard, valid := ScanWildcard(path[start..]);
    idx := start;
  }

  /** The inner loop: the rest of the segment behind the marker. */
  method ScanWildcard(s: bytes) returns (wildcard: bytes, valid: bool)
    requires s != [] && IsWild(s[0])
    ensures wildcard == s[..SegmentEnd(s)] && valid == Literal(wildcard[1..])
  {
    valid := true;
    var end := 1;
    while end < |s| && s[end] != SLASH
      invariant 0 < end <= |s| && (forall k :: 0 <= k < end ==> s[k] != SLASH)
      invariant valid <==> forall k :: 0 < k < end ==> !IsWild(s[k])
    {
      if IsWild(s[end]) { valid := false; }
      end := end + 1;
    }
    SegmentEndUnique(s, end);
    wildcard := s[..end];
    assert forall k :: 0 <= k < end - 1 ==> wildcard[1..][k] == s[k + 1];
    assert valid ==> Literal(wildcard[1..]);
    if !valid {
      var k :| 0 < k < end && IsWild(s[k]);
      assert wildcard[1..][k - 1] == s[k];
    }
  }

  class Node {
    var path: bytes
    var indices: bytes
    var children: seq<Node>
    var handlers: Option<Chain>
    var paramName: bytes
    var priority: int
    var nType: NodeType
    var wildChild: bool

    /** The tree below this node, as a value. */
    ghost var view: Tree
    /** The node this one hangs from. */
    ghost var parent: Node?
    /** At the root: all nodes of the tree. */
    ghost var repr: set<Node>

    /** The fields of this node, and the views of its children, are those of `t`; its links stay
        within `nodes`, and nobody else has its children. */
    ghost predicate Holds(t: Tree, nodes: set<Node>)
      reads this, nodes
    {
      && t.path == path && t.indices == indices && t.handlers == handlers && t.paramName == paramName
      && t.priority == priority && t.nType == nType && t.wildChild == wildChild
      && |t.children| == |children|
      && (forall i :: 0 <= i < |children| ==>
           children[i] in nodes && children[i] != this && children[i].parent == this && children[i].view == t.children[i])
      && (forall i, j :: 0 <= i < j < |children| ==> children[i] != children[j])
    }

    /** The node holds what its view says. */
    ghost predicate UpToDate(nodes: set<Node>)
      reads this, nodes
    {
      Holds(view, nodes)
    }

    static ghost predicate AllUpToDate(some: set<Node>, nodes: set<Node>)
      reads some, nodes
    {
      forall n {:trigger n.UpToDate(nodes)} :: n in some ==> n.UpToDate(nodes)
    }

    /** All nodes but `this` are up to date; `this` holds `t`. */
    ghost predicate AllButThis(nodes: set<Node>, t: Tree)
      reads this, nodes
    {
      this in nodes && Holds(t, nodes) && AllUpToDate(nodes - {this}, nodes)
    }

    /** This node is the root of a tree whose views are up to date. */
    ghost predicate Valid()
      reads this, repr
    {
      this in repr && parent == null && AllUpToDate(repr, repr)
    }

    twostate predicate SameFields()
      reads this
    {
      && path == old(path) && indices == old(indices) && children == old(children) && handlers == old(handlers)
      && paramName == old(paramName) && priority == old(priority) && nType == old(nType) && wildChild == old(wildChild)
      && view == old(view)
    }

    /** Nodes with the same fields, and whose children have the same views and parents, stay up to date. */
    static twostate lemma OthersUpToDate(nodes: set<Node>, new nodes': set<Node>, new except: set<Node>)
      requires nodes <= nodes' && old(AllUpToDate(nodes - except, nodes))
      requires forall n :: n in nodes - except ==> n.SameFields()
      requires forall n :: n in nodes ==>
        (n.parent == old(n.parent) && n.view == old(n.view)) || old(n.parent) == null || old(n.parent) in except
      ensures AllUpToDate(nodes - except, nodes')
    {
      forall n | n in nodes - except
        ensures n.UpToDate(nodes')
      {
        assert old(n.UpToDate(nodes));
      }
    }

    /** A node with zero fields, as `&node{}` makes it. */
    constructor ()
      ensures Valid() && repr == {this} && view == EMPTY
      ensures path == [] && indices == [] && children == [] && handlers == None && paramName == []
      ensures priority == 0 && nType == Static && !wildChild
    {
      path, indices, children, handlers, paramName := [], [], [], None, [];
      priority, nType, wildChild := 0, Static, false;
      view, parent, repr := EMPTY, null, {this};
    }

    /** Raises the priority of the child at `pos` and moves it before its lighter siblings. */
    method IncrementChildPriority(pos: nat, ghost c: Node, ghost cs: seq<Tree>) returns (newPos: nat)
      requires pos < |children| == |cs| && pos < |indices| && children[pos] == c
      requires forall i :: 0 <= i < |children| ==> children[i].priority == cs[i].priority
      requires forall i, j :: 0 <= i < j < |children| ==> children[i] != children[j]
      modifies this`children, this`indices, c`priority
      ensures newPos == PromotedPos(cs, pos)
      ensures children == Rotate(old(children), newPos, pos)
      ensures indices == Rotate(old(indices), newPos, pos)
      ensures c.priority == old(c.priority) + 1
    {
      hide Rotate;
      children[pos].priority := children[pos].priority + 1;
      RotateInPlace(children, pos);
      var prio := children[pos].priority;
      newPos := pos;
      while newPos > 0 && children[newPos - 1].priority < prio
        invariant newPos <= pos
        invariant children == Rotate(old(children), newPos, pos)
        invariant indices == old(indices) && c.priority == prio
        invariant BubblePos(cs, newPos, prio) == BubblePos(cs, pos, prio)
      {
        SwapRotates(old(children), newPos, pos);
        children := children[newPos - 1 := children[newPos]][newPos := children[newPos - 1]];
        newPos := newPos - 1;
      }
      if newPos > 0 { SwapRotates(old(children), newPos, pos); }
      if newPos != pos {
        indices := indices[..newPos] + indices[pos..pos + 1] + indices[newPos..pos] + indices[pos + 1..];
      }
      RotatePieces(old(indices), newPos, pos);
    }

    /** Replaces the children by one new node with zero fields but for its priority; `v` is what the
        new node will hold. */
    method HangChild(prio: int, ghost t: Tree, ghost v: Tree, ghost nodes: set<Node>) returns (child: Node)
      requires AllButThis(nodes, t) && view == t.(children := [v])
      modifies this`children
      ensures fresh(child) && child.view == v && children == [child]
      ensures child.AllButThis(nodes + {child}, EMPTY.(priority := prio))
    {
      child := new Node();
      child.priority := prio;
      children := [child];
      child.parent := this;
      child.view := v;
      OthersUpToDate(nodes, nodes + {child}, {this});
      assert UpToDate(nodes + {child});
    }

    /** This node holds `t`, and its view is what growing `path` from it will make of it. */
    ghost predicate Awaits(nodes: set<Node>, t: Tree, path: bytes, h: Chain)
      reads this, nodes
    {
      AllButThis(nodes, t) && view == RT.InsertChild(t, path, h).tree
    }

    /** Puts the rest of a path and its handlers on this node. */
    method Finish(path: bytes, h: Chain, ghost t: Tree, ghost nodes: set<Node>)
      requires AllButThis(nodes, t) && view == t.(path := path, handlers := Some(h))
      modifies this`path, this`handlers
      ensures AllUpToDate(nodes, nodes)
    {
      this.path, handlers := path, Some(h);
      OthersUpToDate(nodes, nodes, {this});
      assert UpToDate(nodes);
    }

    method HangParam(wildcard: bytes, ghost t: Tree, ghost v: Tree, ghost nodes: set<Node>) returns (child: Node)
      requires wildcard != [] && AllButThis(nodes, t) && view == t.(children := [v])
      modifies this`children
      ensures fresh(child) && child.view == v
      ensures child.AllButThis(nodes + {child}, Tree(wildcard, [], [], None, wildcard[1..], 1, Param, false))
    {
      hide Node.AllUpToDate, Node.UpToDate;
      child := HangChild(0, t, v, nodes);
      label L:
      child.path, child.nType, child.paramName := wildcard, Param, wildcard[1..];
      child.priority := child.priority + 1;
      OthersUpToDate@L(nodes + {child}, nodes + {child}, {child});
    }

    /** A parameter node as the only child, behind the static text `path[..idx]`. */
    method GrowParam(path: bytes, idx: nat, wildcard: bytes, ghost t: Tree, ghost v: Tree, ghost nodes: set<Node>) returns (child: Node)
      requires wildcard != [] && idx <= |path| && AllButThis(nodes, t)
      requires view == t.(path := if idx > 0 then path[..idx] else t.path, wildChild := true, children := [v])
      modifies this`path, this`wildChild, this`children
      ensures fresh(child) && child.view == v
      ensures child.AllButThis(nodes + {child}, Tree(wildcard, [], [], None, wildcard[1..], 1, Param, false))
    {
      if idx > 0 { this.path := path[..idx]; }
      wildChild := true;
      OthersUpToDate(nodes, nodes, {this});
      child := HangParam(wildcard, t.(path := this.path, wildChild := true), v, nodes);
    }

    /** The node behind a parameter. */
    method GrowBelow(rest: bytes, h: Chain, ghost t: Tree, ghost nodes: set<Node>) returns (child: Node)
      requires rest != [] && AllButThis(nodes, t)
      requires view == t.(indices := RuneString(rest[0]), children := [RT.InsertChild(EMPTY.(priority := 1), rest, h).tree])
      modifies this`indices, this`children
      ensures fresh(child) && child.Awaits(nodes + {child}, EMPTY.(priority := 1), rest, h)
    {
      indices := RuneString(rest[0]);
      OthersUpToDate(nodes, nodes, {this});
      child := HangChild(1, t.(indices := RuneString(rest[0])), RT.InsertChild(EMPTY.(priority := 1), rest, h).tree, nodes);
    }

    /** The parameter at `path[idx..]`: ends the route there, or adds the node that goes on behind it. */
    method GrowSegment(path: bytes, idx: nat, wildcard: bytes, h: Chain, ghost t: Tree, ghost nodes: set<Node>)
      returns (n: Node, ghost added: set<Node>)
      requires FindWildcard(path) == Wildcard(wildcard, idx, true) && |wildcard| >= 2 && wildcard[0] == COLON
      requires Awaits(nodes, t, path, h)
      modifies this`path, this`wildChild, this`children
      ensures fresh(added) && n in added
      ensures var rest, bare := path[idx + |wildcard|..], EMPTY.(priority := 1);
        if rest == [] then AllUpToDate(nodes + added, nodes + added) && RT.InsertChild(t, path, h).status == Accepted
        else n.Awaits(nodes + added, bare, rest, h) && RT.InsertChild(t, path, h).status == RT.InsertChild(bare, rest, h).status
    {
      hide Node.AllUpToDate, Node.UpToDate, Node.Holds, FirstWild, SegmentEnd;
      var rest := path[idx + |wildcard|..];
      n := GrowParam(path, idx, wildcard, t, ParamNode(wildcard, rest, h).tree, nodes);
      added := {n};
      ghost var bare := Tree(wildcard, [], [], None, wildcard[1..], 1, Param, false);
      if rest == [] {
        n.Finish(wildcard, h, bare, nodes + added);
      } else {
        n := n.GrowBelow(rest, h, bare, nodes + added);
        assert nodes + added + {n} == nodes + (added + {n});
        added := added + {n};
      }
    }

    /** The node that carries a catch-all, as the only child. */
    method GrowLeaf(path: bytes, name: bytes, h: Chain, ghost t: Tree, ghost nodes: set<Node>) returns (leaf: Node)
      requires AllButThis(nodes, t) && view == t.(children := [Tree(path, [], [], Some(h), name, 1, CatchAll, false)])
      modifies this`children
      ensures fresh(leaf) && AllUpToDate(nodes + {leaf}, nodes + {leaf})
    {
      leaf := HangChild(1, t, view.children[0], nodes);
      label L:
      leaf.path, leaf.nType, leaf.paramName, leaf.handlers := path, CatchAll, name, Some(h);
      OthersUpToDate@L(nodes + {leaf}, nodes + {leaf}, {leaf});
      assert leaf.UpToDate(nodes + {leaf});
    }

    /** The boundary and the leaf of a catch-all that starts at `path[idx]`. */
    method GrowCatchAll(path: bytes, idx: nat, name: bytes, h: Chain, ghost t: Tree, ghost nodes: set<Node>) returns (ghost added: set<Node>)
      requires idx <= |path| && AllButThis(nodes, t)
      requires view == t.(path := path[..idx], indices := [SLASH], children := [Boundary(path[idx..], name, h)])
      modifies this`path, this`indices, this`children
      ensures fresh(added) && AllUpToDate(nodes + added, nodes + added)
    {
      this.path, indices := path[..idx], [SLASH];
      OthersUpToDate(nodes, nodes, {this});
      var boundary := GrowBoundary(t.(path := path[..idx], indices := [SLASH]), Boundary(path[idx..], name, h), nodes);
      var leaf := boundary.GrowLeaf(path[idx..], name, h, Boundary(path[idx..], name, h).(children := []), nodes + {boundary});
      added := {boundary, leaf};
      assert nodes + added == nodes + {boundary} + {leaf};
    }

    method GrowBoundary(ghost t: Tree, ghost b: Tree, ghost nodes: set<Node>) returns (boundary: Node)
      requires AllButThis(nodes, t) && view == t.(children := [b])
      modifies this`children
      ensures fresh(boundary) && boundary.view == b
      ensures boundary.AllButThis(nodes + {boundary}, EMPTY.(nType := CatchAll, wildChild := true))
    {
      boundary := HangChild(0, t, b, nodes);
      label L:
      boundary.wildChild, boundary.nType := true, CatchAll;
      OthersUpToDate@L(nodes + {boundary}, nodes + {boundary}, {boundary});
    }

    /** A panic leaves the node as it is. */
    lemma Abandoned(t: Tree, nodes: set<Node>)
      requires AllButThis(nodes, t) && view == t
      ensures AllUpToDate(nodes, nodes)
    {
      assert UpToDate(nodes);
    }

    /** The catch-all at `path[idx..]`, which ends the route, or a panic. */
    method InsertCatchAll(path: bytes, idx: nat, wildcard: bytes, h: Chain, ghost t: Tree, ghost nodes: set<Node>)
      returns (ok: bool, ghost added: set<Node>)
      requires FindWildcard(path) == Wildcard(wildcard, idx, true) && |wildcard| >= 2 && wildcard[0] != COLON
      requires Awaits(nodes, t, path, h)
      modifies this`path, this`indices, this`children
      ensures fresh(added) && AllUpToDate(nodes + added, nodes + added)
      ensures ok <==> RT.InsertChild(t, path, h).status == Accepted
    {
      if idx + |wildcard| != |path| || (|this.path| > 0 && this.path[|this.path| - 1] == SLASH) || idx == 0 || path[idx - 1] != SLASH {
        ok, added := false, {};
        assert nodes + added == nodes;
        Abandoned(t, nodes);
      } else {
        ok := true;
        added := GrowCatchAll(path, idx - 1, wildcard[1..], h, t, nodes);
      }
    }

    /** The end of a growth: no wildcard left, a catch-all, or a panic. */
    method InsertEnd(path: bytes, idx: int, wildcard: bytes, valid: bool, h: Chain, ghost t: Tree, ghost nodes: set<Node>)
      returns (ok: bool, ghost added: set<Node>)
      requires Awaits(nodes, t, path, h)
      requires FindWildcard(path) == if idx < 0 then NoWildcard else Wildcard(wildcard, idx, valid)
      requires idx >= 0 && valid && |wildcard| >= 2 ==> wildcard[0] != COLON
      modifies this`path, this`indices, this`children, this`handlers
      ensures fresh(added) && AllUpToDate(nodes + added, nodes + added)
      ensures ok <==> RT.InsertChild(t, path, h).status == Accepted
    {
      if idx >= 0 && valid && |wildcard| >= 2 {
        ok, added := InsertCatchAll(path, idx, wildcard, h, t, nodes);
      } else {
        ok, added := idx < 0, {};
        if ok { Finish(path, h, t, nodes); } else { Abandoned(t, nodes); }
        assert nodes + added == nodes;
      }
    }

    /** One turn of `InsertChild`'s loop: the next wildcard, or the end. */
    method InsertTurn(path: bytes, h: Chain, ghost t: Tree, ghost nodes: set<Node>)
      returns (done: bool, ok: bool, n: Node, rest: bytes, ghost added: set<Node>)
      requires Awaits(nodes, t, path, h)
      modifies this`path, this`indices, this`children, this`handlers, this`wildChild
      ensures fresh(added)
      ensures done ==> AllUpToDate(nodes + added, nodes + added) && (ok <==> RT.InsertChild(t, path, h).status == Accepted)
      ensures !done ==> n in added && |rest| < |path| && n.Awaits(nodes + added, EMPTY.(priority := 1), rest, h)
      ensures !done ==> RT.InsertChild(EMPTY.(priority := 1), rest, h).status == RT.InsertChild(t, path, h).status
    {
      var wildcard, idx, valid := FindFirstWildcard(path);
      if idx < 0 || !valid || |wildcard| < 2 || wildcard[0] != COLON {
        ok, added := InsertEnd(path, idx, wildcard, valid, h, t, nodes);
        done, n, rest := true, this, [];
      } else {
        n, added := GrowSegment(path, idx, wildcard, h, t, nodes);
        rest := path[idx + |wildcard|..];
        done, ok := rest == [], true;
      }
    }

    /** Grows the tree from this node along `path`; false stands for a panic. On entry `t` is what
        the node holds and `view` is already what it will hold. */
    method InsertChild(path0: bytes, h: Chain, ghost t: Tree, ghost nodes: set<Node>) returns (ok: bool, ghost added: set<Node>)
      requires Awaits(nodes, t, path0, h)
      modifies this`path, this`indices, this`children, this`handlers, this`wildChild
      ensures fresh(added) && AllUpToDate(nodes + added, nodes + added)
      ensures ok <==> RT.InsertChild(t, path0, h).status == Accepted
    {
      var done, n, path;
      done, ok, n, path, added := InsertTurn(path0, h, t, nodes);
      while !done
        invariant fresh(added)
        invariant done ==> AllUpToDate(nodes + added, nodes + added) && (ok <==> RT.InsertChild(t, path0, h).status == Accepted)
        invariant !done ==> n in added && n.Awaits(nodes + added, EMPTY.(priority := 1), path, h)
        invariant !done ==> RT.InsertChild(EMPTY.(priority := 1), path, h).status == RT.InsertChild(t, path0, h).status
        decreases if done then 0 else 1 + |path|
      {
        ghost var more;
        done, ok, n, path, more := n.InsertTurn(path, h, EMPTY.(priority := 1), nodes + added);
        assert nodes + added + more == nodes + (added + more);
        added := added + more;
      }
    }

    // ---- the walk ----

    /** The new node that a split hangs below this one. */
    method MakeTail(i: nat, ghost t: Tree) returns (tail: Node)
      requires i < |path| && i < |t.path|
      ensures fresh(tail) && tail.path == path[i..] && tail.indices == indices && tail.children == children
      ensures tail.handlers == handlers && tail.paramName == paramName && tail.priority == priority - 1
      ensures tail.nType == Static && tail.wildChild == wildChild
      ensures tail.parent == this && tail.view == Split(t, i).children[0]
    {
      tail := new Node();
      tail.path, tail.indices, tail.children, tail.handlers := path[i..], indices, children, handlers;
      tail.paramName, tail.priority, tail.nType, tail.wildChild := paramName, priority - 1, Static, wildChild;
      tail.parent, tail.view := this, Split(t, i).children[0];
    }

    /** Gives the children of this node to `tail`. */
    ghost method HandOver(tail: Node, cs: seq<Tree>, nodes: set<Node>)
      requires tail.children == children && tail !in nodes && this in nodes
      requires |cs| == |children|
      requires forall i :: 0 <= i < |children| ==> children[i] in nodes && children[i] != this && children[i].view == cs[i]
      requires forall i, j :: 0 <= i < j < |children| ==> children[i] != children[j]
      requires forall i :: 0 <= i < |children| ==> children[i].parent == this
      modifies children
      ensures forall i :: 0 <= i < |children| ==> children[i].parent == tail && children[i].view == cs[i]
      ensures forall n :: n in nodes ==> n.SameFields() && n.repr == old(n.repr) && (n.parent == old(n.parent) || old(n.parent) == this)
    {
      forall c | c in children { c.parent := tail; }
    }

    /** The new tail, with the children of this node; the node itself is not cut yet. */
    method TailOff(i: nat, ghost t: Tree, ghost nodes: set<Node>) returns (tail: Node)
      requires i < |path| && AllButThis(nodes, t)
      modifies children
      ensures fresh(tail) && tail.parent == this && tail.view == Split(t, i).children[0]
      ensures AllUpToDate(nodes + {tail} - {this}, nodes + {tail})
      ensures forall n :: n in nodes ==> n.SameFields() && n.repr == old(n.repr) && (n.parent == old(n.parent) || old(n.parent) == this)
    {
      tail := MakeTail(i, t);
      HandOver(tail, t.children, nodes);
      OthersUpToDate(nodes, nodes + {tail}, {this});
      assert tail.UpToDate(nodes + {tail});
    }

    /** Cuts this node at `i`: its tail becomes the only child and takes over the children. */
    method SplitNode(i: nat, ghost t: Tree, ghost nodes: set<Node>) returns (tail: Node)
      requires i < |path| && AllButThis(nodes, t)
      modifies this`path, this`indices, this`children, this`handlers, this`paramName, this`wildChild, children
      ensures fresh(tail) && AllButThis(nodes + {tail}, Split(t, i))
      ensures forall n :: n in nodes ==> n.view == old(n.view) && (n.parent == old(n.parent) || old(n.parent) == this)
    {
      hide Node.AllUpToDate, Node.UpToDate, RuneString;
      tail := TailOff(i, t, nodes);
      label L:
      children, indices, handlers, paramName, wildChild := [tail], RuneString(path[i]), None, [], false;
      path := path[..i];
      OthersUpToDate@L(nodes + {tail}, nodes + {tail}, {this});
    }

    /** No view or parent changed but the view of `c`. */
    static twostate predicate AllOtherViews(nodes: set<Node>, c: Node)
      reads nodes
    {
      forall n :: n in nodes ==> n.parent == old(n.parent) && (n == c || n.view == old(n.view))
    }

    /** The priorities of the children are those of their values. */
    lemma ChildPriorities(t: Tree, nodes: set<Node>)
      requires AllButThis(nodes, t)
      ensures forall i :: 0 <= i < |children| ==> children[i].priority == t.children[i].priority
    {
      forall i | 0 <= i < |children|
        ensures children[i].priority == t.children[i].priority
      {
        assert children[i].UpToDate(nodes);
      }
    }

    /** `IncrementChildPriority` with the views kept up to date. */
    method PromoteChild(pos: nat, ghost t: Tree, ghost nodes: set<Node>) returns (newPos: nat)
      requires pos < |children| && pos < |indices| && AllButThis(nodes, t)
      modifies this`children, this`indices, children[pos]
      ensures newPos == PromotedPos(t.children, pos) && AllButThis(nodes, Promote(t, pos))
      ensures children == Rotate(old(children), newPos, pos)
      ensures AllOtherViews(nodes, old(children)[pos])
    {
      var c := children[pos];
      assert c.UpToDate(nodes);
      ChildPriorities(t, nodes);
      RotateDistinct(children, PromotedPos(t.children, pos), pos);
      ghost var cs := children;
      newPos := IncrementChildPriority(pos, c, t.children);
      c.view := Bump(c.view);
      OthersUpToDate(nodes, nodes, {this, c});
      assert c.UpToDate(nodes);
      HoldsPromoted(t, pos, cs, nodes);
    }

    /** What the node holds when child `pos` has been promoted. */
    lemma HoldsPromoted(t: Tree, pos: nat, cs: seq<Node>, nodes: set<Node>)
      requires pos < |cs| == |t.children| && pos < |t.indices|
      requires var newPos := PromotedPos(t.children, pos);
        children == Rotate(cs, newPos, pos) && indices == Rotate(t.indices, newPos, pos)
      requires forall i, j :: 0 <= i < j < |children| ==> children[i] != children[j]
      requires forall i :: 0 <= i < |cs| ==> cs[i] in nodes && cs[i] != this && cs[i].parent == this
      requires forall i :: 0 <= i < |cs| ==> cs[i].view == t.children[pos := Bump(t.children[pos])][i]
      requires t.path == path && t.handlers == handlers && t.paramName == paramName
      requires t.priority == priority && t.nType == nType && t.wildChild == wildChild
      ensures Holds(Promote(t, pos), nodes)
    {
      hide PromotedPos, Rotate;
      var newPos := PromotedPos(t.children, pos);
      var vs := t.children[pos := Bump(t.children[pos])];
      forall i | 0 <= i < |children|
        ensures children[i] in nodes && children[i] != this && children[i].parent == this
        ensures children[i].view == Rotate(vs, newPos, pos)[i]
      {
        RotatedFrom(cs, newPos, pos, i);
        RotatedFrom(vs, newPos, pos, i);
      }
    }

    /** Sets ahead the view of the child at `k`, which is to become the current node. */
    ghost method Expect(k: nat, t: Tree, v: Tree, nodes: set<Node>)
      requires k < |children| && AllButThis(nodes, t) && view == t.(children := t.children[k := v])
      modifies children[k]
      ensures children[k].view == v && children[k].AllButThis(nodes, t.children[k])
      ensures AllOtherViews(nodes, children[k])
    {
      var c := children[k];
      assert c.UpToDate(nodes);
      c.view := v;
      OthersUpToDate(nodes, nodes, {this, c});
      assert UpToDate(nodes);
    }
    /** Goes on to the child at `k`, one more route through it; `v` is what it will hold. */
    method Enter(k: nat, ghost t: Tree, ghost v: Tree, ghost nodes: set<Node>) returns (c: Node)
      requires k < |children| && AllButThis(nodes, t) && view == t.(children := t.children[k := v])
      modifies children[k]
      ensures c == old(children)[k] && c in nodes && c.view == v && c.parent == this
      ensures c.AllButThis(nodes, Bump(t.children[k]))
      ensures AllOtherViews(nodes, c)
    {
      c := children[k];
      assert c.UpToDate(nodes);
      c.priority := c.priority + 1;
      c.view := v;
      OthersUpToDate(nodes, nodes, {this, c});
      assert UpToDate(nodes);
    }

    /** Goes on to the static child at `idx`, moved before its lighter siblings. */
    method EnterStatic(idx: nat, ghost t: Tree, ghost v: Tree, ghost nodes: set<Node>) returns (c: Node)
      requires idx < |children| && idx < |indices| && AllButThis(nodes, t)
      requires var s := Promote(t, idx); view == s.(children := s.children[PromotedPos(t.children, idx) := v])
      modifies this`children, this`indices, children[idx]
      ensures c == old(children)[idx] && c in nodes && c.view == v && c.parent == this
      ensures c.AllButThis(nodes, Bump(t.children[idx]))
      ensures AllOtherViews(nodes, c)
    {
      var newPos := PromoteChild(idx, t, nodes);
      c := children[newPos];
      Expect(newPos, Promote(t, idx), v, nodes);
    }

    /** Appends a new static child for the byte `c`, not yet in its place among its siblings. */
    method AppendChild(c: byte, ghost t: Tree, ghost nodes: set<Node>) returns (child: Node)
      requires AllButThis(nodes, t)
      modifies this`indices, this`children
      ensures fresh(child) && children == old(children) + [child] && child.parent == this
      ensures AllButThis(nodes + {child}, t.(indices := t.indices + RuneString(c), children := t.children + [EMPTY]))
    {
      indices := indices + RuneString(c);
      child := new Node();
      child.parent := this;
      children := children + [child];
      OthersUpToDate(nodes, nodes + {child}, {this});
      assert child.UpToDate(nodes + {child});
    }

    /** A new static child for `rest`, in its place among its siblings; false stands for a panic. */
    method InsertStatic(rest: bytes, h: Chain, ghost t: Tree, ghost nodes: set<Node>) returns (ok: bool, ghost added: set<Node>)
      requires rest != [] && AllButThis(nodes, t) && view == RT.InsertStatic(t, rest, h).tree
      modifies this`indices, this`children, children
      ensures fresh(added) && AllUpToDate(nodes + added, nodes + added)
      ensures ok <==> RT.InsertStatic(t, rest, h).status == Accepted
      ensures AllRootViews(nodes)
    {
      hide Promote, PromotedPos, RT.InsertChild, RT.InsertStatic;
      InsertStaticCases(t, rest, h);
      var last := |children|;
      var child := AppendChild(rest[0], t, nodes);
      ghost var t1 := t.(indices := t.indices + RuneString(rest[0]), children := t.children + [EMPTY]);
      var pos := |indices| - 1;
      if pos >= |children| {
        added := {child};
        Abandoned(t1, nodes + added);
        return false, added;
      }
      ghost var at := if pos == last then PromotedPos(t1.children, pos) else last;
      ghost var more;
      ok, more := PlaceChild(pos, child, at, rest, h, t1, nodes + {child});
      added := {child} + more;
      assert nodes + {child} + more == nodes + added;
    }

    /** Promotes the child at `pos` and grows `rest` from the new child, which ends up at `at`. */
    method PlaceChild(pos: nat, child: Node, ghost at: nat, rest: bytes, h: Chain, ghost t: Tree, ghost nodes: set<Node>)
      returns (ok: bool, ghost added: set<Node>)
      requires pos < |children| && pos < |indices| && at < |children| && AllButThis(nodes, t)
      requires Rotate(children, PromotedPos(t.children, pos), pos)[at] == child
      requires var s, sub := Promote(t, pos), RT.InsertChild(Promote(t, pos).children[at], rest, h);
        view == s.(children := s.children[at := sub.tree])
      modifies this`indices, this`children, children, child
      ensures fresh(added) && AllUpToDate(nodes + added, nodes + added)
      ensures ok <==> RT.InsertChild(Promote(t, pos).children[at], rest, h).status == Accepted
      ensures AllRootViews(nodes)
    {
      var newPos := PromoteChild(pos, t, nodes);
      ghost var s := Promote(t, pos);
      Expect(at, s, RT.InsertChild(s.children[at], rest, h).tree, nodes);
      ok, added := child.InsertChild(rest, h, s.children[at], nodes);
    }

    /** The views of nodes without a parent are as before. */
    static twostate predicate AllRootViews(nodes: set<Node>)
      reads nodes
    {
      forall n :: n in nodes && old(n.parent) == null ==> n.parent == null && n.view == old(n.view)
    }

    /** The node a walk stands at: it holds `t` with one more route through it, and its view is what
        the registration of `path` below it will make of it. */
    ghost predicate Walks(nodes: set<Node>, t: Tree, path: bytes, h: Chain)
      reads this, nodes
    {
      AllButThis(nodes, Bump(t)) && view == RT.Walk(t, path, h).tree && RT.Walk(t, path, h).status != Diverged
    }

    /** What one turn of `addRoute`'s loop leaves: the end of the registration or the next node. */
    static ghost predicate Turned(nodes: set<Node>, r: RT.Outcome, h: Chain, done: bool, ok: bool, n: Node, t: Tree, rest: bytes)
      reads nodes
      reads if done then {} else {n}
    {
      if done then AllUpToDate(nodes, nodes) && (ok <==> r.status == Accepted)
      else n in nodes && n.Walks(nodes, t, rest, h) && RT.Walk(t, rest, h).status == r.status
    }

    method IndexByte(c: byte) returns (idx: nat)
      ensures idx == IndexOf(indices, c)
    {
      idx := 0;
      while idx < |indices| && c != indices[idx]
        invariant idx <= |indices| && IndexOf(indices, c) == idx + IndexOf(indices[idx..], c)
      {
        idx := idx + 1;
      }
    }

    /** Goes on to the wildcard child if `rest` continues through it; otherwise the walk ends in a panic. */
    method WalkToWild(rest: bytes, h: Chain, ghost t: Tree, ghost nodes: set<Node>)
      returns (done: bool, n: Node, ghost nt: Tree)
      requires rest != [] && AllButThis(nodes, t) && wildChild
      requires view == (var last := |t.children| - 1;
        if last < 0 then t
        else t.(children := t.children[last :=
          if Follows(rest, t.children[last]) then RT.Walk(t.children[last], rest, h).tree else Bump(t.children[last])]))
      requires |children| > 0 && Follows(rest, t.children[|children| - 1]) ==>
        RT.Walk(t.children[|children| - 1], rest, h).status != Diverged
      modifies nodes
      ensures AllRootViews(nodes)
      ensures done <==> |t.children| == 0 || !Follows(rest, t.children[|t.children| - 1])
      ensures done ==> AllUpToDate(nodes, nodes)
      ensures !done ==> n in nodes && nt == t.children[|t.children| - 1] && n.Walks(nodes, nt, rest, h)
    {
      hide RT.Walk;
      n, nt := this, t;
      var last := |children| - 1;
      if last < 0 {
        Abandoned(t, nodes);
        return true, n, nt;
      }
      var w := children[last];
      assert w.UpToDate(nodes);
      nt := t.children[last];
      done := !(|rest| >= |w.path| && w.path == rest[..|w.path|] && w.nType != CatchAll && (|w.path| >= |rest| || rest[|w.path|] == SLASH));
      n := Enter(last, t, if done then Bump(nt) else RT.Walk(nt, rest, h).tree, nodes);
      if done { n.Abandoned(Bump(nt), nodes); }
    }

    /** Behind a node, split or not: the child that takes the rest of the path, or a new one. */
    method WalkBelow(rest: bytes, split: bool, h: Chain, ghost t: Tree, ghost nodes: set<Node>)
      returns (done: bool, ok: bool, n: Node, ghost nt: Tree, ghost added: set<Node>)
      requires rest != [] && AllButThis(nodes, t)
      requires split ==> |t.children| == 1 && t.children[0].nType != Param && !t.wildChild
      requires view == RT.WalkBelow(t, rest, split, h).tree && RT.WalkBelow(t, rest, split, h).status != Diverged
      modifies nodes
      ensures fresh(added) && AllRootViews(nodes)
      ensures Turned(nodes + added, RT.WalkBelow(t, rest, split, h), h, done, ok, n, nt, rest)
      ensures !done ==> (split ==> t.nType == Param) && exists i :: 0 <= i < |t.children| && t.children[i] == nt
    {
      hide Promote, PromotedPos, RT.InsertChild, RT.InsertStatic, RT.Walk, Node.AllUpToDate, Node.UpToDate;
      var c := rest[0];
      done, ok, n, nt, added := true, false, this, t, {};
      assert nodes + added == nodes;
      if nType == Param && c == SLASH && |children| == 1 {
        done, nt := false, t.children[0];
        n := Enter(0, t, RT.Walk(nt, rest, h).tree, nodes);
        return;
      }
      if nType != Param {
        var idx := IndexByte(c);
        if idx < |indices| {
          if idx >= |children| {
            Abandoned(t, nodes);
            return;
          }
          done, nt := false, t.children[idx];
          n := EnterStatic(idx, t, RT.Walk(nt, rest, h).tree, nodes);
          return;
        }
      }
      done, ok, n, nt, added := WalkElsewhere(rest, split, h, t, nodes);
    }

    /** Where no index byte fits: a new static child, the wildcard child, or a new wildcard. */
    method WalkElsewhere(rest: bytes, split: bool, h: Chain, ghost t: Tree, ghost nodes: set<Node>)
      returns (done: bool, ok: bool, n: Node, ghost nt: Tree, ghost added: set<Node>)
      requires rest != [] && AllButThis(nodes, t) && (split ==> |t.children| == 1 && t.children[0].nType != Param && !t.wildChild)
      requires view == RT.WalkBelow(t, rest, split, h).tree && RT.WalkBelow(t, rest, split, h).status != Diverged
      requires if nType == Param then rest[0] != SLASH || |children| != 1 else IndexOf(indices, rest[0]) == |indices|
      modifies nodes
      ensures fresh(added) && AllRootViews(nodes)
      ensures Turned(nodes + added, RT.WalkBelow(t, rest, split, h), h, done, ok, n, nt, rest)
      ensures !done ==> !split && exists i :: 0 <= i < |t.children| && t.children[i] == nt
    {
      hide Promote, PromotedPos, RT.InsertChild, RT.InsertStatic, RT.Walk, Node.AllUpToDate, Node.UpToDate;
      done, ok, n, nt, added := true, false, this, t, {};
      assert nodes + added == nodes;
      if !IsWild(rest[0]) && nType != CatchAll {
        ok, added := InsertStatic(rest, h, t, nodes);
      } else if wildChild {
        done, n, nt := WalkToWild(rest, h, t, nodes);
      } else {
        ok, added := InsertChild(rest, h, t, nodes);
      }
    }

    /** The path ends at this node, which may have handlers already. */
    method Attach(h: Chain, ghost s: Tree, ghost nodes: set<Node>) returns (ok: bool)
      requires AllButThis(nodes, s)
      requires view == if s.handlers.Some? then s else s.(handlers := Some(h))
      modifies this`handlers
      ensures AllUpToDate(nodes, nodes) && (ok <==> s.handlers.None?)
    {
      ok := handlers == None;
      if ok { handlers := Some(h); }
      OthersUpToDate(nodes, nodes, {this});
      assert UpToDate(nodes);
    }

    /** What a cut leaves to the walk. */
    static lemma SplitChild(t: Tree, path: bytes)
      ensures var i, s := CommonPrefix(path, t.path), SplitAt(Bump(t), path);
        && s.nType == t.nType
        && (i < |t.path| ==> |s.children| == 1 && s.children[0].nType != Param && !s.wildChild)
    {
      hide CommonPrefix;
    }

    /** One turn of `addRoute`'s loop. */
    method WalkTurn(path: bytes, h: Chain, ghost t: Tree, ghost nodes: set<Node>)
      returns (done: bool, ok: bool, n: Node, rest: bytes, ghost nt: Tree, ghost added: set<Node>)
      requires Walks(nodes, t, path, h)
      modifies nodes
      ensures fresh(added) && AllRootViews(nodes)
      ensures Turned(nodes + added, RT.Walk(t, path, h), h, done, ok, n, nt, rest)
      ensures !done ==> Height(nt) < Height(t) || (Height(nt) == Height(t) && t.nType == Param && nt.nType != Param)
    {
      hide RT.WalkBelow, CommonPrefix, Node.AllUpToDate, Node.UpToDate, Height, SplitAt;
      var i, split, cut := CutWhereItParts(path, t, nodes);
      ghost var s, nodes1, more := SplitAt(Bump(t), path), nodes + cut, {};
      SplitChild(t, path);
      rest := path[i..];
      if i < |path| {
        done, ok, n, nt, more := WalkBelow(rest, split, h, s, nodes1);
        if !done {
          ghost var k :| 0 <= k < |s.children| && s.children[k] == nt;
          NextIsLower(t, path, k);
        }
        assert RT.Walk(t, path, h) == RT.WalkBelow(s, rest, split, h);
        assert Turned(nodes1 + more, RT.Walk(t, path, h), h, done, ok, n, nt, rest);
      } else {
        done, n, nt := true, this, t;
        ok := Attach(h, s, nodes1);
        assert nodes1 + more == nodes1;
        assert ok <==> RT.Walk(t, path, h).status == Accepted;
        assert Turned(nodes1 + more, RT.Walk(t, path, h), h, done, ok, n, nt, rest);
      }
      added := cut + more;
      assert nodes + added == nodes1 + more;
    }

    /** Finds where the path parts from this node's text, and cuts the node there if that is in the middle. */
    method CutWhereItParts(path: bytes, ghost t: Tree, ghost nodes: set<Node>) returns (i: nat, split: bool, ghost cut: set<Node>)
      requires AllButThis(nodes, Bump(t))
      modifies this`path, this`indices, this`children, this`handlers, this`paramName, this`wildChild, children
      ensures i == CommonPrefix(path, t.path) && split == (i < |t.path|)
      ensures fresh(cut) && AllButThis(nodes + cut, SplitAt(Bump(t), path)) && AllRootViews(nodes)
      ensures view == old(view)
    {
      hide CommonPrefix, Node.AllUpToDate, Node.UpToDate, Split;
      i := LongestCommonPrefix(path, this.path);
      split := i < |this.path|;
      cut := {};
      if split {
        var tail := SplitNode(i, Bump(t), nodes);
        cut := {tail};
      } else {
        assert nodes + cut == nodes;
      }
    }

    /** The loop of `addRoute`, from the root. */
    method WalkDown(path0: bytes, h: Chain, ghost t0: Tree, ghost nodes: set<Node>) returns (ok: bool, ghost added: set<Node>)
      requires Walks(nodes, t0, path0, h) && parent == null
      modifies nodes
      ensures fresh(added) && AllUpToDate(nodes + added, nodes + added)
      ensures parent == null && view == old(view)
      ensures ok <==> RT.Walk(t0, path0, h).status == Accepted
    {
      hide RT.Walk;
      var n, path, done := this, path0, false;
      ghost var t, more := t0, {};
      ok, added := false, {};
      assert nodes + added == nodes;
      while !done
        invariant fresh(added) && parent == null && view == old(view)
        invariant Turned(nodes + added, RT.Walk(t0, path0, h), h, done, ok, n, t, path)
        decreases !done, Height(t), if t.nType == Param then 1 else 0
      {
        ghost var t' := t;
        done, ok, n, path, t, more := n.WalkTurn(path, h, t', nodes + added);
        assert nodes + added + more == nodes + (added + more);
        added := added + more;
      }
    }

    /** The first route of an empty tree. */
    method FirstRoute(path0: bytes, h: Chain, ghost t: Tree, ghost nodes: set<Node>) returns (ok: bool, ghost added: set<Node>)
      requires AllButThis(nodes, Bump(t)) && t.path == [] && t.children == []
      requires parent == null && view == RT.InsertChild(Bump(t), path0, h).tree
      modifies this
      ensures fresh(added) && AllUpToDate(nodes + added, nodes + added) && this in nodes
      ensures parent == null && repr == old(repr) && view == RT.AddRoute(t, path0, h).tree
      ensures ok <==> RT.AddRoute(t, path0, h).status == Accepted
    {
      hide RT.InsertChild;
      ok, added := InsertChild(path0, h, Bump(t), nodes);
      assert UpToDate(nodes + added);
      label L:
      if ok {
        nType, view := Root, view.(nType := Root);
        OthersUpToDate@L(nodes + added, nodes + added, {this});
        assert UpToDate(nodes + added);
      }
    }

    /** One more route through the root; its view is set ahead. */
    method Raise(path0: bytes, h: Chain) returns (first: bool)
      requires Valid()
      modifies this`priority, this`view
      ensures first <==> old(view).path == [] && old(view).children == []
      ensures view == if first then RT.InsertChild(Bump(old(view)), path0, h).tree else RT.Walk(old(view), path0, h).tree
      ensures AllButThis(repr, Bump(old(view)))
    {
      hide RT.InsertChild, RT.Walk;
      assert UpToDate(repr);
      ghost var t := view;
      priority := priority + 1;
      first := path == [] && children == [];
      view := if first then RT.InsertChild(Bump(t), path0, h).tree else RT.Walk(t, path0, h).tree;
      OthersUpToDate(repr, repr, {this});
    }

    /** Notes the nodes of the tree at its root. */
    ghost method Own(nodes: set<Node>)
      requires this in nodes && parent == null && AllUpToDate(nodes, nodes)
      modifies this`repr
      ensures Valid() && repr == nodes && view == old(view)
    {
      repr := nodes;
      assert nodes - {} == nodes;
      OthersUpToDate(nodes, nodes, {});
    }

    /** Registers `h` for `path0` in the tree below this root; false stands for a panic. The walk must
        be one that ends, as it does in every ASCII tree (`TreeEnds.WalkEnds`). */
    method AddRoute(path0: bytes, h: Chain) returns (ok: bool)
      requires Valid() && RT.AddRoute(view, path0, h).status != Diverged
      modifies repr
      ensures Valid() && fresh(repr - old(repr))
      ensures view == RT.AddRoute(old(view), path0, h).tree
      ensures ok <==> RT.AddRoute(old(view), path0, h).status == Accepted
    {
      hide RT.InsertChild, RT.Walk, Node.AllUpToDate, Node.UpToDate, Node.Holds;
      ghost var t, nodes, added := view, repr, {};
      var first := Raise(path0, h);
      if first {
        ok, added := FirstRoute(path0, h, t, nodes);
      } else {
        ok, added := WalkDown(path0, h, t, nodes);
      }
      Own(nodes + added);
    }

    // ---- lookup ----

    /** `tsrForRedirect`. */
    predicate RedirectHint(p: bytes)
      reads this
    {
      |p| + 1 == |path| && path[|p|] == SLASH && p == path[..|p|] && handlers.Some?
    }

    /** The hint for a path that ends at this node, which has no handlers. */
    method HintAtEnd(path: bytes, ghost nodes: set<Node>) returns (tsr: bool)
      requires AllUpToDate(nodes, nodes) && this in nodes && ExactHint(view, path).Some?
      ensures ExactHint(view, path) == Some(tsr)
    {
      assert UpToDate(nodes);
      if path == [SLASH] && wildChild && nType != Root { return true; }
      var i := IndexByte(SLASH);
      if i == |indices| { return false; }
      var n := children[i];
      assert n.UpToDate(nodes);
      if |n.path| == 1 && n.handlers.Some? { return true; }
      if n.nType != CatchAll { return false; }
      assert n.children[0].UpToDate(nodes);
      return n.children[0].handlers.Some?;
    }

    /** Behind the parameter child `w`: the captured value is `rest[..end]`. */
    method ScanSegment(rest: bytes) returns (end: nat)
      ensures end == SegmentEnd(rest)
    {
      end := 0;
      while end < |rest| && rest[end] != SLASH
        invariant end <= |rest| && forall k :: 0 <= k < end ==> rest[k] != SLASH
      {
        end := end + 1;
      }
      SegmentEndUnique(rest, end);
    }

    /** Looks `path0` up from this root. The tree must be one where no index leaves its range, as every
        tree of the router is (`TreeLookup.GetCorrect`). */
    method GetValue(path0: bytes, params0: seq<Capture>) returns (found: Option<Chain>, params: seq<Capture>, tsr: bool)
      requires Valid() && Get(view, path0, params0).Found?
      ensures Get(view, path0, params0) == Found(found, params, tsr)
    {
      var n, path := this, path0;
      params := params0;
      while true
        invariant n in repr && Get(n.view, path, params) == Get(view, path0, params0)
        decreases n.view
      {
        assert n.UpToDate(repr);
        var prefix := n.path;
        if |path| > |prefix| {
          if path[..|prefix|] != prefix {
            return None, params, n.RedirectHint(path);
          }
          path := path[|prefix|..];
          if !n.wildChild {
            var i := n.IndexByte(path[0]);
            if i == |n.indices| { return None, params, path == [SLASH] && n.handlers.Some?; }
            n := n.children[i];
            continue;
          }
          var w := n.children[|n.children| - 1];
          assert w.UpToDate(repr);
          if w.nType == CatchAll { return w.handlers, params + [Capture(w.paramName, path)], false; }
          if w.nType != Param { return None, params, false; }
          var end := ScanSegment(path);
          params := params + [Capture(w.paramName, path[..end])];
          if end < |path| {
            if w.children == [] { return None, params, |path| == end + 1; }
            path := path[end..];
            n := w.children[0];
            continue;
          }
          if w.handlers.Some? { return w.handlers, params, false; }
          if |w.children| != 1 { return None, params, false; }
          var c := w.children[0];
          assert c.UpToDate(repr);
          return None, params, (c.path == [SLASH] && c.handlers.Some?) || (c.path == [] && c.indices == [SLASH]);
        }
        if path == prefix {
          if n.handlers.Some? { return n.handlers, params, false; }
          tsr := n.HintAtEnd(path, repr);
          return None, params, tsr;
        }
        return None, params, path == [SLASH] || n.RedirectHint(path);
      }
    }
  }
}
