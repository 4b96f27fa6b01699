/** The radix tree as a value: what `addRoute`, `insertChild`, `incrementChildPriority` and
    `getValue` compute. `TreeNode.dfy` holds the same operations on mutable nodes, proved to
    compute these functions; the lemmas about them are in the `Tree*` modules. */
module RadixTree {
  import opened Bytes
  import opened Wrappers
  import opened Patterns

  /** Handlers are identified by numbers; a chain is what one route runs. */
  type Chain = seq<nat>

  datatype NodeType = Static | Root | Param | CatchAll

  datatype Tree = Tree(path: bytes, indices: bytes, children: seq<Tree>, handlers: Option<Chain>,
                       paramName: bytes, priority: int, nType: NodeType, wildChild: bool)

  /** The zero value of a node. */
  const EMPTY := Tree([], [], [], None, [], 0, Static, false)

  /** How a registration ends. A Go panic is `Rejected`; `Diverged` means the walk never ends. */
  datatype Status = Accepted | Rejected | Diverged

  datatype Outcome = Outcome(tree: Tree, status: Status)

  function Bump(t: Tree): Tree { t.(priority := t.priority + 1) }

  function Height(t: Tree): nat { 1 + MaxHeight(t.children) }

  function MaxHeight(cs: seq<Tree>): nat {
    if cs == [] then 0
    else if Height(cs[0]) > MaxHeight(cs[1..]) then Height(cs[0]) else MaxHeight(cs[1..])
  }

  lemma {:induction false} MaxHeightBounds(cs: seq<Tree>, i: nat)
    requires i < |cs|
    ensures Height(cs[i]) <= MaxHeight(cs)
  {
    if i > 0 { MaxHeightBounds(cs[1..], i - 1); }
  }

  // ---- wildcards and priorities ----

  /** A wildcard segment of a path: its text with the marker, where it starts, and whether no
      second marker stands in it. */
  datatype Wildcard = NoWildcard | Wildcard(text: bytes, start: nat, valid: bool)

  function FirstWild(path: bytes): (i: nat)
    ensures i <= |path| && Literal(path[..i])
    ensures i < |path| ==> IsWild(path[i])
  {
    if path == [] || IsWild(path[0]) then 0
    else
      var i := 1 + FirstWild(path[1..]);
      assert path[..i] == [path[0]] + path[1..][..i - 1];
      i
  }

  function FindWildcard(path: bytes): Wildcard {
    var i := FirstWild(path);
    if i == |path| then NoWildcard
    else
      var text := path[i..][..SegmentEnd(path[i..])];
      Wildcard(text, i, Literal(text[1..]))
  }

  /** Where a sibling of priority `prio` at `pos` ends up once it has passed every sibling before
      it that has a lower priority. */
  function BubblePos(cs: seq<Tree>, pos: nat, prio: int): (newPos: nat)
    requires pos <= |cs|
    ensures newPos <= pos
    ensures forall k :: newPos <= k < pos ==> cs[k].priority < prio
    ensures newPos > 0 ==> cs[newPos - 1].priority >= prio
  {
    if pos > 0 && cs[pos - 1].priority < prio then BubblePos(cs, pos - 1, prio) else pos
  }

  /** Moves the element at `pos` to `newPos`, shifting those between by one. */
  function Rotate<T>(s: seq<T>, newPos: nat, pos: nat): (r: seq<T>)
    requires newPos <= pos < |s|
    ensures |r| == |s|
    ensures r[newPos] == s[pos]
    ensures forall k :: 0 <= k < newPos || pos < k < |s| ==> r[k] == s[k]
    ensures forall k :: newPos < k <= pos ==> r[k] == s[k - 1]
  {
    s[..newPos] + [s[pos]] + s[newPos..pos] + s[pos + 1..]
  }

  /** A rotation neither loses nor repeats elements. */
  lemma RotateDistinct<T>(s: seq<T>, newPos: nat, pos: nat)
    requires newPos <= pos < |s|
    requires forall i, j :: 0 <= i < j < |s| ==> s[i] != s[j]
    ensures forall i, j :: 0 <= i < j < |s| ==> Rotate(s, newPos, pos)[i] != Rotate(s, newPos, pos)[j]
  {
    var r := Rotate(s, newPos, pos);
    forall i, j | 0 <= i < j < |s|
      ensures r[i] != r[j]
    {
      var i' := if i == newPos then pos else if newPos < i <= pos then i - 1 else i;
      var j' := if j == newPos then pos else if newPos < j <= pos then j - 1 else j;
      assert r[i] == s[i'] && r[j] == s[j'];
    }
  }

  lemma RotateInPlace<T>(s: seq<T>, pos: nat)
    requires pos < |s|
    ensures Rotate(s, pos, pos) == s
  {
  }

  /** Where an element of a rotation comes from. */
  lemma RotatedFrom<T>(s: seq<T>, newPos: nat, pos: nat, i: nat)
    requires newPos <= pos < |s| && i < |s|
    ensures Rotate(s, newPos, pos)[i] == s[if i == newPos then pos else if newPos < i <= pos then i - 1 else i]
  {
  }

  /** Swapping with the one before moves the rotated element one further. */
  lemma SwapRotates<T>(s: seq<T>, newPos: nat, pos: nat)
    requires 0 < newPos <= pos < |s|
    ensures var r := Rotate(s, newPos, pos);
      r[newPos - 1] == s[newPos - 1] && r[newPos - 1 := r[newPos]][newPos := r[newPos - 1]] == Rotate(s, newPos - 1, pos)
  {
    hide Rotate;
  }

  lemma RotatePieces(s: bytes, newPos: nat, pos: nat)
    requires newPos <= pos < |s|
    ensures Rotate(s, newPos, pos) == s[..newPos] + s[pos..pos + 1] + s[newPos..pos] + s[pos + 1..]
    ensures newPos == pos ==> Rotate(s, newPos, pos) == s
  {
  }

  /** The first child selected by byte `c`, or the number of indices. */
  function IndexOf(s: bytes, c: byte): (i: nat)
    ensures i <= |s|
    ensures i < |s| ==> s[i] == c
    ensures forall k :: 0 <= k < i ==> s[k] != c
  {
    if s == [] || s[0] == c then 0 else 1 + IndexOf(s[1..], c)
  }

  // ---- insertion ----

  /** Cuts a node at `i`: its tail becomes the only child. */
  function Split(t: Tree, i: nat): Tree
    requires i < |t.path|
  {
    var tail := t.(path := t.path[i..], priority := t.priority - 1, nType := Static);
    t.(path := t.path[..i], indices := RuneString(t.path[i]), children := [tail], handlers := None,
       paramName := [], wildChild := false)
  }

  /** The two nodes that carry a catch-all: an empty boundary and the leaf below it. */
  function Boundary(path: bytes, name: bytes, h: Chain): Tree {
    EMPTY.(nType := CatchAll, wildChild := true,
           children := [Tree(path, [], [], Some(h), name, 1, CatchAll, false)])
  }

  /** Grows the tree from `t` along `path`. */
  function InsertChild(t: Tree, path: bytes, h: Chain): (r: Outcome)
    ensures r.status != Diverged
    decreases |path|, 0
  {
    match FindWildcard(path)
    case NoWildcard => Outcome(t.(path := path, handlers := Some(h)), Accepted)
    case Wildcard(text, start, valid) =>
      if !valid || |text| < 2 then Outcome(t, Rejected)
      else if text[0] == COLON then
        var param := ParamNode(text, path[start + |text|..], h);
        var t1 := if start > 0 then t.(path := path[..start]) else t;
        Outcome(t1.(children := [param.tree], wildChild := true), param.status)
      else if start + |text| != |path| then Outcome(t, Rejected)
      else if t.path != [] && t.path[|t.path| - 1] == SLASH then Outcome(t, Rejected)
      else if start == 0 || path[start - 1] != SLASH then Outcome(t, Rejected)
      else
        Outcome(t.(path := path[..start - 1], indices := [SLASH],
                   children := [Boundary(path[start - 1..], text[1..], h)]), Accepted)
  }

  /** A new parameter node `text` that goes on with `rest`. */
  function ParamNode(text: bytes, rest: bytes, h: Chain): (r: Outcome)
    requires text != []
    ensures r.status != Diverged
    decreases |rest|, 1
  {
    var param := Tree(text, [], [], None, text[1..], 1, Param, false);
    if rest == [] then Outcome(param.(handlers := Some(h)), Accepted)
    else
      var sub := InsertChild(EMPTY.(priority := 1), rest, h);
      Outcome(param.(indices := RuneString(rest[0]), children := [sub.tree]), sub.status)
  }

  /** The node a registration works on, split if `path` leaves it in the middle. */
  function SplitAt(t: Tree, path: bytes): Tree {
    var i := CommonPrefix(path, t.path);
    if i < |t.path| then Split(t, i) else t
  }

  /** `path` continues through the wildcard child `w`. */
  predicate Follows(path: bytes, w: Tree) {
    w.path <= path && w.nType != CatchAll &&
    (|w.path| == |path| || path[|w.path|] == SLASH)
  }

  /** Where `incrementChildPriority` puts the child at `pos`. */
  function PromotedPos(cs: seq<Tree>, pos: nat): (newPos: nat)
    requires pos < |cs|
    ensures newPos <= pos
  {
    BubblePos(cs, pos, cs[pos].priority + 1)
  }

  /** `incrementChildPriority`. */
  function Promote(t: Tree, pos: nat): (s: Tree)
    requires pos < |t.children| && pos < |t.indices|
    ensures |s.children| == |t.children| && |s.indices| == |t.indices|
  {
    var newPos := PromotedPos(t.children, pos);
    t.(indices := Rotate(t.indices, newPos, pos),
       children := Rotate(t.children[pos := Bump(t.children[pos])], newPos, pos))
  }

  /** Appends a static child for `rest` and moves it before its lower-priority siblings. */
  function InsertStatic(t: Tree, rest: bytes, h: Chain): (r: Outcome)
    requires rest != []
    ensures r.status != Diverged
  {
    var last := |t.children|;
    var t1 := t.(indices := t.indices + RuneString(rest[0]), children := t.children + [EMPTY]);
    var pos := |t1.indices| - 1;
    if pos > last then Outcome(t1, Rejected) else
    var s := Promote(t1, pos);
    var at := if pos == last then PromotedPos(t1.children, pos) else last;
    var sub := InsertChild(s.children[at], rest, h);
    Outcome(s.(children := s.children[at := sub.tree]), sub.status)
  }

  /** `InsertStatic` case by case. */
  lemma InsertStaticCases(t: Tree, rest: bytes, h: Chain)
    requires rest != []
    ensures var t1 := t.(indices := t.indices + RuneString(rest[0]), children := t.children + [EMPTY]);
      var pos, last := |t1.indices| - 1, |t.children|;
      if pos > last then InsertStatic(t, rest, h) == Outcome(t1, Rejected)
      else
        var s := Promote(t1, pos);
        var at := if pos == last then PromotedPos(t1.children, pos) else last;
        var sub := InsertChild(s.children[at], rest, h);
        InsertStatic(t, rest, h) == Outcome(s.(children := s.children[at := sub.tree]), sub.status)
  {
    hide InsertChild, Promote, PromotedPos, RuneString;
  }

  /** One registration going through node `t`, the node's own priority included. */
  function Walk(t: Tree, path: bytes, h: Chain): Outcome
    decreases Height(t), if t.nType == Param then 1 else 0, 1
  {
    var i := CommonPrefix(path, t.path);
    var s := SplitAt(Bump(t), path);
    if i < |path| then
      assert i < |t.path| ==> Height(s) == 1 + Height(t) by { if i < |t.path| { MaxHeightBounds(s.children, 0); } }
      WalkBelow(s, path[i..], i < |t.path|, h)
    else if s.handlers.Some? then Outcome(s, Rejected)
    else Outcome(s.(handlers := Some(h)), Accepted)
  }

  /** The walk goes on behind node `t`, which has just been split or not. */
  function WalkBelow(t: Tree, rest: bytes, split: bool, h: Chain): Outcome
    requires rest != []
    requires split ==> |t.children| == 1 && t.children[0].nType != Param && !t.wildChild
    decreases if split then Height(t) - 1 else Height(t), if t.nType == Param then 1 else 0, 0
  {
    var c := rest[0];
    var idx := IndexOf(t.indices, c);
    if t.nType == Param && c == SLASH && |t.children| == 1 then
      MaxHeightBounds(t.children, 0);
      var r := Walk(t.children[0], rest, h);
      Outcome(t.(children := [r.tree]), r.status)
    else if t.nType != Param && idx < |t.indices| then
      if idx >= |t.children| then Outcome(t, Rejected)
      else if split then Outcome(t, Diverged)
      else
        MaxHeightBounds(t.children, idx);
        var s := Promote(t, idx);
        var r := Walk(t.children[idx], rest, h);
        Outcome(s.(children := s.children[PromotedPos(t.children, idx) := r.tree]), r.status)
    else if !IsWild(c) && t.nType != CatchAll then InsertStatic(t, rest, h)
    else if t.wildChild then
      var last := |t.children| - 1;
      if last < 0 then Outcome(t, Rejected)
      else if Follows(rest, t.children[last]) then
        MaxHeightBounds(t.children, last);
        var r := Walk(t.children[last], rest, h);
        Outcome(t.(children := t.children[last := r.tree]), r.status)
      else Outcome(t.(children := t.children[last := Bump(t.children[last])]), Rejected)
    else InsertChild(t, rest, h)
  }

  /** The next node of a walk is lower, or is the tail of a parameter that was split. */
  lemma NextIsLower(t: Tree, path: bytes, k: nat)
    requires k < |SplitAt(Bump(t), path).children|
    requires CommonPrefix(path, t.path) < |t.path| ==> t.nType == Param
    ensures var nt := SplitAt(Bump(t), path).children[k];
      Height(nt) < Height(t) || (Height(nt) == Height(t) && t.nType == Param && nt.nType != Param)
  {
    hide CommonPrefix, MaxHeight, RuneString;
    var s := SplitAt(Bump(t), path);
    if CommonPrefix(path, t.path) == |t.path| {
      assert s.children == t.children;
      MaxHeightBounds(t.children, k);
    } else {
      assert s.children[k].children == t.children;
    }
  }

  /** `addRoute` on the root of a tree. */
  function AddRoute(t: Tree, path: bytes, h: Chain): Outcome {
    if t.path == [] && t.children == [] then
      var r := InsertChild(Bump(t), path, h);
      if r.status == Accepted then r.(tree := r.tree.(nType := Root)) else r
    else Walk(t, path, h)
  }

  // ---- lookup ----

  /** The result of a lookup; `Crash` stands for an index out of range. */
  datatype Lookup = Crash | Found(handlers: Option<Chain>, params: seq<Capture>, tsr: bool)

  /** The hint given when a path ends where node `t` has no handlers. */
  function ExactHint(t: Tree, path: bytes): Option<bool> {
    if path == [SLASH] && t.wildChild && t.nType != Root then Some(true) else
    var i := IndexOf(t.indices, SLASH);
    if i == |t.indices| then Some(false)
    else if i >= |t.children| then None else
    var n := t.children[i];
    if |n.path| == 1 && n.handlers.Some? then Some(true)
    else if n.nType != CatchAll then Some(false)
    else if n.children == [] then None
    else Some(n.children[0].handlers.Some?)
  }

  predicate TsrForRedirect(t: Tree, path: bytes) {
    |path| + 1 == |t.path| && t.path[|path|] == SLASH && path == t.path[..|path|] && t.handlers.Some?
  }

  /** `getValue` from node `t`. */
  function Get(t: Tree, path: bytes, params: seq<Capture>): Lookup {
    if |path| > |t.path| then
      if path[..|t.path|] != t.path then Found(None, params, TsrForRedirect(t, path)) else
      var rest := path[|t.path|..];
      if !t.wildChild then
        var i := IndexOf(t.indices, rest[0]);
        if i == |t.indices| then Found(None, params, rest == [SLASH] && t.handlers.Some?)
        else if i >= |t.children| then Crash
        else Get(t.children[i], rest, params)
      else if t.children == [] then Crash else
        var w := t.children[|t.children| - 1];
        if w.nType == Param then
          var end := SegmentEnd(rest);
          var captured := params + [Capture(w.paramName, rest[..end])];
          if end < |rest| then
            if w.children != [] then Get(w.children[0], rest[end..], captured)
            else Found(None, captured, |rest| == end + 1)
          else if w.handlers.Some? then Found(w.handlers, captured, false)
          else if |w.children| == 1 then
            var n := w.children[0];
            Found(None, captured, (n.path == [SLASH] && n.handlers.Some?) || (n.path == [] && n.indices == [SLASH]))
          else Found(None, captured, false)
        else if w.nType == CatchAll then
          Found(w.handlers, params + [Capture(w.paramName, rest)], false)
        else Found(None, params, false)
    else if path == t.path then
      if t.handlers.Some? then Found(t.handlers, params, false)
      else match ExactHint(t, path)
        case None => Crash
        case Some(tsr) => Found(None, params, tsr)
    else
      Found(None, params, path == [SLASH] || TsrForRedirect(t, path))
  }
}
