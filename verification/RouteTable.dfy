/** Sequences of registrations: the tree against the plain list of routes. */
module RouteTable {
  import opened Bytes
  import opened Wrappers
  import opened Patterns
  import opened PatternLemmas
  import opened RadixTree
  import opened TreeShape
  import opened TreeInsert
  import opened TreeWalk
  import opened TreeLookup

  datatype Route = Route(pattern: bytes, handlers: Chain)

  /** Registers the routes in order, from an empty tree; the first refusal ends it. */
  function RegisterAll(rs: seq<Route>): Outcome {
    if rs == [] then Outcome(EMPTY, Accepted)
    else
      var r := RegisterAll(rs[..|rs| - 1]);
      var last := rs[|rs| - 1];
      if r.status == Accepted then AddRoute(r.tree, last.pattern, last.handlers) else r
  }

  lemma RegisterSteps(rs: seq<Route>)
    requires rs != []
    ensures RegisterAll([]) == Outcome(EMPTY, Accepted)
    ensures var r, last := RegisterAll(rs[..|rs| - 1]), rs[|rs| - 1];
      RegisterAll(rs) == if r.status == Accepted then AddRoute(r.tree, last.pattern, last.handlers) else r
  {
    hide AddRoute;
  }

  lemma RegisterLast(rs: seq<Route>, r: Route)
    requires RegisterAll(rs).status == Accepted
    ensures RegisterAll(rs + [r]) == AddRoute(RegisterAll(rs).tree, r.pattern, r.handlers)
  {
    hide AddRoute;
    assert (rs + [r])[..|rs|] == rs;
  }

  /** Patterns start with '/' and part at bytes below 128. */
  ghost predicate Plain(rs: seq<Route>) {
    && (forall i :: 0 <= i < |rs| ==> rs[i].pattern != [] && rs[i].pattern[0] == SLASH)
    && (forall i, j :: 0 <= i < j < |rs| ==> AsciiFork(rs[j].pattern, rs[i].pattern))
  }

  /** No two patterns put a parameter against a literal byte. */
  ghost predicate NeverMixed(rs: seq<Route>) {
    forall i, j :: 0 <= i < j < |rs| ==> !Mixed(rs[j].pattern, rs[i].pattern)
  }

  ghost predicate Supported(rs: seq<Route>) { Plain(rs) && NeverMixed(rs) }

  /** Every pattern is well formed and clashes with no other one. */
  ghost predicate Consistent(rs: seq<Route>) {
    && (forall i :: 0 <= i < |rs| ==> WellFormed(rs[i].pattern))
    && (forall i, j :: 0 <= i < j < |rs| ==> !Clash(rs[j].pattern, rs[i].pattern))
  }

  /** The tree stands for exactly the routes of the list. */
  ghost predicate StandsFor(t: Tree, rs: seq<Route>) {
    forall q, g :: Registered(t, q, g) <==> Route(q, g) in rs
  }

  /** The first registration. */
  lemma FirstRoute(p: bytes, h: Chain)
    requires p != [] && p[0] == SLASH
    ensures var r := AddRoute(EMPTY, p, h);
      && r.status != Diverged && (r.status == Accepted <==> WellFormed(p))
      && (r.status == Accepted ==> Shape(r.tree) && r.tree.nType == Root && Head(r.tree) == SLASH && Only(r.tree, p, h))
  {
    GrowFresh(Bump(EMPTY), p, h);
    var r := InsertChild(Bump(EMPTY), p, h);
    if r.status == Accepted {
      RegisteredStart(r.tree, p, h);
      var root := r.tree.(nType := Root);
      assert forall q, g :: Registered(root, q, g) == Registered(r.tree, q, g);
    }
  }

  /** A list of supported patterns is accepted exactly when it is consistent, and the tree then
      keeps its invariant and stands for exactly that list. */
  lemma {:induction false} RegisterAllCorrect(rs: seq<Route>)
    requires Supported(rs)
    ensures var r := RegisterAll(rs);
      && (r.status == Accepted <==> Consistent(rs))
      && r.status != Diverged
      && (r.status == Accepted ==> StandsFor(r.tree, rs))
      && (r.status == Accepted && rs != [] ==> Shape(r.tree) && r.tree.nType == Root && Head(r.tree) == SLASH)
      && (rs == [] ==> r.tree == EMPTY)
  {
    hide RegisterAll, AddRoute, Shape, StandsFor, Supported, Consistent, Clash, WellFormed;
    if rs == [] {
      EmptyTable();
    } else {
      RegisterSteps(rs);
      var init, last := rs[..|rs| - 1], rs[|rs| - 1];
      assert init + [last] == rs;
      InitKeeps(rs);
      RegisterAllCorrect(init);
      if Consistent(init) {
        if init == [] {
          FirstEntry(last);
        } else {
          AddToTable(RegisterAll(init).tree, init, last);
        }
        ConsistentLast(rs);
      }
    }
  }

  lemma InitKeeps(rs: seq<Route>)
    requires rs != []
    ensures Supported(rs) ==> Supported(rs[..|rs| - 1])
    ensures Consistent(rs) ==> Consistent(rs[..|rs| - 1])
  {
    hide Mixed, Clash, WellFormed, AsciiFork;
    var init := rs[..|rs| - 1];
    assert forall i :: 0 <= i < |init| ==> init[i] == rs[i];
  }

  lemma FirstEntry(r: Route)
    requires Supported([] + [r])
    ensures var o := AddRoute(EMPTY, r.pattern, r.handlers);
      && o.status != Diverged
      && (o.status == Accepted <==> WellFormed(r.pattern) && forall q, g :: Route(q, g) in [] ==> !Clash(r.pattern, q))
      && (o.status == Accepted ==> Shape(o.tree) && o.tree.nType == Root && Head(o.tree) == SLASH && StandsFor(o.tree, [] + [r]))
  {
    hide AddRoute, Shape, Clash, WellFormed, Mixed, AsciiFork;
    assert ([] + [r])[0] == r;
    FirstRoute(r.pattern, r.handlers);
  }

  lemma EmptyTable()
    ensures StandsFor(EMPTY, []) && Consistent([]) && RegisterAll([]) == Outcome(EMPTY, Accepted)
  {
    assert forall q, g :: !Registered(EMPTY, q, g);
  }

  lemma ConsistentLast(rs: seq<Route>)
    requires rs != [] && Consistent(rs[..|rs| - 1])
    ensures var last := rs[|rs| - 1];
      Consistent(rs) <==> WellFormed(last.pattern) && forall q, g :: Route(q, g) in rs[..|rs| - 1] ==> !Clash(last.pattern, q)
  {
    var init, last := rs[..|rs| - 1], rs[|rs| - 1];
    if WellFormed(last.pattern) && forall q, g :: Route(q, g) in init ==> !Clash(last.pattern, q) {
      forall i, j | 0 <= i < j < |rs|
        ensures !Clash(rs[j].pattern, rs[i].pattern)
      {
        assert rs[i] == init[i] == Route(rs[i].pattern, rs[i].handlers);
        if j == |rs| - 1 { assert Route(rs[i].pattern, rs[i].handlers) in init; } else { assert rs[j] == init[j]; }
      }
    }
    if Consistent(rs) {
      forall q, g | Route(q, g) in init
        ensures !Clash(last.pattern, q)
      {
        var i :| 0 <= i < |init| && init[i] == Route(q, g);
        assert rs[i] == init[i];
      }
    }
  }

  /** One more registration on a table. */
  lemma AddToTable(t: Tree, rs: seq<Route>, r: Route)
    requires Shape(t) && t.nType == Root && Head(t) == SLASH && StandsFor(t, rs)
    requires Supported(rs + [r])
    ensures var o := AddRoute(t, r.pattern, r.handlers);
      && o.status != Diverged
      && (o.status == Accepted <==> WellFormed(r.pattern) && forall q, g :: Route(q, g) in rs ==> !Clash(r.pattern, q))
      && (o.status == Accepted ==> Shape(o.tree) && o.tree.nType == Root && Head(o.tree) == SLASH && StandsFor(o.tree, rs + [r]))
  {
    var all := rs + [r];
    assert all[|rs|] == r;
    forall q, g | Registered(t, q, g)
      ensures !Mixed(r.pattern, q) && AsciiFork(r.pattern, q)
    {
      var i :| 0 <= i < |rs| && rs[i] == Route(q, g);
      assert all[i] == rs[i];
    }
    WalkCorrect(t, r.pattern, r.handlers);
    var q, g := SomeRegistered(t);
    RegisteredStart(t, q, g);
  }

  // ---- the table answers like the list ----

  /** Route `r` matches the path and `l` is the answer it calls for. */
  predicate Served(r: Route, p: bytes, l: Lookup) {
    Match(r.pattern, p).Some? && l.Found? && l.handlers == Some(r.handlers) && l.params == Match(r.pattern, p).value
  }

  /** Lookup against the plain list: at most one route matches a path, the lookup finds that one with
      its captures, and it finds nothing when none matches. */
  lemma LookupRefinesList(rs: seq<Route>, p: bytes)
    requires Supported(rs) && Consistent(rs)
    ensures var l := Get(RegisterAll(rs).tree, p, []);
      && l.Found?
      && (forall i :: 0 <= i < |rs| && Match(rs[i].pattern, p).Some? ==> Served(rs[i], p, l))
      && (l.handlers.Some? ==> exists i :: 0 <= i < |rs| && Served(rs[i], p, l))
      && (forall i, j :: 0 <= i < j < |rs| ==> Match(rs[i].pattern, p).None? || Match(rs[j].pattern, p).None?)
  {
    RegisterAllCorrect(rs);
    var t := RegisterAll(rs).tree;
    var l := Get(t, p, []);
    forall i, j | 0 <= i < j < |rs|
      ensures Match(rs[i].pattern, p).None? || Match(rs[j].pattern, p).None?
    {
      NoCommonMatch(rs[j].pattern, rs[i].pattern, p);
    }
    if rs != [] {
      GetCorrect(t, p, []);
      forall i | 0 <= i < |rs| && Match(rs[i].pattern, p).Some?
        ensures Served(rs[i], p, l)
      {
        assert Route(rs[i].pattern, rs[i].handlers) in rs;
        assert Registered(t, rs[i].pattern, rs[i].handlers);
        assert [] + Match(rs[i].pattern, p).value == Match(rs[i].pattern, p).value;
      }
      if l.handlers.Some? {
        var q, g :| Registered(t, q, g) && Match(q, p).Some?;
        var i :| 0 <= i < |rs| && rs[i] == Route(q, g);
        assert Served(rs[i], p, l);
      }
    }
  }

  // ---- the order of registration ----

  lemma {:induction false} TwoPlaces(s: seq<Route>, i: nat, j: nat)
    requires i < j < |s| && s[i] == s[j]
    ensures multiset(s)[s[i]] >= 2
  {
    assert s == s[..j] + s[j..];
    assert multiset(s) == multiset(s[..j]) + multiset(s[j..]);
    assert s[i] in s[..j] && s[j] in s[j..];
  }

  lemma {:induction false} TwicePlaces(s: seq<Route>, x: Route) returns (i: nat, j: nat)
    requires multiset(s)[x] >= 2
    ensures i < j < |s| && s[i] == x && s[j] == x
  {
    assert s == [s[0]] + s[1..];
    if s[0] == x {
      i := 0;
      assert x in s[1..] by { assert multiset(s[1..])[x] >= 1; }
      var k :| 0 <= k < |s[1..]| && s[1..][k] == x;
      j := k + 1;
    } else {
      i, j := TwicePlaces(s[1..], x);
      i, j := i + 1, j + 1;
    }
  }

  /** Two places of a list, found again in a reordering of it. */
  lemma SamePlaces(rs: seq<Route>, rs': seq<Route>, i: nat, j: nat) returns (i': nat, j': nat)
    requires multiset(rs) == multiset(rs') && i < j < |rs'|
    ensures i' < |rs| && j' < |rs| && i' != j' && rs[i'] == rs'[i] && rs[j'] == rs'[j]
  {
    if rs'[i] == rs'[j] {
      TwoPlaces(rs', i, j);
      i', j' := TwicePlaces(rs, rs'[i]);
    } else {
      assert rs'[i] in multiset(rs') && rs'[j] in multiset(rs');
      i' :| 0 <= i' < |rs| && rs[i'] == rs'[i];
      j' :| 0 <= j' < |rs| && rs[j'] == rs'[j];
    }
  }

  lemma ReorderKeeps(rs: seq<Route>, rs': seq<Route>)
    requires multiset(rs) == multiset(rs')
    ensures Supported(rs) ==> Supported(rs')
    ensures Consistent(rs) ==> Consistent(rs')
  {
    forall i | 0 <= i < |rs'|
      ensures exists i' :: 0 <= i' < |rs| && rs[i'] == rs'[i]
    {
      assert rs'[i] in multiset(rs');
    }
    forall i, j | 0 <= i < j < |rs'|
      ensures Supported(rs) ==> !Mixed(rs'[j].pattern, rs'[i].pattern) && AsciiFork(rs'[j].pattern, rs'[i].pattern)
      ensures Consistent(rs) ==> !Clash(rs'[j].pattern, rs'[i].pattern)
    {
      var i', j' := SamePlaces(rs, rs', i, j);
      ClashSymmetric(rs'[j].pattern, rs'[i].pattern);
      MixedSymmetric(rs'[j].pattern, rs'[i].pattern);
      ForkSymmetric(rs'[j].pattern, rs'[i].pattern);
    }
  }

  /** Registering the same routes in another order is accepted or refused alike, and every lookup
      finds the same handlers and, when it finds some, the same captures. */
  lemma OrderDoesNotMatter(rs: seq<Route>, rs': seq<Route>, p: bytes)
    requires Supported(rs) && multiset(rs) == multiset(rs')
    ensures RegisterAll(rs).status == RegisterAll(rs').status
    ensures RegisterAll(rs).status == Accepted ==>
      var l, l' := Get(RegisterAll(rs).tree, p, []), Get(RegisterAll(rs').tree, p, []);
      l.Found? && l'.Found? && l.handlers == l'.handlers && (l.handlers.Some? ==> l.params == l'.params)
  {
    ReorderKeeps(rs, rs');
    ReorderKeeps(rs', rs);
    RegisterAllCorrect(rs);
    RegisterAllCorrect(rs');
    if Consistent(rs) {
      LookupRefinesList(rs, p);
      LookupRefinesList(rs', p);
      assert forall x :: x in rs <==> x in multiset(rs);
      assert forall x :: x in rs' <==> x in multiset(rs');
      var l, l' := Get(RegisterAll(rs).tree, p, []), Get(RegisterAll(rs').tree, p, []);
      if l.handlers.Some? {
        var i :| 0 <= i < |rs| && Served(rs[i], p, l);
        assert rs[i] in rs';
      }
      if l'.handlers.Some? {
        var i :| 0 <= i < |rs'| && Served(rs'[i], p, l');
        assert rs'[i] in rs;
      }
    }
  }
}
