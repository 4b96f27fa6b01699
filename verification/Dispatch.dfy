/** Requests against the trees of all methods (router.go): which answer a request gets, and that the
    Allow header agrees with it (sections 9.3.2, 9.3.7, 10.2.1 and 15.5.6 of RFC 9110). */
module Dispatch {
  import opened Bytes
  import opened Wrappers
  import opened Patterns
  import opened RadixTree
  import opened TreeShape
  import opened RouteTable
  import opened Methods
  import TreeRedirect
  import TreeRemoval
  import TreeCompact
  import TreeHints
  import TreeTrailing
  import TreeBoundary

  const GET := "GET"
  const HEAD := "HEAD"
  const OPTIONS := "OPTIONS"

  datatype Config = Config(redirectTrailingSlash: bool, handleHEAD: bool, handleOPTIONS: bool)

  datatype Answer =
    | Run(handlers: Chain, params: seq<Capture>, suppressBody: bool)
    | Redirect(target: bytes, code: nat)
    | AutoOptions(allow: seq<string>)
    | MethodNotAllowed(allow: seq<string>)
    | NotFound

  type Trees = map<string, Tree>

  /** No lookup of this path leaves an index range. */
  predicate Sound(trees: Trees, path: bytes) { forall m :: m in trees ==> Get(trees[m], path, []).Found? }

  /** The method has a matching route of its own. */
  predicate Serves(trees: Trees, m: string, path: bytes)
    requires Sound(trees, path)
  {
    m in trees && Get(trees[m], path, []).handlers.Some?
  }

  // ---- the Allow list ----

  /** The methods to advertise when some method serves the path. */
  function Listed(trees: Trees, c: Config, path: bytes): set<string>
    requires Sound(trees, path)
  {
    (set m | m in trees && Serves(trees, m, path))
    + (if c.handleHEAD && Serves(trees, GET, path) then {HEAD} else {})
    + (if c.handleOPTIONS then {OPTIONS} else {})
  }

  /** The strictly sorted list of a set of names. */
  ghost function SortSet(s: set<string>): (r: seq<string>)
    ensures Ascending(r) && forall x :: x in r <==> x in s
  {
    if s == {} then []
    else
      var x :| x in s;
      Insert(x, SortSet(s - {x}))
  }

  ghost function Allow(trees: Trees, c: Config, path: bytes): Option<seq<string>>
    requires Sound(trees, path)
  {
    if exists m :: Serves(trees, m, path) then Some(SortSet(Listed(trees, c, path))) else None
  }

  // ---- dispatch ----

  ghost function Answers(trees: Trees, c: Config, m: string, path: bytes): Answer
    requires Sound(trees, path)
  {
    if Serves(trees, m, path) then
      var l := Get(trees[m], path, []);
      Run(l.handlers.value, l.params, false)
    else if m in trees && path != [SLASH] && c.redirectTrailingSlash && Get(trees[m], path, []).tsr then
      Redirect(TreeRedirect.Toggle(path), if m == GET then 301 else 308)
    else if m == HEAD && c.handleHEAD && Serves(trees, GET, path) then
      var l := Get(trees[GET], path, []);
      Run(l.handlers.value, l.params, true)
    else match Allow(trees, c, path)
      case Some(allow) => if m == OPTIONS && c.handleOPTIONS then AutoOptions(allow) else MethodNotAllowed(allow)
      case None => NotFound
  }

  /** The Allow list and the answers to all methods agree: a listed method is answered with neither 404
      nor 405; whatever runs a handler or answers OPTIONS is listed; and a method that is refused with
      405 is not on the list it is given, which is not empty. */
  lemma AllowAgreesWithDispatch(trees: Trees, c: Config, m: string, path: bytes)
    requires Sound(trees, path)
    ensures var allow, a := Allow(trees, c, path), Answers(trees, c, m, path);
      && (allow.Some? && m in allow.value ==> !a.NotFound? && !a.MethodNotAllowed?)
      && (a.Run? || a.AutoOptions? ==> allow.Some? && m in allow.value)
      && (a.AutoOptions? ==> allow == Some(a.allow) && m == OPTIONS && c.handleOPTIONS)
      && (a.MethodNotAllowed? ==> allow == Some(a.allow) && a.allow != [] && m !in a.allow)
      && (a.NotFound? ==> allow.None?)
  {
    var l := Listed(trees, c, path);
    if Serves(trees, m, path) {
      assert m in l;
    }
    if other :| Serves(trees, other, path) {
      assert other in l && other in SortSet(l);
    }
  }

  /** The list is strictly sorted, and any other strictly sorted list of the same methods is this one, in
      whatever order the trees are visited. */
  lemma AllowIsCanonical(trees: Trees, c: Config, path: bytes, other: seq<string>)
    requires Sound(trees, path) && Allow(trees, c, path).Some?
    ensures Ascending(Allow(trees, c, path).value)
    ensures Ascending(other) && (forall m :: m in other <==> m in Listed(trees, c, path)) ==> other == Allow(trees, c, path).value
  {
    if Ascending(other) && forall m :: m in other <==> m in Listed(trees, c, path) {
      AscendingIsUnique(other, Allow(trees, c, path).value);
    }
  }

  // ---- registered routes ----

  /** One call of `Handle` that was accepted. */
  datatype Entry = Entry(verb: string, pattern: bytes, handlers: Chain)

  type Table = seq<Entry>

  /** The routes of one method, in order. */
  function Of(table: Table, m: string): seq<Route> {
    if table == [] then []
    else
      var e := table[|table| - 1];
      Of(table[..|table| - 1], m) + (if e.verb == m then [Route(e.pattern, e.handlers)] else [])
  }

  function MethodsOf(table: Table): set<string> { set e | e in table :: e.verb }

  function TreesOf(table: Table): Trees { map m | m in MethodsOf(table) :: RegisterAll(Of(table, m)).tree }

  /** Every method has a supported and consistent list of routes. */
  ghost predicate Loaded(table: Table) {
    forall m :: m in MethodsOf(table) ==> Supported(Of(table, m)) && Consistent(Of(table, m))
  }

  lemma {:induction false} OfIsFilter(table: Table, m: string, r: Route)
    ensures r in Of(table, m) <==> Entry(m, r.pattern, r.handlers) in table
  {
    if table != [] {
      OfIsFilter(table[..|table| - 1], m, r);
      assert table == table[..|table| - 1] + [table[|table| - 1]];
    }
  }

  /** The entry answers the path for method `m`. */
  predicate Hits(e: Entry, m: string, path: bytes) { e.verb == m && Match(e.pattern, path).Some? }

  lemma TreesAreSound(table: Table, path: bytes)
    requires Loaded(table)
    ensures Sound(TreesOf(table), path)
  {
    forall m | m in MethodsOf(table)
      ensures Get(TreesOf(table)[m], path, []).Found?
    {
      LookupRefinesList(Of(table, m), path);
    }
  }

  /** One method's tree answers for that method's entries: with exactly what an entry that hits calls for. */
  lemma TreeAnswersForEntries(table: Table, m: string, path: bytes)
    requires Loaded(table) && Sound(TreesOf(table), path)
    ensures forall e :: e in table && Hits(e, m, path) ==>
      m in TreesOf(table) && Served(Route(e.pattern, e.handlers), path, Get(TreesOf(table)[m], path, []))
    ensures Serves(TreesOf(table), m, path) ==> exists e :: e in table && Hits(e, m, path)
  {
    if m in MethodsOf(table) {
      var rs, l := Of(table, m), Get(TreesOf(table)[m], path, []);
      LookupRefinesList(rs, path);
      forall e | e in table && Hits(e, m, path)
        ensures Served(Route(e.pattern, e.handlers), path, l)
      {
        OfIsFilter(table, m, Route(e.pattern, e.handlers));
        var i :| 0 <= i < |rs| && rs[i] == Route(e.pattern, e.handlers);
      }
      if l.handlers.Some? {
        var i :| 0 <= i < |rs| && Served(rs[i], path, l);
        OfIsFilter(table, m, rs[i]);
        assert Hits(Entry(m, rs[i].pattern, rs[i].handlers), m, path);
      }
    }
  }

  /** A request is answered by the handlers of a route of its method exactly when that route's pattern
      matches the path, with the captures of the match. */
  lemma RequestsReachTheirRoute(table: Table, c: Config, m: string, path: bytes, h: Chain, params: seq<Capture>)
    requires Loaded(table)
    ensures Sound(TreesOf(table), path)
    ensures Answers(TreesOf(table), c, m, path) == Run(h, params, false) <==>
      exists e :: e in table && e.verb == m && Match(e.pattern, path) == Some(params) && e.handlers == h
  {
    hide Get, Match, RegisterAll, Allow, Loaded;
    TreesAreSound(table, path);
    TreeAnswersForEntries(table, m, path);
    var trees := TreesOf(table);
    if Serves(trees, m, path) {
      var e :| e in table && Hits(e, m, path);
      assert Served(Route(e.pattern, e.handlers), path, Get(trees[m], path, []));
    }
    if e :| e in table && e.verb == m && Match(e.pattern, path) == Some(params) && e.handlers == h {
      assert Hits(e, m, path);
    }
  }

  /** The body is suppressed exactly on automatic HEAD: no HEAD route matches, none asks for a redirect,
      and a GET route matches, whose handlers and captures the request gets. */
  lemma AutomaticHeadRunsGet(table: Table, c: Config, m: string, path: bytes, h: Chain, params: seq<Capture>)
    requires Loaded(table)
    ensures Sound(TreesOf(table), path)
    ensures Answers(TreesOf(table), c, m, path) == Run(h, params, true) <==>
      && m == HEAD && c.handleHEAD && !Answers(TreesOf(table), c, m, path).Redirect?
      && (forall e :: e in table ==> !Hits(e, HEAD, path))
      && exists e :: e in table && e.verb == GET && Match(e.pattern, path) == Some(params) && e.handlers == h
  {
    hide Get, Match, RegisterAll, Loaded, Allow;
    TreesAreSound(table, path);
    var trees := TreesOf(table);
    TreeAnswersForEntries(table, m, path);
    TreeAnswersForEntries(table, HEAD, path);
    TreeAnswersForEntries(table, GET, path);
    if Serves(trees, GET, path) {
      var e :| e in table && Hits(e, GET, path);
      assert Served(Route(e.pattern, e.handlers), path, Get(trees[GET], path, []));
    }
    if e :| e in table && e.verb == GET && Match(e.pattern, path) == Some(params) && e.handlers == h {
      assert Hits(e, GET, path);
    }
  }

  /** The Allow list, from the routes alone: there is one when some route of any method matches, and it
      has the methods of the matching routes, HEAD beside GET, and OPTIONS. */
  lemma AllowListsMatchingMethods(table: Table, c: Config, path: bytes)
    requires Loaded(table)
    ensures Sound(TreesOf(table), path)
    ensures var allow := Allow(TreesOf(table), c, path);
      && (allow.Some? <==> exists e :: e in table && Hits(e, e.verb, path))
      && (allow.Some? ==> Ascending(allow.value))
      && (allow.Some? ==> forall m :: m in allow.value <==>
           || (exists e :: e in table && Hits(e, m, path))
           || (m == HEAD && c.handleHEAD && exists e :: e in table && Hits(e, GET, path))
           || (m == OPTIONS && c.handleOPTIONS))
  {
    hide Get, Match, RegisterAll, Loaded, Hits, TreesOf, SortSet;
    TreesAreSound(table, path);
    var trees := TreesOf(table);
    forall m
      ensures Serves(trees, m, path) <==> exists e :: e in table && Hits(e, m, path)
    {
      TreeAnswersForEntries(table, m, path);
    }
    if m :| Serves(trees, m, path) {
      var e :| e in table && Hits(e, m, path);
      assert Hits(e, e.verb, path) by { assert Hits(e, m, path); HitsOwnVerb(e, m, path); }
    }
    if e :| e in table && Hits(e, e.verb, path) {
      assert Serves(trees, e.verb, path);
    }
    forall m
      ensures m in Listed(trees, c, path) <==>
        || (exists e :: e in table && Hits(e, m, path))
        || (m == HEAD && c.handleHEAD && exists e :: e in table && Hits(e, GET, path))
        || (m == OPTIONS && c.handleOPTIONS)
    {
      assert Serves(trees, m, path) <==> exists e :: e in table && Hits(e, m, path);
      assert Serves(trees, GET, path) <==> exists e :: e in table && Hits(e, GET, path);
    }
    var allow := Allow(trees, c, path);
    assert allow.Some? ==> forall m :: m in allow.value <==> m in Listed(trees, c, path);
  }

  lemma HitsOwnVerb(e: Entry, m: string, path: bytes)
    requires Hits(e, m, path)
    ensures Hits(e, e.verb, path)
  {}

  // ---- redirects ----

  /** A request is redirected exactly when its method's tree gives the hint. */
  lemma DispatchRedirects(trees: Trees, c: Config, m: string, path: bytes)
    requires Sound(trees, path)
    ensures var a := Answers(trees, c, m, path);
      && (a.Redirect? <==> c.redirectTrailingSlash && m in trees && TreeRedirect.Redirect(trees[m], path).Some?)
      && (a.Redirect? ==> TreeRedirect.Redirect(trees[m], path) == Some(a.target))
  {}

  /** The client follows redirects with the same method. */
  ghost predicate FollowedRun(trees: Trees, c: Config, m: string, run: seq<bytes>) {
    && run != [] && (forall k :: 0 <= k < |run| ==> Sound(trees, run[k]))
    && forall k :: 0 <= k < |run| - 1 ==> RedirectsTo(trees, c, m, run[k], run[k + 1])
  }

  ghost predicate RedirectsTo(trees: Trees, c: Config, m: string, path: bytes, target: bytes)
    requires Sound(trees, path)
  {
    var a := Answers(trees, c, m, path);
    a.Redirect? && a.target == target
  }

  /** No client is redirected for ever, and a redirect that adds a slash leads to a handler at once. */
  lemma RedirectsSettle(table: Table, c: Config, m: string, run: seq<bytes>)
    requires Loaded(table) && FollowedRun(TreesOf(table), c, m, run)
    ensures |run| <= |run[0]| + 2
    ensures |run| >= 2 && |run[1]| > |run[0]| ==> |run| == 2 && Answers(TreesOf(table), c, m, run[1]).Run?
  {
    var trees := TreesOf(table);
    if |run| >= 2 {
      assert RedirectsTo(trees, c, m, run[0], run[1]);
      var rs := Of(table, m);
      RegisterAllCorrect(rs);
      var e :| e in table && e.verb == m;
      OfIsFilter(table, m, Route(e.pattern, e.handlers));
      forall k | 0 <= k < |run| - 1
        ensures TreeRedirect.Redirect(trees[m], run[k]) == Some(run[k + 1])
      {
        assert RedirectsTo(trees, c, m, run[k], run[k + 1]);
        DispatchRedirects(trees, c, m, run[k]);
      }
      TreeRedirect.RedirectsEnd(trees[m], run);
      TreeRedirect.NoWayBack(trees[m], run[0]);
    }
  }

  /** A request that no route of its method matches, but that one with a slash of its own matches with the
      slash added: the handlers of that route run there, and the request is redirected there exactly when
      the pattern without its slash matches the path. */
  lemma MissingSlashIsRedirected(table: Table, c: Config, m: string, path: bytes, e: Entry)
    requires Loaded(table) && c.redirectTrailingSlash && path != [] && !TreeRedirect.EndsInSlash(path)
    requires e in table && e.verb == m && TreeRedirect.ServesWithSlash(e.pattern, path)
    requires forall e :: e in table ==> !Hits(e, m, path)
    ensures Sound(TreesOf(table), path) && Sound(TreesOf(table), path + [SLASH])
    ensures var a := Answers(TreesOf(table), c, m, path);
      && (a.Redirect? <==> Match(TreeRedirect.Unslashed(e.pattern), path).Some?)
      && (a.Redirect? ==> a == Redirect(path + [SLASH], if m == GET then 301 else 308))
    ensures Answers(TreesOf(table), c, m, path + [SLASH]) == Run(e.handlers, Match(e.pattern, path + [SLASH]).value, false)
  {
    hide Get, Match, RegisterAll, Supported, Consistent, Shape, Registered, Allow;
    TreesAreSound(table, path);
    TreesAreSound(table, path + [SLASH]);
    assert e.verb in MethodsOf(table);
    var trees, rs := TreesOf(table), Of(table, m);
    OfIsFilter(table, m, Route(e.pattern, e.handlers));
    RegisterAllCorrect(rs);
    assert Registered(trees[m], e.pattern, e.handlers);
    TreeAnswersForEntries(table, m, path);
    TreeRedirect.AddingHintExactlyWhen(trees[m], path, [], e.pattern, e.handlers);
    assert Hits(e, m, path + [SLASH]);
    RequestsReachTheirRoute(table, c, m, path + [SLASH], e.handlers, Match(e.pattern, path + [SLASH]).value);
  }

  /** Of a request that no route matches, where a catch-all starts behind a literal byte: it is redirected to the path
      with the slash exactly when no earlier route of the method starts with the text before the catch-all. */
  lemma CatchAllIsRedirected(table: Table, c: Config, m: string, path: bytes, i: nat, s: bytes)
    requires Loaded(table) && c.redirectTrailingSlash && path != [] && !TreeRedirect.EndsInSlash(path)
    requires i < |Of(table, m)| && TreeBoundary.IsStem(Of(table, m)[i].pattern, s) && Match(s, path).Some?
    requires forall e :: e in table ==> !Hits(e, m, path)
    ensures Sound(TreesOf(table), path)
    ensures var a := Answers(TreesOf(table), c, m, path);
      && (a.Redirect? <==> forall j :: 0 <= j < i ==> !(s <= Of(table, m)[j].pattern))
      && (a.Redirect? ==> a == Redirect(path + [SLASH], if m == GET then 301 else 308))
  {
    hide Get, Match, RegisterAll, Supported, Consistent, Shape, Registered, Allow, TreeBoundary.IsStem;
    TreesAreSound(table, path);
    var rs := Of(table, m);
    OfIsFilter(table, m, rs[i]);
    assert Entry(m, rs[i].pattern, rs[i].handlers) in table;
    TreeAnswersForEntries(table, m, path);
    TreeBoundary.CatchAllHintExactly(rs, i, s, path);
  }

  /** When no route of the method goes on behind a path, a request for the path with a slash is redirected
      to the path exactly when some route matches it, and then that route's handlers run. */
  lemma ExtraSlashIsRedirected(table: Table, c: Config, m: string, path: bytes)
    requires Loaded(table) && c.redirectTrailingSlash
    requires forall e, x :: e in table && e.verb == m ==> !TreeRemoval.MatchesLonger(e.pattern, path, x)
    ensures Sound(TreesOf(table), path) && Sound(TreesOf(table), path + [SLASH])
    ensures var a := Answers(TreesOf(table), c, m, path + [SLASH]);
      && (a.Redirect? <==> exists e :: e in table && Hits(e, m, path))
      && (a.Redirect? ==> a == Redirect(path, if m == GET then 301 else 308) && Answers(TreesOf(table), c, m, path).Run?)
  {
    hide Get, Match, RegisterAll, Supported, Consistent, Shape, Registered, Allow;
    TreesAreSound(table, path);
    TreesAreSound(table, path + [SLASH]);
    TreeAnswersForEntries(table, m, path);
    var trees, rs := TreesOf(table), Of(table, m);
    if m in MethodsOf(table) {
      var e :| e in table && e.verb == m;
      OfIsFilter(table, m, Route(e.pattern, e.handlers));
      RegisterAllCorrect(rs);
      if r, g, x :| Registered(trees[m], r, g) && TreeRemoval.MatchesLonger(r, path, x) {
        OfIsFilter(table, m, Route(r, g));
      }
      TreeRemoval.RemovingHintExactlyWhen(trees[m], path, []);
      if path == [] { TreeRemoval.EmptyGoesOn(trees[m]); }
    }
  }

  /** Some route of the method has `z` left when the path is used up. */
  ghost predicate LeftOver(table: Table, m: string, p: bytes, z: bytes) {
    exists e :: e in table && e.verb == m && TreeHints.Left(e.pattern, p) == Some(z)
  }

  ghost predicate AllLeftStartWith(table: Table, m: string, p: bytes, b: byte) {
    forall z :: LeftOver(table, m, p, z) && z != [] ==> z[0] == b
  }

  lemma LeavesOfTable(table: Table, m: string, p: bytes, z: bytes)
    requires Loaded(table) && m in MethodsOf(table)
    ensures TreeHints.Leaves(TreesOf(table)[m], p, z) <==> LeftOver(table, m, p, z)
  {
    hide RegisterAll, Supported, Consistent, Shape, Registered, TreeHints.Left;
    var t, rs := TreesOf(table)[m], Of(table, m);
    RegisterAllCorrect(rs);
    if r, g :| Registered(t, r, g) && TreeHints.Left(r, p) == Some(z) {
      OfIsFilter(table, m, Route(r, g));
      assert Entry(m, r, g) in table;
    }
    if e :| e in table && e.verb == m && TreeHints.Left(e.pattern, p) == Some(z) {
      OfIsFilter(table, m, Route(e.pattern, e.handlers));
      assert Registered(t, e.pattern, e.handlers);
    }
  }

  /** The hint that the routes of the method call for on the path and a slash. One of them is that path and one more
      slash; or those that go on behind it agree on the next byte, and a route matches the path, or puts a parameter
      right behind it, or goes on behind the slash where the routes part behind the path or the path ends in a
      captured segment. */
  ghost predicate GivenByTable(table: Table, m: string, path: bytes) {
    var p := path + [SLASH];
    LeftOver(table, m, p, [SLASH]) ||
    (AgreeInTable(table, m, p) &&
      ((exists e :: e in table && Hits(e, m, path)) || ParamNext(table, m, path) ||
        ((!AgreeInTable(table, m, path) || Captured(table, m, path)) && exists z :: LeftOver(table, m, p, z))))
  }

  ghost predicate AgreeInTable(table: Table, m: string, p: bytes) { exists b :: AllLeftStartWith(table, m, p, b) }

  ghost predicate ParamNext(table: Table, m: string, p: bytes) { exists z :: LeftOver(table, m, p, z) && z != [] && z[0] == COLON }

  ghost predicate Captured(table: Table, m: string, p: bytes) {
    exists e :: e in table && e.verb == m && TreeTrailing.EndsCaptured(e.pattern, p)
  }

  lemma CapturedInTable(table: Table, m: string, p: bytes)
    requires Loaded(table) && m in MethodsOf(table)
    ensures TreeTrailing.Captures(TreesOf(table)[m], p) <==> Captured(table, m, p)
  {
    hide RegisterAll, Supported, Consistent, Shape, Registered, TreeTrailing.EndsCaptured;
    var t, rs := TreesOf(table)[m], Of(table, m);
    RegisterAllCorrect(rs);
    if r, g :| Registered(t, r, g) && TreeTrailing.EndsCaptured(r, p) {
      OfIsFilter(table, m, Route(r, g));
      assert Entry(m, r, g) in table;
    }
    if e :| e in table && e.verb == m && TreeTrailing.EndsCaptured(e.pattern, p) {
      OfIsFilter(table, m, Route(e.pattern, e.handlers));
      assert Registered(t, e.pattern, e.handlers);
    }
  }

  lemma AgreedInTable(table: Table, m: string, p: bytes)
    requires Loaded(table) && m in MethodsOf(table)
    ensures TreeHints.Agree(TreesOf(table)[m], p) <==> AgreeInTable(table, m, p)
    ensures TreeHints.NoCatchAllLeft(TreesOf(table)[m], p) <==> forall z :: LeftOver(table, m, p, z) ==> !StartsCatchAll(z)
    ensures TreeTrailing.BeforeParam(TreesOf(table)[m], p) <==> ParamNext(table, m, p)
    ensures TreeTrailing.SomeLeaves(TreesOf(table)[m], p) <==> exists z :: LeftOver(table, m, p, z)
  {
    hide LeftOver, TreeHints.Leaves, RegisterAll;
    var t := TreesOf(table)[m];
    forall z ensures TreeHints.Leaves(t, p, z) <==> LeftOver(table, m, p, z) { LeavesOfTable(table, m, p, z); }
    if b :| TreeHints.AllGoOnWith(t, p, b) { assert AllLeftStartWith(table, m, p, b); }
    if b :| AllLeftStartWith(table, m, p, b) { assert TreeHints.AllGoOnWith(t, p, b); }
  }

  lemma GivenInTable(table: Table, m: string, path: bytes)
    requires Loaded(table) && m in MethodsOf(table)
    ensures TreeTrailing.Given(TreesOf(table)[m], path, exists e :: e in table && Hits(e, m, path)) <==> GivenByTable(table, m, path)
  {
    hide LeftOver, TreeHints.Leaves, TreeHints.Agree, AgreeInTable, Captured, TreeTrailing.Captures, RegisterAll, Match;
    AgreedInTable(table, m, path);
    AgreedInTable(table, m, path + [SLASH]);
    CapturedInTable(table, m, path);
    LeavesOfTable(table, m, path + [SLASH], [SLASH]);
  }

  lemma NoRoutesNoHint(table: Table, m: string, path: bytes)
    requires m !in MethodsOf(table)
    ensures !GivenByTable(table, m, path) && forall e :: e in table ==> !Hits(e, m, path + [SLASH])
  {
    hide Match, TreeHints.Left;
  }

  lemma TreeOfMethod(table: Table, m: string)
    requires Loaded(table) && m in MethodsOf(table)
    ensures var t := TreesOf(table)[m]; Shape(t) && t.nType == Root && TreeCompact.Compact(t)
  {
    hide RegisterAll, Supported, Consistent, Shape, Registered, TreeCompact.Compact;
    var e :| e in table && e.verb == m;
    OfIsFilter(table, m, Route(e.pattern, e.handlers));
    RegisterAllCorrect(Of(table, m));
    TreeCompact.TableIsCompact(Of(table, m));
  }

  /** Where no catch-all goes on behind a path with a slash, a request for the path with the slash is redirected to
      the path exactly when no route of the method matches it with the slash and the routes call for the hint. */
  lemma TrailingSlashExactly(table: Table, c: Config, m: string, path: bytes)
    requires Loaded(table) && c.redirectTrailingSlash && path != []
    requires forall z :: LeftOver(table, m, path + [SLASH], z) ==> !StartsCatchAll(z)
    ensures Sound(TreesOf(table), path + [SLASH])
    ensures var a := Answers(TreesOf(table), c, m, path + [SLASH]);
      && (a.Redirect? <==> (forall e :: e in table ==> !Hits(e, m, path + [SLASH])) && GivenByTable(table, m, path))
      && (a.Redirect? ==> a == Redirect(path, if m == GET then 301 else 308))
  {
    hide Get, Match, RegisterAll, Supported, Consistent, Shape, Registered, Allow, LeftOver, TreeCompact.Compact;
    hide TreeTrailing.Given, TreeHints.NoCatchAllLeft, GivenByTable;
    var p := path + [SLASH];
    TreesAreSound(table, path);
    TreesAreSound(table, p);
    if m in MethodsOf(table) {
      TreeAnswersForEntries(table, m, path);
      TreeAnswersForEntries(table, m, p);
      TreeOfMethod(table, m);
      AgreedInTable(table, m, p);
      TreeTrailing.SlashHintExactly(TreesOf(table)[m], path, []);
      GivenInTable(table, m, path);
    } else {
      NoRoutesNoHint(table, m, path);
    }
  }

  /** When a route of the method matches a path and none matches it with a slash behind it, alone or followed by
      more, a request for the path with a slash is redirected to the path, where that route's handlers run. */
  lemma ServedPathTakesSlash(table: Table, c: Config, m: string, path: bytes, e: Entry)
    requires Loaded(table) && c.redirectTrailingSlash && e in table && Hits(e, m, path)
    requires forall d, x :: d in table && d.verb == m ==> !TreeTrailing.MatchesBehind(d.pattern, path, x)
    ensures Sound(TreesOf(table), path) && Sound(TreesOf(table), path + [SLASH])
    ensures Answers(TreesOf(table), c, m, path + [SLASH]) == Redirect(path, if m == GET then 301 else 308)
    ensures Answers(TreesOf(table), c, m, path) == Run(e.handlers, Match(e.pattern, path).value, false)
  {
    hide Get, Match, RegisterAll, Supported, Consistent, Shape, Registered, Allow, TreeCompact.Compact;
    TreesAreSound(table, path);
    TreesAreSound(table, path + [SLASH]);
    RequestsReachTheirRoute(table, c, m, path, e.handlers, Match(e.pattern, path).value);
    TreeAnswersForEntries(table, m, path);
    TreeOfMethod(table, m);
    var t := TreesOf(table)[m];
    RegisterAllCorrect(Of(table, m));
    if r, g, x :| Registered(t, r, g) && TreeTrailing.MatchesBehind(r, path, x) {
      OfIsFilter(table, m, Route(r, g));
    }
    TreeTrailing.ServedPathIsHinted(t, path, []);
    if path == [] { TreeTrailing.NothingServed(t, []); }
  }

  // ---- middleware ----

  /** One call while a router is set up. */
  datatype Step = Use(more: Chain) | Add(verb: string, pattern: bytes, handlers: Chain)

  /** The global middleware so far, and the registrations with their chains. */
  datatype Setup = Setup(middleware: Chain, table: Table)

  function After(s: Setup, step: Step): Setup {
    match step
    case Use(more) => s.(middleware := s.middleware + more)
    case Add(verb, pattern, handlers) => s.(table := s.table + [Entry(verb, pattern, s.middleware + handlers)])
  }

  function AfterAll(s: Setup, steps: seq<Step>): Setup
    decreases |steps|
  {
    if steps == [] then s else AfterAll(After(s, steps[0]), steps[1..])
  }

  /** All middleware of some calls, in order. */
  function Used(steps: seq<Step>): Chain {
    if steps == [] then [] else (if steps[0].Use? then steps[0].more else []) + Used(steps[1..])
  }

  lemma {:induction false} AfterUsed(s: Setup, steps: seq<Step>)
    ensures AfterAll(s, steps).middleware == s.middleware + Used(steps)
    ensures s.table <= AfterAll(s, steps).table
    decreases |steps|
  {
    if steps != [] { AfterUsed(After(s, steps[0]), steps[1..]); }
  }

  lemma {:induction false} AfterBoth(s: Setup, first: seq<Step>, second: seq<Step>)
    ensures AfterAll(s, first + second) == AfterAll(AfterAll(s, first), second)
    decreases |first|
  {
    if first == [] {
      assert first + second == second;
    } else {
      assert (first + second)[1..] == first[1..] + second;
      AfterBoth(After(s, first[0]), first[1..], second);
    }
  }

  /** The route added between `before` and `later` has the middleware of `before` in front of its handlers. */
  lemma AddedEntry(before: seq<Step>, add: Step, later: seq<Step>)
    requires add.Add?
    ensures Entry(add.verb, add.pattern, Used(before) + add.handlers) in AfterAll(Setup([], []), before + [add] + later).table
  {
    var s := AfterAll(Setup([], []), before);
    AfterUsed(Setup([], []), before);
    assert [] + Used(before) == Used(before);
    AfterBoth(Setup([], []), before, [add] + later);
    assert before + ([add] + later) == before + [add] + later && ([add] + later)[1..] == later;
    AfterUsed(After(s, add), later);
    var e := Entry(add.verb, add.pattern, Used(before) + add.handlers);
    assert After(s, add).table[|s.table|] == e;
    assert AfterAll(After(s, add), later).table[|s.table|] == e;
  }

  /** A request that a route matches runs all middleware in use when the route was added, in the order of its
      registration, and then the route's handlers; middleware added later does not run. */
  lemma MiddlewareRunsFirst(before: seq<Step>, add: Step, later: seq<Step>, c: Config, path: bytes, params: seq<Capture>)
    requires add.Add? && Match(add.pattern, path) == Some(params)
    requires Loaded(AfterAll(Setup([], []), before + [add] + later).table)
    ensures var table := AfterAll(Setup([], []), before + [add] + later).table;
      Sound(TreesOf(table), path) && Answers(TreesOf(table), c, add.verb, path) == Run(Used(before) + add.handlers, params, false)
  {
    hide AfterAll, Used, Loaded, Match, Answers, TreesOf;
    AddedEntry(before, add, later);
    RequestsReachTheirRoute(AfterAll(Setup([], []), before + [add] + later).table, c, add.verb, path, Used(before) + add.handlers, params);
  }

  // ---- counting ----

  /** `countParams`. */
  function CountParams(path: bytes): nat {
    if path == [] then 0 else CountParams(path[1..]) + (if IsWild(path[0]) then 1 else 0)
  }

  lemma {:induction false} NoMarkers(s: bytes, k: nat)
    requires k <= |s| && forall i :: 0 <= i < k ==> !IsWild(s[i])
    ensures CountParams(s) == CountParams(s[k..])
  {
    if k > 0 {
      NoMarkers(s[1..], k - 1);
      assert s[1..][k - 1..] == s[k..];
    } else {
      assert s[0..] == s;
    }
  }

  /** A match of a well-formed pattern captures one value for every wildcard `countParams` counts, so
      parameter lists made for the largest count never grow. */
  lemma {:induction false} CapturesAreCounted(q: bytes, p: bytes)
    requires WellFormed(q) && Match(q, p).Some?
    ensures |Match(q, p).value| == CountParams(q)
    decreases |q|
  {
    if q == [] {
    } else if q[0] == COLON {
      var n := SegmentEnd(q);
      CapturesAreCounted(q[n..], p[SegmentEnd(p)..]);
      assert forall i :: 0 <= i < n - 1 ==> q[1..][i] == q[1..n][i];
      NoMarkers(q[1..], n - 1);
      assert q[1..][n - 1..] == q[n..];
    } else if StartsCatchAll(q) {
      assert q[1..][1..] == q[2..];
      NoMarkers(q[2..], |q| - 2);
      assert q[2..][|q| - 2..] == [];
      assert CountParams(q) == CountParams(q[1..]) && CountParams(q[1..]) == 1 + CountParams(q[2..]);
    } else {
      CapturesAreCounted(q[1..], p[1..]);
    }
  }

  /** The captures a request runs with fit into a parameter list made for the largest count. */
  lemma CapturesFit(table: Table, c: Config, m: string, path: bytes, max: nat)
    requires Loaded(table) && forall e :: e in table ==> CountParams(e.pattern) <= max
    ensures Sound(TreesOf(table), path)
    ensures var a := Answers(TreesOf(table), c, m, path); a.Run? ==> |a.params| <= max
  {
    hide Get, Match, RegisterAll, Loaded, CountParams, WellFormed, Allow;
    TreesAreSound(table, path);
    var a := Answers(TreesOf(table), c, m, path);
    if a.Run? {
      var verb := if a.suppressBody then GET else m;
      TreeAnswersForEntries(table, verb, path);
      var e :| e in table && Hits(e, verb, path);
      EntryIsWellFormed(table, e);
      CapturesAreCounted(e.pattern, path);
    }
  }

  lemma EntryIsWellFormed(table: Table, e: Entry)
    requires Loaded(table) && e in table
    ensures WellFormed(e.pattern)
  {
    OfIsFilter(table, e.verb, Route(e.pattern, e.handlers));
    assert e.verb in MethodsOf(table);
  }

  /** The routes of some methods. */
  ghost function CountOf(table: Table, ms: set<string>): nat {
    if ms == {} then 0
    else
      var m :| m in ms;
      |Of(table, m)| + CountOf(table, ms - {m})
  }

  lemma {:induction false} CountRemove(table: Table, ms: set<string>, m: string)
    requires m in ms
    ensures CountOf(table, ms) == |Of(table, m)| + CountOf(table, ms - {m})
    decreases |ms|
  {
    var picked :| picked in ms && CountOf(table, ms) == |Of(table, picked)| + CountOf(table, ms - {picked});
    if picked != m {
      CountRemove(table, ms - {picked}, m);
      CountRemove(table, ms - {m}, picked);
      assert ms - {picked} - {m} == ms - {m} - {picked};
    }
  }

  /** One more entry of a method counts once. */
  lemma {:induction false} CountAdd(table: Table, e: Entry, ms: set<string>)
    ensures CountOf(table + [e], ms) == CountOf(table, ms) + (if e.verb in ms then 1 else 0)
    decreases |ms|
  {
    if ms != {} {
      var m :| m in ms && CountOf(table + [e], ms) == |Of(table + [e], m)| + CountOf(table + [e], ms - {m});
      assert (table + [e])[..|table|] == table;
      assert Of(table + [e], m) == Of(table, m) + (if e.verb == m then [Route(e.pattern, e.handlers)] else []);
      CountAdd(table, e, ms - {m});
      CountRemove(table, ms, m);
    }
  }

  /** The number of routes over all methods is the length of the table. */
  lemma {:induction false} EveryRouteCounted(table: Table, ms: set<string>)
    requires MethodsOf(table) <= ms
    ensures CountOf(table, ms) == |table|
    decreases |table|
  {
    if table == [] {
      NothingCounted(ms);
    } else {
      var init, last := table[..|table| - 1], table[|table| - 1];
      assert init + [last] == table;
      assert last in table;
      EveryRouteCounted(init, ms);
      CountAdd(init, last, ms);
    }
  }

  lemma {:induction false} NothingCounted(ms: set<string>)
    ensures CountOf([], ms) == 0
    decreases |ms|
  {
    if ms != {} {
      var m :| m in ms && CountOf([], ms) == |Of([], m)| + CountOf([], ms - {m});
      assert Of([], m) == [];
      NothingCounted(ms - {m});
    }
  }
}
