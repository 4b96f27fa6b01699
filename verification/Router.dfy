/** The router object (router.go, banner.go): registration into one tree per method, and the answer to
    a request. */
module RouterObject {
  import opened Bytes
  import opened Wrappers
  import opened Patterns
  import opened RadixTree
  import opened RouteTable
  import opened Methods
  import opened Dispatch
  import opened TreeEnds
  import opened TreeNode
  import TreePriority
  import TreeRedirect

  method CountWildcards(path: bytes) returns (n: nat)
    ensures n == CountParams(path)
  {
    n := 0;
    var i := 0;
    assert path[0..] == path;
    while i < |path|
      invariant i <= |path| && n + CountParams(path[i..]) == CountParams(path)
    {
      assert path[i..][1..] == path[i + 1..];
      if IsWild(path[i]) {
        n := n + 1;
      }
      i := i + 1;
    }
  }

  /** The redirect to the path with its trailing slash toggled. */
  method RedirectTrailingSlash(verb: string, path: bytes) returns (a: Answer)
    requires path != [SLASH]
    ensures a.Redirect? && a.code == if verb == GET then 301 else 308
    ensures path == a.target + [SLASH] || (a.target == path + [SLASH] && (path == [] || path[|path| - 1] != SLASH))
    ensures a.target == TreeRedirect.Toggle(path)
  {
    var target := path;
    if |path| > 1 && path[|path| - 1] == SLASH {
      target := path[..|path| - 1];
    } else {
      target := path + [SLASH];
    }
    var code := 301;
    if verb != GET {
      code := 308;
    }
    a := Redirect(target, code);
  }

  /** The list of the entries' methods and patterns. */
  function Meta(table: Table): seq<(string, bytes)> {
    seq(|table|, k requires 0 <= k < |table| => (table[k].verb, table[k].pattern))
  }

  /** The outcome of registering one more entry. */
  function Registration(table: Table, e: Entry): Outcome { RegisterAll(Of(table + [e], e.verb)) }

  /** Every method's registrations were accepted. */
  predicate AllAccepted(table: Table) {
    forall m :: m in MethodsOf(table) ==> RegisterAll(Of(table, m)).status == Accepted
  }

  /** One more entry, as its method's tree sees it. */
  lemma OneMoreEntry(table: Table, e: Entry)
    requires AllAccepted(table)
    ensures MethodsOf(table + [e]) == MethodsOf(table) + {e.verb}
    ensures forall m :: m != e.verb ==> Of(table + [e], m) == Of(table, m)
    ensures e.verb !in MethodsOf(table) ==> RegisterAll(Of(table, e.verb)).tree == EMPTY
    ensures Registration(table, e) == AddRoute(RegisterAll(Of(table, e.verb)).tree, e.pattern, e.handlers)
    ensures Registration(table, e).status == Accepted ==> AllAccepted(table + [e])
  {
    hide RegisterAll, MethodsOf, Of, AddRoute;
    OfMore(table, e);
    MethodsOfMore(table, e);
    if e.verb !in MethodsOf(table) {
      NoEntries(table, e.verb);
      NothingRegistered();
    }
    RegisterLast(Of(table, e.verb), Route(e.pattern, e.handlers));
    forall m | m in MethodsOf(table + [e]) && m != e.verb
      ensures RegisterAll(Of(table + [e], m)).status == Accepted
    {
      assert Of(table + [e], m) == Of(table, m) && m in MethodsOf(table);
    }
  }

  /** What a caller can check to know that a registration ends: the method's patterns so far are ASCII, or
      they are supported and consistent and none of them is a trap for the new one. */
  ghost predicate Ends(table: Table, e: Entry) {
    var rs := Of(table, e.verb);
    || (forall i :: 0 <= i < |rs| ==> Ascii(rs[i].pattern))
    || (Supported(rs) && Consistent(rs) && forall i :: 0 <= i < |rs| ==> !Trap(e.pattern, rs[i].pattern))
  }

  /** Then it does end, and behind supported, consistent patterns the traps are the only way not to. */
  lemma RegistrationEnds(table: Table, e: Entry)
    requires e.pattern != [] && e.pattern[0] == SLASH
    ensures Ends(table, e) ==> Registration(table, e).status != Diverged
    ensures var rs := Of(table, e.verb); Supported(rs) && Consistent(rs) ==>
      (Registration(table, e).status == Diverged <==> exists i :: 0 <= i < |rs| && Trap(e.pattern, rs[i].pattern))
  {
    hide RegisterAll, Supported, Consistent, Trap, Ascii, Of;
    var rs, r := Of(table, e.verb), Route(e.pattern, e.handlers);
    OfMore(table, e);
    if Supported(rs) && Consistent(rs) { NextRouteDiverges(rs, r); }
    if forall i :: 0 <= i < |rs| ==> Ascii(rs[i].pattern) {
      assert forall i :: 0 <= i < |rs| ==> (rs + [r])[i] == rs[i];
      AsciiTableEnds(rs + [r]);
    }
  }

  /** Supported patterns: the path begins with '/', and it neither parts from another route of the same
      method at a byte from 128 on nor puts a parameter against a literal byte of one. Their registration is
      accepted exactly when all the method's patterns are well formed and none conflict. */
  lemma SupportedEntry(table: Table, e: Entry)
    requires Loaded(table) && Supported(Of(table + [e], e.verb))
    ensures Registration(table, e).status != Diverged
    ensures Registration(table, e).status == Accepted <==> Consistent(Of(table + [e], e.verb))
    ensures Registration(table, e).status == Accepted ==> Loaded(table + [e])
  {
    hide RegisterAll, Supported, Consistent, MethodsOf, Loaded, Of;
    RegisterAllCorrect(Of(table + [e], e.verb));
    if Consistent(Of(table + [e], e.verb)) { LoadedMore(table, e); }
  }

  lemma OfMore(table: Table, e: Entry)
    ensures forall m :: Of(table + [e], m) == Of(table, m) + (if e.verb == m then [Route(e.pattern, e.handlers)] else [])
  {
    assert (table + [e])[..|table|] == table;
  }

  lemma MethodsOfMore(table: Table, e: Entry)
    ensures MethodsOf(table + [e]) == MethodsOf(table) + {e.verb}
  {
    assert e in table + [e];
    assert forall x :: x in table ==> x in table + [e];
  }

  lemma LoadedMore(table: Table, e: Entry)
    requires Loaded(table) && Supported(Of(table + [e], e.verb)) && Consistent(Of(table + [e], e.verb))
    ensures Loaded(table + [e])
  {
    hide Supported, Consistent, MethodsOf, Of;
    OfMore(table, e);
    MethodsOfMore(table, e);
    forall m | m in MethodsOf(table + [e])
      ensures Supported(Of(table + [e], m)) && Consistent(Of(table + [e], m))
    {
      if m != e.verb { assert Of(table + [e], m) == Of(table, m) && m in MethodsOf(table); }
    }
  }

  lemma {:induction false} NoEntries(table: Table, m: string)
    requires m !in MethodsOf(table)
    ensures Of(table, m) == []
  {
    if table != [] {
      var init, last := table[..|table| - 1], table[|table| - 1];
      assert last in table && last.verb in MethodsOf(table);
      assert forall e :: e in init ==> e in table && e.verb in MethodsOf(table);
      NoEntries(init, m);
    }
  }

  lemma NothingRegistered()
    ensures RegisterAll([]) == Outcome(EMPTY, Accepted)
  {}

  lemma ServesItsTree(trees: Trees, path: bytes)
    requires Sound(trees, path)
    ensures forall m :: Serves(trees, m, path) ==> m in trees
  {}

  /** `n` is the largest parameter count of the entries, or zero. */
  ghost predicate LargestCount(table: Table, n: nat) {
    && (forall e :: e in table ==> CountParams(e.pattern) <= n)
    && (n > 0 ==> exists e :: e in table && CountParams(e.pattern) == n)
  }

  lemma LargestOfMore(table: Table, e: Entry, n: nat)
    requires LargestCount(table, n)
    ensures LargestCount(table + [e], if CountParams(e.pattern) > n then CountParams(e.pattern) else n)
  {
    hide CountParams;
    assert e in table + [e];
    if x :| x in table && CountParams(x.pattern) == n { assert x in table + [e]; }
  }

  class Router {
    const config: Config
    var trees: map<string, Node>
    var middleware: Chain
    var routes: seq<(string, bytes)>
    var maxParams: nat

    /** The accepted registrations, with their composed chains. */
    ghost var table: Table
    /** All nodes of all trees. */
    ghost var nodes: set<Node>

    /** The trees are valid and share no nodes. */
    static ghost predicate TreesIn(trees: map<string, Node>, nodes: set<Node>)
      reads nodes
    {
      && (forall m :: m in trees ==> trees[m] in nodes && trees[m] in trees[m].repr && trees[m].repr <= nodes && trees[m].Valid())
      && (forall m, m' :: m in trees && m' in trees && m != m' ==> trees[m].repr !! trees[m'].repr)
    }

    ghost predicate Valid()
      reads this, nodes
    {
      && TreesStandFor(table)
      && routes == Meta(table)
      && LargestCount(table, maxParams)
    }

    /** The calls so far, as far as requests depend on them. */
    ghost function Calls(): Setup
      reads this
    {
      Setup(middleware, table)
    }

    constructor (config: Config)
      ensures Valid() && table == [] && middleware == [] && this.config == config && nodes == {}
    {
      this.config := config;
      trees, middleware, routes, maxParams := map[], [], [], 0;
      table, nodes := [], {};
    }

    method Use(more: Chain)
      requires Valid()
      modifies this`middleware
      ensures Valid() && middleware == old(middleware) + more
      ensures Calls() == After(old(Calls()), Step.Use(more))
    {
      middleware := middleware + more;
    }

    function Compose(handlers: Chain): Chain
      reads this
    {
      middleware + handlers
    }

    /** The root for a method, made when there is none. */
    method RootOf(verb: string) returns (root: Node)
      requires TreesIn(trees, nodes)
      modifies this`trees, this`nodes
      ensures TreesIn(trees, nodes) && verb in trees && trees[verb] == root
      ensures trees.Keys == old(trees.Keys) + {verb} && fresh(nodes - old(nodes))
      ensures forall m :: m in old(trees) ==> trees[m] == old(trees)[m]
      ensures verb !in old(trees) ==> root.view == EMPTY
      ensures root.Valid() && root.repr <= nodes
    {
      hide Node.Valid;
      if verb in trees {
        root := trees[verb];
      } else {
        root := new Node();
        trees := trees[verb := root];
        nodes := nodes + {root};
      }
    }

    /** A registration in one tree leaves the others as they are. */
    twostate lemma OthersStay(verb: string)
      requires old(TreesIn(trees, nodes)) && trees == old(trees) && nodes == old(nodes) && verb in trees
      requires trees[verb].Valid() && fresh(trees[verb].repr - old(trees[verb].repr))
      requires forall n :: n in nodes && n !in old(trees[verb].repr) ==> unchanged(n)
      ensures TreesIn(trees, nodes + trees[verb].repr)
      ensures forall m :: m in trees && m != verb ==> trees[m].view == old(trees[m].view)
    {
    }

    /** The trees stand for `table`. */
    ghost predicate TreesStandFor(table: Table)
      reads this, nodes
    {
      && trees.Keys == MethodsOf(table) && TreesIn(trees, nodes) && AllAccepted(table)
      && forall m :: m in trees ==> trees[m].view == RegisterAll(Of(table, m)).tree
    }

    /** Notes a registration the trees already hold. */
    method Record(ghost e: Entry, verb: string, path: bytes)
      requires TreesStandFor(table + [e]) && verb == e.verb && path == e.pattern
      requires routes == Meta(table) && LargestCount(table, maxParams)
      modifies this`maxParams, this`routes, this`table
      ensures Valid() && table == old(table) + [e]
    {
      hide RegisterAll, AllAccepted, Node.Valid, MethodsOf, Of;
      var count := CountWildcards(path);
      LargestOfMore(table, e, maxParams);
      if count > maxParams {
        maxParams := count;
      }
      routes := routes + [(verb, path)];
      table := table + [e];
    }

    /** Registers the handlers, behind the middleware in use now; false stands for a panic. The registration
        must be one that ends, for which `Ends` is enough (`RegistrationEnds`). */
    method Handle(verb: string, path: bytes, handlers: Chain) returns (ok: bool)
      requires Valid()
      requires var e := Entry(verb, path, Compose(handlers));
        verb != "" && path != [] && path[0] == SLASH && handlers != [] ==>
          Ends(table, e) || Registration(table, e).status != Diverged
      modifies this, nodes
      ensures var e := Entry(verb, path, old(Compose(handlers)));
        && (ok <==>
          && verb != "" && path != [] && path[0] == SLASH && handlers != []
          && Registration(old(table), e).status == Accepted)
        && (ok ==> Valid() && table == old(table) + [Entry(verb, path, old(middleware) + handlers)])
        && (ok ==> Calls() == After(old(Calls()), Add(verb, path, handlers)))
        && (ok && Loaded(old(table)) && Supported(Of(old(table) + [e], verb)) ==> Loaded(table))
      ensures ok ==> middleware == old(middleware) && fresh(nodes - old(nodes))
    {
      hide RegisterAll, Loaded, Consistent, Supported, MethodsOf, Of, TreesIn, Meta, CountParams, AllAccepted, Registration, Ends;
      if verb == "" || path == [] || path[0] != SLASH || handlers == [] {
        return false;
      }
      var chain := Compose(handlers);
      ghost var e := Entry(verb, path, chain);
      if Loaded(table) && Supported(Of(table + [e], verb)) { SupportedEntry(table, e); }
      if Ends(table, e) { RegistrationEnds(table, e); }
      ok := Grow(verb, path, chain, e);
      if ok {
        Record(e, verb, path);
      }
    }

    /** The registration in the tree of its method. */
    method Grow(verb: string, path: bytes, chain: Chain, ghost e: Entry) returns (ok: bool)
      requires TreesStandFor(table) && e == Entry(verb, path, chain) && Registration(table, e).status != Diverged
      modifies this`trees, this`nodes, nodes
      ensures ok <==> Registration(table, e).status == Accepted
      ensures ok ==> TreesStandFor(table + [e]) && fresh(nodes - old(nodes))
    {
      hide RegisterAll, AllAccepted, Node.Valid, RadixTree.AddRoute, MethodsOf, Of, TreesIn;
      OneMoreEntry(table, e);
      var root := RootOf(verb);
      label R:
      ok := root.AddRoute(path, chain);
      if ok {
        OthersStay@R(verb);
        nodes := nodes + root.repr;
        StandForMore(table, e);
      }
    }

    /** The other trees are as before, and the tree of the entry's method has its route. */
    lemma StandForMore(table: Table, e: Entry)
      requires AllAccepted(table) && AllAccepted(table + [e])
      requires trees.Keys == MethodsOf(table) + {e.verb} && TreesIn(trees, nodes)
      requires trees[e.verb].view == Registration(table, e).tree
      requires forall m :: m in trees && m != e.verb ==> trees[m].view == RegisterAll(Of(table, m)).tree
      ensures TreesStandFor(table + [e])
    {
      hide RegisterAll, AllAccepted, Of, MethodsOf, TreesIn;
      OneMoreEntry(table, e);
    }

    // ---- requests ----

    /** Looks a path up in the tree of a method. */
    method Find(verb: string, path: bytes) returns (found: Option<Chain>, params: seq<Capture>, tsr: bool)
      requires Valid() && verb in trees && Sound(TreesOf(table), path)
      ensures verb in TreesOf(table) && Get(TreesOf(table)[verb], path, []) == Found(found, params, tsr)
    {
      hide RegisterAll, AllAccepted, Node.Valid, Of, Get;
      assert verb in TreesOf(table) && trees[verb].view == TreesOf(table)[verb];
      found, params, tsr := trees[verb].GetValue(path, []);
    }

    /** The methods with a matching route, found by visiting the trees in any order. */
    method ServingMethods(path: bytes) returns (methods: seq<string>)
      requires Valid() && Sound(TreesOf(table), path)
      ensures NoRepeats(methods) && forall m :: m in methods <==> Serves(TreesOf(table), m, path)
    {
      hide RegisterAll, AllAccepted, Node.Valid, Of, Get, MethodsOf, TreesIn, Meta, CountParams;
      ghost var ts := TreesOf(table);
      methods := [];
      var rest := trees.Keys;
      while rest != {}
        invariant rest <= trees.Keys == ts.Keys && NoRepeats(methods)
        invariant forall m :: m in methods <==> m in ts && m !in rest && Serves(ts, m, path)
      {
        var m :| m in rest;
        rest := rest - {m};
        var found, _, _ := Find(m, path);
        if found.Some? {
          methods := methods + [m];
        }
      }
    }

    /** The methods to advertise for a path. */
    method AllowHeader(path: bytes) returns (allow: Option<seq<string>>)
      requires Valid() && Sound(TreesOf(table), path)
      ensures allow == Allow(TreesOf(table), config, path)
    {
      hide RegisterAll, Node.Valid, TreesOf, Get, TreesStandFor, Meta, CountParams, Serves, SortSet;
      ghost var ts := TreesOf(table);
      var methods := ServingMethods(path);
      if methods == [] {
        return None;
      }
      assert Serves(ts, methods[0], path);
      ServesItsTree(ts, path);
      if config.handleHEAD && GET in methods && HEAD !in methods {
        methods := methods + [HEAD];
      }
      if config.handleOPTIONS && OPTIONS !in methods {
        methods := methods + [OPTIONS];
      }
      assert forall m :: m in Sort(methods) <==> m in Listed(ts, config, path);
      AllowIsCanonical(ts, config, path, Sort(methods));
      return Some(Sort(methods));
    }

    /** The answer to a request. Supported patterns never lead a lookup out of an index range. */
    method Dispatch(verb: string, path: bytes) returns (a: Answer)
      requires Valid() && (Loaded(table) || Sound(TreesOf(table), path))
      ensures Sound(TreesOf(table), path) && a == Answers(TreesOf(table), config, verb, path)
      ensures Loaded(table) && a.Run? ==> |a.params| <= maxParams
    {
      hide Loaded, Sound, Answers, TreesStandFor, Meta;
      if Loaded(table) { CapturesFit(table, config, verb, path, maxParams); }
      a := AnswerFor(verb, path);
    }

    method AnswerFor(verb: string, path: bytes) returns (a: Answer)
      requires Valid() && Sound(TreesOf(table), path)
      ensures a == Answers(TreesOf(table), config, verb, path)
    {
      hide RegisterAll, AllAccepted, Node.Valid, Of, Get, TreesIn, MethodsOf, TreesOf, Meta, Sound, Allow;
      TreeKeys();
      if verb in trees {
        var found, params, tsr := Find(verb, path);
        if found.Some? {
          return Run(found.value, params, false);
        }
        if path != [SLASH] && config.redirectTrailingSlash && tsr {
          a := RedirectTrailingSlash(verb, path);
          return;
        }
      }
      if verb == HEAD && config.handleHEAD && GET in trees {
        var found, params, _ := Find(GET, path);
        if found.Some? {
          return Run(found.value, params, true);
        }
      }
      var allow := AllowHeader(path);
      if verb == OPTIONS && config.handleOPTIONS && allow.Some? {
        return AutoOptions(allow.value);
      }
      return if allow.Some? then MethodNotAllowed(allow.value) else NotFound;
    }

    lemma TreeKeys()
      requires Valid()
      ensures trees.Keys == TreesOf(table).Keys
    {
      hide RegisterAll, Node.Valid, MethodsOf;
    }

    /** The number of routes for the startup banner: the priorities of the roots. */
    method RouteCount() returns (n: int)
      requires Valid()
      ensures n == |table| == |routes|
    {
      hide RegisterAll, Node.Valid, Of, MethodsOf, Get;
      n := 0;
      var rest := trees.Keys;
      EveryRouteCounted(table, rest);
      while rest != {}
        invariant rest <= trees.Keys && n + CountOf(table, rest) == |table|
      {
        var m :| m in rest;
        n := n + trees[m].priority;
        RootCounts(m);
        CountRemove(table, rest, m);
        rest := rest - {m};
      }
    }

    lemma RootCounts(m: string)
      requires Valid() && m in trees
      ensures trees[m].priority == |Of(table, m)|
    {
      hide RegisterAll;
      var root := trees[m];
      assert root.UpToDate(root.repr);
      TreePriority.RootCountsRoutes(Of(table, m));
    }
  }
}
