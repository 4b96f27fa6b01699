/** How matching, clashing and well-formedness follow a common prefix of patterns. */
module PatternLemmas {
  import opened Bytes
  import opened Wrappers
  import opened Patterns

  /** The rest of a pattern after a literal prefix, when the cut is not inside "/" "*". */
  predicate NoStar(q: bytes) { q == [] || q[0] != STAR }

  /** The rest of a concatenation, from within its first part. */
  lemma DropWithin(x: bytes, y: bytes, n: nat)
    requires n <= |x|
    ensures (x + y)[n..] == x[n..] + y
    ensures 0 < n ==> (x + y)[1..n] == x[1..n]
  {
  }

  /** Then no catch-all starts across the cut. */
  lemma NoCatchAllAcross(x: bytes, q: bytes)
    requires x != [] && !StartsCatchAll(x) && NoStar(q)
    ensures !StartsCatchAll(x + q)
  {
    if |x| == 1 && q != [] { assert (x + q)[1] == q[0]; } else if |x| > 1 { assert (x + q)[1] == x[1]; }
  }

  lemma {:induction false} MatchLiteral(x: bytes, q: bytes, p: bytes)
    requires Literal(x) && NoStar(q)
    ensures Match(x + q, p) == if x <= p then Match(q, p[|x|..]) else None
  {
    if x == [] {
      assert x + q == q && p[0..] == p;
    } else {
      DropWithin(x, q, 1);
      NoCatchAllAcross(x, q);
      if p != [] && p[0] == x[0] {
        MatchLiteral(x[1..], q, p[1..]);
        assert x <= p <==> x[1..] <= p[1..] by { assert x == [x[0]] + x[1..] && p == [p[0]] + p[1..]; }
        if x <= p { assert p[1..][|x| - 1..] == p[|x|..]; }
      }
    }
  }

  lemma {:induction false} WellFormedLiteral(x: bytes, q: bytes)
    requires Literal(x) && NoStar(q)
    ensures WellFormed(x + q) == WellFormed(q)
  {
    if x == [] {
      assert x + q == q;
    } else {
      DropWithin(x, q, 1);
      NoCatchAllAcross(x, q);
      WellFormedLiteral(x[1..], q);
    }
  }

  /** A '*' that does not follow a '/' is never well formed. */
  lemma {:induction false} StrayStar(x: bytes, q: bytes)
    requires Literal(x) && q != [] && q[0] == STAR
    requires x != [] ==> x[|x| - 1] != SLASH
    ensures !WellFormed(x + q)
  {
    if x == [] {
      assert x + q == q;
    } else {
      DropWithin(x, q, 1);
      StrayStar(x[1..], q);
    }
  }

  lemma {:induction false} ClashLiteral(x: bytes, p: bytes, q: bytes)
    requires Literal(x) && NoStar(p) && NoStar(q)
    ensures Clash(x + p, x + q) == Clash(p, q)
  {
    if x == [] {
      assert x + p == p && x + q == q;
    } else {
      DropWithin(x, p, 1);
      DropWithin(x, q, 1);
      NoCatchAllAcross(x, p);
      NoCatchAllAcross(x, q);
      ClashLiteral(x[1..], p, q);
    }
  }

  /** A catch-all clashes with every other pattern that goes on below the same '/'. */
  lemma {:induction false} ClashBelowSlash(x: bytes, p: bytes, q: bytes)
    requires Literal(x) && x != [] && x[|x| - 1] == SLASH && p != [] && p[0] == STAR
    ensures Clash(x + p, x + q)
  {
    DropWithin(x, p, 1);
    DropWithin(x, q, 1);
    if |x| == 1 {
      assert (x + p)[1] == STAR;
    } else {
      ClashBelowSlash(x[1..], p, q);
    }
  }

  /** The first byte after a parameter's name, if any, is '/'. */
  predicate AfterParam(q: bytes) { q == [] || q[0] == SLASH }

  lemma ParamSegment(name: bytes, q: bytes)
    requires ValidName(name) && AfterParam(q)
    ensures SegmentEnd([COLON] + name + q) == 1 + |name|
    ensures ([COLON] + name + q)[1..1 + |name|] == name
    ensures ([COLON] + name + q)[1 + |name|..] == q
    ensures ([COLON] + name + q)[0] == COLON
  {
    SegmentEndUnique([COLON] + name + q, 1 + |name|);
  }

  lemma MatchParam(name: bytes, q: bytes, p: bytes)
    requires ValidName(name) && AfterParam(q)
    ensures Match([COLON] + name + q, p) ==
      if p == [] then None
      else match Match(q, p[SegmentEnd(p)..])
           case None => None
           case Some(rest) => Some([Capture(name, p[..SegmentEnd(p)])] + rest)
  {
    ParamSegment(name, q);
  }

  lemma ClashParam(name: bytes, p: bytes, q: bytes)
    requires ValidName(name) && AfterParam(p) && AfterParam(q)
    ensures Clash([COLON] + name + p, [COLON] + name + q) == Clash(p, q)
  {
    ParamSegment(name, p);
    ParamSegment(name, q);
  }

  lemma WellFormedParam(name: bytes, q: bytes)
    requires ValidName(name) && AfterParam(q)
    ensures WellFormed([COLON] + name + q) == WellFormed(q)
  {
    ParamSegment(name, q);
  }

  /** `Mixed` only looks at where two patterns part, so a common prefix can be dropped. */
  lemma MixedPrefix(x: bytes, p: bytes, q: bytes)
    requires !Mixed(x + p, x + q)
    ensures !Mixed(p, q)
  {
    if Mixed(p, q) {
      var i :| 0 <= i < |p| && i < |q| && MixedAt(p, q, i);
      assert (x + p)[..|x| + i] == x + p[..i];
      assert (x + q)[..|x| + i] == x + q[..i];
      assert MixedAt(x + p, x + q, |x| + i);
    }
  }

  /** `AsciiFork` only looks at where two patterns part, so a common prefix can be dropped. */
  lemma ForkPrefix(x: bytes, p: bytes, q: bytes)
    ensures AsciiFork(x + p, x + q) == AsciiFork(p, q)
  {
    var i := CommonPrefix(p, q);
    assert (x + p)[..|x| + i] == x + p[..i] && (x + q)[..|x| + i] == x + q[..i];
    CommonPrefixUnique(x + p, x + q, |x| + i);
  }

  lemma ForkSymmetric(p: bytes, q: bytes)
    ensures AsciiFork(p, q) == AsciiFork(q, p)
  {
    CommonPrefixUnique(q, p, CommonPrefix(p, q));
  }

  lemma {:induction false} ClashSymmetric(p: bytes, q: bytes)
    ensures Clash(p, q) == Clash(q, p)
    decreases |p|
  {
    if p == [] || q == [] {
    } else if p[0] == COLON && q[0] == COLON {
      ClashSymmetric(p[SegmentEnd(p)..], q[SegmentEnd(q)..]);
    } else if p[0] == q[0] {
      ClashSymmetric(p[1..], q[1..]);
    }
  }

  lemma MixedSymmetric(p: bytes, q: bytes)
    ensures Mixed(p, q) == Mixed(q, p)
  {
    if Mixed(p, q) { var i :| 0 <= i < |p| && i < |q| && MixedAt(p, q, i); assert MixedAt(q, p, i); }
    if Mixed(q, p) { var i :| 0 <= i < |q| && i < |p| && MixedAt(q, p, i); assert MixedAt(p, q, i); }
  }

  /** Patterns that may stand together never match the same path. */
  lemma {:induction false} NoCommonMatch(p: bytes, q: bytes, path: bytes)
    requires WellFormed(p) && WellFormed(q) && !Clash(p, q) && !Mixed(p, q)
    ensures Match(p, path).None? || Match(q, path).None?
    decreases |p|
  {
    if p == [] || q == [] {
    } else if p[0] == COLON && q[0] == COLON {
      var n, m := SegmentEnd(p), SegmentEnd(q);
      assert p == p[..n] + p[n..] && q == q[..m] + q[m..];
      MixedPrefix(p[..n], p[n..], q[m..]);
      if path != [] { NoCommonMatch(p[n..], q[m..], path[SegmentEnd(path)..]); }
    } else if p[0] == q[0] {
      assert p == p[..1] + p[1..] && q == p[..1] + q[1..];
      MixedPrefix(p[..1], p[1..], q[1..]);
      if path != [] { NoCommonMatch(p[1..], q[1..], path[1..]); }
    } else {
      assert !MixedAt(p, q, 0);
    }
  }

  /** Puts captured values back into a pattern. */
  function Fill(q: bytes, ps: seq<Capture>): bytes
    decreases |q|
  {
    if q == [] then []
    else if q[0] == COLON then
      if ps == [] then [] else ps[0].value + Fill(q[SegmentEnd(q)..], ps[1..])
    else if StartsCatchAll(q) then
      if ps == [] then [] else ps[0].value
    else [q[0]] + Fill(q[1..], ps)
  }

  /** The captures of a match are named after the wildcards, in order, a parameter's value stays
      within a segment, and putting the values back gives the path. */
  lemma {:induction false} FillRestores(q: bytes, p: bytes)
    requires Match(q, p).Some?
    ensures Fill(q, Match(q, p).value) == p
    ensures Keys(Match(q, p).value) == Names(q)
    decreases |q|
  {
    if q == [] {
    } else if q[0] == COLON {
      var n, e := SegmentEnd(q), SegmentEnd(p);
      FillRestores(q[n..], p[e..]);
      var rest := Match(q[n..], p[e..]).value;
      assert Match(q, p).value[1..] == rest;
      assert p == p[..e] + p[e..];
    } else if StartsCatchAll(q) {
    } else {
      FillRestores(q[1..], p[1..]);
      assert p == [q[0]] + p[1..];
    }
  }

  function Keys(ps: seq<Capture>): seq<bytes> {
    if ps == [] then [] else [ps[0].key] + Keys(ps[1..])
  }

  /** The wildcard names of a pattern, in order. */
  function Names(q: bytes): seq<bytes>
    decreases |q|
  {
    if q == [] then []
    else if q[0] == COLON then [q[1..SegmentEnd(q)]] + Names(q[SegmentEnd(q)..])
    else if StartsCatchAll(q) then [q[2..]]
    else Names(q[1..])
  }

  /** A path that the pattern matches: every parameter is the byte `b`, a catch-all is the bare slash. */
  function Instance(q: bytes, b: byte): bytes
    decreases |q|
  {
    if q == [] then []
    else if q[0] == COLON then [b] + Instance(q[SegmentEnd(q)..], b)
    else if StartsCatchAll(q) then [SLASH]
    else [q[0]] + Instance(q[1..], b)
  }

  lemma {:induction false} InstanceMatches(q: bytes, b: byte)
    requires b != SLASH
    ensures Match(q, Instance(q, b)).Some?
    ensures q != [] ==> Instance(q, b) != []
    ensures AfterParam(q) ==> AfterParam(Instance(q, b))
    ensures var m := Match(q, Instance(q, b)).value; m != [] ==> m[0].value == [b] || m[0].value == [SLASH]
    decreases |q|
  {
    if q != [] {
      if q[0] == COLON {
        var n := SegmentEnd(q);
        InstanceMatches(q[n..], b);
        SegmentEndUnique(Instance(q, b), 1);
        assert Instance(q, b)[1..] == Instance(q[n..], b);
      } else if !StartsCatchAll(q) {
        InstanceMatches(q[1..], b);
        assert Instance(q, b)[1..] == Instance(q[1..], b);
      }
    }
  }
}
