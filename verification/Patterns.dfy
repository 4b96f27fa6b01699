/** Route patterns and the declarative meaning of a route: which request paths a pattern matches
    and what it captures. Nothing here knows about the radix tree. */
module Patterns {
  import opened Bytes
  import opened Wrappers

  /** A URL parameter captured by a match. */
  datatype Capture = Capture(key: bytes, value: bytes)

  /** A wildcard name: not empty, within one segment, and free of wildcard markers. */
  predicate ValidName(name: bytes) {
    name != [] && forall k :: 0 <= k < |name| ==> name[k] != SLASH && !IsWild(name[k])
  }

  /** The pattern continues with a catch-all segment "/" "*" name. */
  predicate StartsCatchAll(q: bytes) { |q| >= 2 && q[0] == SLASH && q[1] == STAR }

  /** Well-formed patterns: every wildcard is named, a segment holds at most one wildcard, and a
      catch-all fills a whole last segment. */
  predicate WellFormed(q: bytes)
    decreases |q|
  {
    if q == [] then true
    else if q[0] == COLON then
      var n := SegmentEnd(q);
      ValidName(q[1..n]) && WellFormed(q[n..])
    else if StartsCatchAll(q) then ValidName(q[2..])
    else q[0] != STAR && WellFormed(q[1..])
  }

  /** The captures of pattern `q` on request path `p`, or None when `q` does not match `p`.
      A parameter takes a segment and needs at least one byte of path left; a catch-all takes the
      whole rest, leading '/' included. */
  function Match(q: bytes, p: bytes): Option<seq<Capture>>
    decreases |q|
  {
    if q == [] then
      if p == [] then Some([]) else None
    else if q[0] == COLON then
      if p == [] then None else
      var n, e := SegmentEnd(q), SegmentEnd(p);
      match Match(q[n..], p[e..])
      case None => None
      case Some(rest) => Some([Capture(q[1..n], p[..e])] + rest)
    else if StartsCatchAll(q) then
      if p != [] && p[0] == SLASH then Some([Capture(q[2..], p)]) else None
    else if p != [] && p[0] == q[0] then Match(q[1..], p[1..])
    else None
  }

  /** Two patterns that cannot be registered together: the same pattern twice, two parameters with
      different names at one position, or a catch-all and another route below the same '/'. */
  predicate Clash(p: bytes, q: bytes)
    decreases |p|
  {
    if p == [] || q == [] then p == q
    else if p[0] == COLON && q[0] == COLON then
      var n, m := SegmentEnd(p), SegmentEnd(q);
      p[..n] != q[..m] || Clash(p[n..], q[m..])
    else if p[0] != q[0] then false
    else StartsCatchAll(p) || StartsCatchAll(q) || Clash(p[1..], q[1..])
  }

  /** One pattern continues with a parameter where the other continues with a literal byte. */
  ghost predicate Mixed(p: bytes, q: bytes) {
    exists i :: 0 <= i < |p| && i < |q| && MixedAt(p, q, i)
  }

  /** Where the two strings part, and where one goes on behind the other, the next byte is below 128. */
  predicate AsciiFork(p: bytes, q: bytes) {
    var i := CommonPrefix(p, q);
    (i < |p| ==> p[i] < 128) && (i < |q| ==> q[i] < 128)
  }

  predicate MixedAt(p: bytes, q: bytes, i: nat)
    requires i < |p| && i < |q|
  {
    p[..i] == q[..i] && ((p[i] == COLON && !IsWild(q[i])) || (q[i] == COLON && !IsWild(p[i])))
  }
}
