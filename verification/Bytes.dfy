/** Byte strings, the way the Go source indexes and slices its `string` values. */
module Bytes {
  type byte = b: int | 0 <= b < 256
  type bytes = seq<byte>

  const SLASH: byte := 47
  const COLON: byte := 58
  const STAR: byte := 42

  /** A byte that starts a wildcard segment. */
  predicate IsWild(b: byte) { b == COLON || b == STAR }

  /** No byte of `s` starts a wildcard. */
  predicate Literal(s: bytes) { forall i :: 0 <= i < |s| ==> !IsWild(s[i]) }

  predicate Ascii(s: bytes) { forall i :: 0 <= i < |s| ==> s[i] < 128 }

  /** The number of bytes before the first '/', or all of them. */
  function SegmentEnd(s: bytes): (n: nat)
    ensures n <= |s|
    ensures forall k :: 0 <= k < n ==> s[k] != SLASH
    ensures n < |s| ==> s[n] == SLASH
  {
    if s == [] || s[0] == SLASH then 0 else 1 + SegmentEnd(s[1..])
  }

  /** `SegmentEnd` is the only index with the properties it promises. */
  lemma {:induction false} SegmentEndUnique(s: bytes, n: nat)
    requires n <= |s|
    requires forall k :: 0 <= k < n ==> s[k] != SLASH
    requires n < |s| ==> s[n] == SLASH
    ensures SegmentEnd(s) == n
  {
    if n > 0 { SegmentEndUnique(s[1..], n - 1); }
  }

  /** The length of the longest common prefix. */
  function CommonPrefix(a: bytes, b: bytes): (n: nat)
    ensures n <= |a| && n <= |b|
    ensures a[..n] == b[..n]
    ensures n < |a| && n < |b| ==> a[n] != b[n]
  {
    if a != [] && b != [] && a[0] == b[0] then
      var n := 1 + CommonPrefix(a[1..], b[1..]);
      assert a[..n] == [a[0]] + a[1..][..n - 1];
      assert b[..n] == [b[0]] + b[1..][..n - 1];
      n
    else 0
  }

  /** `CommonPrefix` is the only index with the properties it promises. */
  lemma {:induction false} CommonPrefixUnique(a: bytes, b: bytes, n: nat)
    requires n <= |a| && n <= |b| && a[..n] == b[..n]
    requires n < |a| && n < |b| ==> a[n] != b[n]
    ensures CommonPrefix(a, b) == n
  {
    if n > 0 {
      assert a[0] == a[..n][0] && b[0] == b[..n][0];
      assert a[1..][..n - 1] == a[..n][1..] && b[1..][..n - 1] == b[..n][1..];
      CommonPrefixUnique(a[1..], b[1..], n - 1);
    }
  }

  /** The Go conversion `string(b)` of a byte: the UTF-8 encoding of the code point `b`. */
  function RuneString(b: byte): (s: bytes)
    ensures b < 128 ==> s == [b]
    ensures b >= 128 ==> |s| == 2 && s[0] >= 192 && 128 <= s[1] < 192
  {
    if b < 128 then [b] else [192 + b / 64, 128 + b % 64]
  }
}
