/** Method names in the order of `slices.Sort`. */
module Methods {
  /** The order of Go strings. */
  predicate Less(a: string, b: string)
    decreases |a|
  {
    b != "" && (a == "" || a[0] < b[0] || (a[0] == b[0] && Less(a[1..], b[1..])))
  }

  lemma {:induction false} LessIsTotal(a: string, b: string)
    ensures Less(a, b) || a == b || Less(b, a)
    ensures !(Less(a, b) && Less(b, a)) && !Less(a, a)
    decreases |a|
  {
    if a != "" && b != "" {
      LessIsTotal(a[1..], b[1..]);
      LessIsTotal(a[1..], a[1..]);
      assert a == [a[0]] + a[1..] && b == [b[0]] + b[1..];
    } else if a != "" {
      LessIsTotal(a[1..], a[1..]);
    }
  }

  lemma {:induction false} LessIsTransitive(a: string, b: string, c: string)
    requires Less(a, b) && Less(b, c)
    ensures Less(a, c)
    decreases |a|
  {
    if a != "" && a[0] == b[0] == c[0] { LessIsTransitive(a[1..], b[1..], c[1..]); }
  }

  /** Strictly sorted. */
  predicate Ascending(s: seq<string>) { forall i, j :: 0 <= i < j < |s| ==> Less(s[i], s[j]) }

  predicate NoRepeats(s: seq<string>) { forall i, j :: 0 <= i < j < |s| ==> s[i] != s[j] }

  /** Adds a new name in its place. */
  function Insert(x: string, s: seq<string>): (r: seq<string>)
    requires Ascending(s) && x !in s
    ensures Ascending(r) && forall y :: y in r <==> y == x || y in s
  {
    if s == [] then [x]
    else if Less(x, s[0]) then
      assert forall k :: 0 <= k < |s| ==> Less(x, s[k]) by {
        forall k | 0 < k < |s|
          ensures Less(x, s[k])
        {
          LessIsTransitive(x, s[0], s[k]);
        }
      }
      [x] + s
    else
      LessIsTotal(x, s[0]);
      var rest := Insert(x, s[1..]);
      assert forall k :: 0 <= k < |rest| ==> Less(s[0], rest[k]) by {
        forall k | 0 <= k < |rest|
          ensures Less(s[0], rest[k])
        {
          assert rest[k] in rest;
        }
      }
      [s[0]] + rest
  }

  function Sort(s: seq<string>): (r: seq<string>)
    requires NoRepeats(s)
    ensures Ascending(r) && forall x :: x in r <==> x in s
  {
    if s == [] then [] else
    assert s[0] !in s[1..];
    Insert(s[0], Sort(s[1..]))
  }

  /** Only one strictly sorted list has given elements. */
  lemma {:induction false} AscendingIsUnique(a: seq<string>, b: seq<string>)
    requires Ascending(a) && Ascending(b) && forall x :: x in a <==> x in b
    ensures a == b
    decreases |a|
  {
    if a == [] {
      if b != [] { SomeElement(b); }
    } else {
      assert a[0] in b;
      FirstIsLeast(a, b[0]);
      FirstIsLeast(b, a[0]);
      LessIsTotal(a[0], b[0]);
      forall x
        ensures x in a[1..] <==> x in b[1..]
      {
        TailElements(a, x);
        TailElements(b, x);
      }
      AscendingIsUnique(a[1..], b[1..]);
      assert a == [a[0]] + a[1..] && b == [b[0]] + b[1..];
    }
  }

  lemma SomeElement(s: seq<string>)
    requires s != []
    ensures exists x :: x in s
  {
    assert s[0] in s;
  }

  lemma FirstIsLeast(a: seq<string>, x: string)
    requires Ascending(a) && x in a
    ensures x == a[0] || Less(a[0], x)
  {}

  lemma TailElements(a: seq<string>, x: string)
    requires Ascending(a) && a != []
    ensures x in a[1..] <==> x in a && x != a[0]
  {
    LessIsTotal(a[0], a[0]);
    if x in a && x != a[0] {
      var k :| 0 <= k < |a| && a[k] == x;
      assert a[1..][k - 1] == x;
    }
  }
}
