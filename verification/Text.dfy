/** `strings.Split` on a one-character separator, and its inverse. */
module Text {
  /** The parts of `s` between the separators; never empty. */
  function Split(s: string, sep: char): (parts: seq<string>)
    ensures |parts| > 0
    ensures forall k :: 0 <= k < |parts| ==> sep !in parts[k]
    ensures Join(parts, sep) == s
  {
    if s == "" then [""]
    else
      var rest := Split(s[1..], sep);
      if s[0] == sep then [""] + rest else [[s[0]] + rest[0]] + rest[1..]
  }

  function Join(parts: seq<string>, sep: char): string {
    if parts == [] then ""
    else if |parts| == 1 then parts[0]
    else parts[0] + [sep] + Join(parts[1..], sep)
  }

  /** Only the parts themselves split back into them. */
  lemma {:induction false} SplitUnique(parts: seq<string>, sep: char)
    requires |parts| > 0 && forall k :: 0 <= k < |parts| ==> sep !in parts[k]
    ensures Split(Join(parts, sep), sep) == parts
    decreases |Join(parts, sep)|
  {
    var s := Join(parts, sep);
    var tail := parts[1..];
    if parts[0] == "" {
      if |parts| > 1 {
        assert s[1..] == Join(tail, sep);
        SplitUnique(tail, sep);
      }
    } else {
      var shorter := [parts[0][1..]] + tail;
      assert shorter[1..] == tail;
      assert s == [parts[0][0]] + Join(shorter, sep);
      assert s[1..] == Join(shorter, sep);
      SplitUnique(shorter, sep);
      assert parts[0][0] in parts[0];
      assert [s[0]] + shorter[0] == parts[0];
      assert [parts[0]] + tail == parts;
    }
  }
}
