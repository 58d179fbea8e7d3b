/** Text helpers shared by the native and the JavaScript path handling. */
module Strings {
  import opened Wrappers

  /** `std::string::find` / `indexOf`: the first position of `c`, if any. */
  function IndexOf(s: string, c: char): (r: Option<nat>)
    ensures r.None? <==> c !in s
    ensures r.Some? ==> r.value < |s| && s[r.value] == c && c !in s[..r.value]
  {
    if s == [] then None
    else if s[0] == c then Some(0)
    else
      match IndexOf(s[1..], c)
      case None => None
      case Some(i) =>
        assert s[..i + 1] == [s[0]] + s[1..][..i];
        Some(i + 1)
  }

  /** `s.split(c)`: the pieces between the occurrences of `c`; there is always at least one. */
  function Split(s: string, c: char): (parts: seq<string>)
    ensures |parts| >= 1
    ensures forall i :: 0 <= i < |parts| ==> c !in parts[i]
    decreases |s|
  {
    match IndexOf(s, c)
    case None => [s]
    case Some(p) => [s[..p]] + Split(s[p + 1..], c)
  }

  /** `parts.join(c)`. */
  function Join(parts: seq<string>, c: char): string
    requires |parts| >= 1
  {
    if |parts| == 1 then parts[0] else parts[0] + [c] + Join(parts[1..], c)
  }

  /** Splitting and joining again gives back the text. */
  lemma {:induction false} JoinSplit(s: string, c: char)
    ensures Join(Split(s, c), c) == s
    decreases |s|
  {
    match IndexOf(s, c)
    case None =>
    case Some(p) =>
      var parts := Split(s, c);
      assert parts == [s[..p]] + Split(s[p + 1..], c);
      assert parts[1..] == Split(s[p + 1..], c);
      JoinSplit(s[p + 1..], c);
      assert Join(parts, c) == s[..p] + [c] + s[p + 1..];
      assert s == s[..p] + [c] + s[p + 1..];
  }

  /** Joining pieces without `c` and splitting again gives back the pieces. */
  lemma {:induction false} SplitJoin(parts: seq<string>, c: char)
    requires |parts| >= 1
    requires forall i :: 0 <= i < |parts| ==> c !in parts[i]
    ensures Split(Join(parts, c), c) == parts
    decreases |parts|
  {
    var s := Join(parts, c);
    if |parts| == 1 {
      assert IndexOf(s, c).None?;
    } else {
      var rest := Join(parts[1..], c);
      assert s == parts[0] + [c] + rest;
      var p := |parts[0]|;
      assert s[p] == c && s[..p] == parts[0];
      assert c !in s[..p];
      assert IndexOf(s, c) == Some(p);
      assert s[p + 1..] == rest;
      SplitJoin(parts[1..], c);
    }
  }
}
