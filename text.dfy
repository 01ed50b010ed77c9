/** String helpers shared by the popup script (app.js) and the web page
    (public/main.js): ASCII case folding, the "text after the last separator"
    that `split(sep).pop()` yields, suffix tests, one-character replacement
    (`split(a).join(b)`) and the default ordering `Array.prototype.sort`
    applies to strings. */
module Text {

  predicate IsUpperAscii(c: char) {
    'A' <= c <= 'Z'
  }

  /** `toLowerCase` on one character, restricted to the ASCII letters. */
  function LowerChar(c: char): char {
    if IsUpperAscii(c) then (c as int + 32) as char else c
  }

  function ToLower(s: string): (r: string)
    ensures |r| == |s|
    ensures forall i :: 0 <= i < |s| ==> r[i] == LowerChar(s[i])
  {
    seq(|s|, i requires 0 <= i < |s| => LowerChar(s[i]))
  }

  /** Folding case twice changes nothing more than folding it once. */
  lemma ToLowerIdempotent(s: string)
    ensures ToLower(ToLower(s)) == ToLower(s)
  {
  }

  /** Two strings that differ only in the case of ASCII letters. */
  predicate SameIgnoringCase(a: string, b: string) {
    |a| == |b| && forall i :: 0 <= i < |a| ==> LowerChar(a[i]) == LowerChar(b[i])
  }

  predicate EndsWith(s: string, suffix: string) {
    |suffix| <= |s| && s[|s| - |suffix|..] == suffix
  }

  /** The last element of `s.split(sep)`: the longest suffix of `s` free of
      `sep`, which is all of `s` when `sep` does not occur in it. */
  function AfterLast(s: string, sep: char): (r: string)
    ensures sep !in r
    ensures |r| <= |s| && r == s[|s| - |r|..]
    ensures |r| < |s| ==> s[|s| - |r| - 1] == sep
    ensures sep !in s ==> r == s
  {
    if |s| == 0 then []
    else if s[|s| - 1] == sep then []
    else AfterLast(s[..|s| - 1], sep) + [s[|s| - 1]]
  }

  /** `s.split(from).join(to)`: every `from` becomes `to`. */
  function ReplaceChar(s: string, from: char, to: char): (r: string)
    ensures |r| == |s|
    ensures forall i :: 0 <= i < |s| ==> r[i] == if s[i] == from then to else s[i]
  {
    seq(|s|, i requires 0 <= i < |s| => if s[i] == from then to else s[i])
  }

  // ---------------------------------------------------------------------------
  // Default string ordering of Array.prototype.sort (character by character,
  // a proper prefix first).

  predicate CharOrderLe(a: string, b: string)
    decreases |a|
  {
    if a == [] then true
    else if b == [] then false
    else if a[0] != b[0] then a[0] < b[0]
    else CharOrderLe(a[1..], b[1..])
  }

  lemma {:induction false} CharOrderLeTotal(a: string, b: string)
    ensures CharOrderLe(a, b) || CharOrderLe(b, a)
    decreases |a|
  {
    if a != [] && b != [] && a[0] == b[0] {
      CharOrderLeTotal(a[1..], b[1..]);
    }
  }

  predicate SortedPaths(s: seq<string>) {
    forall i :: 0 < i < |s| ==> CharOrderLe(s[i - 1], s[i])
  }

  /** Inserts `x` into an already sorted list. */
  function InsertPath(x: string, s: seq<string>): (r: seq<string>)
    requires SortedPaths(s)
    ensures SortedPaths(r)
    ensures multiset(r) == multiset(s) + multiset{x}
    ensures |r| == |s| + 1
    ensures r[0] == x || (|s| > 0 && r[0] == s[0])
  {
    if s == [] then [x]
    else if CharOrderLe(x, s[0]) then [x] + s
    else
      CharOrderLeTotal(x, s[0]);
      assert s == [s[0]] + s[1..];
      [s[0]] + InsertPath(x, s[1..])
  }

  /** `keys.sort()`: the same paths, in ascending order. */
  function SortPaths(s: seq<string>): (r: seq<string>)
    ensures SortedPaths(r)
    ensures multiset(r) == multiset(s)
  {
    if s == [] then []
    else
      assert s == [s[0]] + s[1..];
      InsertPath(s[0], SortPaths(s[1..]))
  }
}
