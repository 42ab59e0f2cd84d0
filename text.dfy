/**
 * The JavaScript string operations the query engine relies on: `trim`, `split` with a string separator,
 * `includes`, `startsWith`, `toLowerCase`, and the ASCII case folding of a regular expression with the `i` flag.
 * Strings are sequences of characters; none of the engine's literals leaves the Basic Multilingual Plane.
 */
module Text {
  import opened Wrappers

  /** The characters ECMAScript calls WhiteSpace or LineTerminator: what `trim()` removes and `\s` matches. */
  predicate IsWhitespace(c: char) {
    var n := c as int;
    n == 0x09 || n == 0x0A || n == 0x0B || n == 0x0C || n == 0x0D || n == 0x20 || n == 0xA0 || n == 0x1680
    || (0x2000 <= n <= 0x200A) || n == 0x2028 || n == 0x2029 || n == 0x202F || n == 0x205F || n == 0x3000
    || n == 0xFEFF
  }

  /**
   * The canonical form a case-insensitive, non-Unicode JavaScript regular expression compares characters by.
   * Only ASCII letters fold here: a non-ASCII character whose upper case is ASCII keeps its own code.
   */
  function AsciiUpper(c: char): (u: char)
    ensures u == c || ('a' <= c <= 'z' && 'A' <= u <= 'Z')
  {
    if 'a' <= c <= 'z' then (c as int - 32) as char else c
  }

  /** Equality up to ASCII case, as a regular expression with the `i` flag matches literal text. */
  predicate EqualsIgnoreCase(a: string, b: string)
    decreases |a|
  {
    |a| == |b| && (a == [] || (AsciiUpper(a[0]) == AsciiUpper(b[0]) && EqualsIgnoreCase(a[1..], b[1..])))
  }

  /** `toLowerCase` on one character, for every character that lowercases to an ASCII one. */
  function LowerChar(c: char): (l: char)
    ensures 'A' <= c <= 'Z' ==> 'a' <= l <= 'z'
  {
    if 'A' <= c <= 'Z' then (c as int + 32) as char
    else if c as int == 0x212A then 'k'  // KELVIN SIGN
    else c
  }

  function ToLower(s: string): (r: string)
    ensures |r| == |s| && forall i :: 0 <= i < |s| ==> r[i] == LowerChar(s[i])
  {
    if s == [] then [] else [LowerChar(s[0])] + ToLower(s[1..])
  }

  /** Leading characters removed by `trim`. */
  function TrimStart(s: string): (r: string)
    ensures |r| <= |s| && r == s[|s| - |r|..]
    ensures forall i :: 0 <= i < |s| - |r| ==> IsWhitespace(s[i])
    ensures r == [] || !IsWhitespace(r[0])
  {
    if s != [] && IsWhitespace(s[0]) then TrimStart(s[1..]) else s
  }

  /** Trailing characters removed by `trim`. */
  function TrimEnd(s: string): (r: string)
    ensures |r| <= |s| && r == s[..|r|]
    ensures forall i :: |r| <= i < |s| ==> IsWhitespace(s[i])
    ensures r == [] || !IsWhitespace(r[|r| - 1])
  {
    if s != [] && IsWhitespace(s[|s| - 1]) then TrimEnd(s[..|s| - 1]) else s
  }

  /** `String.prototype.trim`: `s` with its whitespace removed at both ends, and nothing else. */
  function Trim(s: string): (r: string)
    ensures |r| <= |s|
    ensures r == [] || (!IsWhitespace(r[0]) && !IsWhitespace(r[|r| - 1]))
  {
    TrimEnd(TrimStart(s))
  }

  /** The trim is the slice of `s` left between a whitespace prefix and a whitespace suffix. */
  lemma TrimIsSlice(s: string)
    ensures |s| - |TrimStart(s)| + |Trim(s)| <= |s|
    ensures Trim(s) == s[|s| - |TrimStart(s)|..|s| - |TrimStart(s)| + |Trim(s)|]
    ensures forall i :: 0 <= i < |s| - |TrimStart(s)| ==> IsWhitespace(s[i])
    ensures forall i :: |s| - |TrimStart(s)| + |Trim(s)| <= i < |s| ==> IsWhitespace(s[i])
  {
    var t := TrimStart(s);
    var r := TrimEnd(t);
    var k := |s| - |t|;
    assert t == s[k..];
    assert r == t[..|r|];
    forall i | k + |r| <= i < |s| ensures IsWhitespace(s[i]) {
      assert s[i] == t[i - k];
    }
  }

  /** A string with no whitespace at either end is its own trim. */
  lemma {:induction false} TrimTrimmed(s: string)
    requires s == [] || (!IsWhitespace(s[0]) && !IsWhitespace(s[|s| - 1]))
    ensures Trim(s) == s
  {
  }

  predicate StartsWith(s: string, p: string) {
    |p| <= |s| && s[..|p|] == p
  }

  predicate OccursAt(s: string, p: string, i: int) {
    0 <= i && i + |p| <= |s| && s[i..i + |p|] == p
  }

  /** `String.prototype.includes`. */
  predicate Contains(s: string, p: string) {
    exists i | 0 <= i <= |s| - |p| :: OccursAt(s, p, i)
  }

  lemma OccursShift(s: string, p: string, k: int)
    requires s != [] && 0 <= k
    ensures OccursAt(s[1..], p, k) <==> OccursAt(s, p, k + 1)
  {
    if 0 <= k && k + |p| <= |s| - 1 {
      assert s[1..][k..k + |p|] == s[k + 1..k + 1 + |p|];
    }
  }

  /** `String.prototype.indexOf` for a non-empty pattern: the first position it occurs at. */
  function IndexOf(s: string, p: string): (r: Option<nat>)
    requires |p| > 0
    ensures r.Some? ==> OccursAt(s, p, r.value) && forall j :: 0 <= j < r.value ==> !OccursAt(s, p, j)
    ensures r.None? <==> !Contains(s, p)
    decreases |s|
  {
    if |s| < |p| then None
    else if s[..|p|] == p then Some(0)
    else
      var rest := IndexOf(s[1..], p);
      assert forall k :: 0 <= k ==> (OccursAt(s[1..], p, k) <==> OccursAt(s, p, k + 1)) by {
        forall k | 0 <= k ensures OccursAt(s[1..], p, k) <==> OccursAt(s, p, k + 1) { OccursShift(s, p, k); }
      }
      assert !OccursAt(s, p, 0);
      assert forall i :: OccursAt(s, p, i) ==> OccursAt(s[1..], p, i - 1);
      match rest
      case None => None
      case Some(k) => Some(k + 1)
  }

  /** `String.prototype.split` with a non-empty string separator. */
  function Split(s: string, sep: string): (parts: seq<string>)
    requires |sep| > 0
    ensures |parts| >= 1
    ensures |parts| >= 2 <==> Contains(s, sep)
    ensures forall k :: 0 <= k < |parts| ==> !Contains(parts[k], sep)
    decreases |s|
  {
    match IndexOf(s, sep)
    case None => [s]
    case Some(i) =>
      var head := s[..i];
      assert !Contains(head, sep) by {
        forall j | OccursAt(head, sep, j) ensures false {
          assert j < i;
          assert s[j..j + |sep|] == head[j..j + |sep|];
          assert OccursAt(s, sep, j);
        }
      }
      [head] + Split(s[i + |sep|..], sep)
  }

  /** `Array.prototype.join`: the parts with the separator between consecutive ones. */
  function Join(parts: seq<string>, sep: string): string {
    if |parts| == 0 then ""
    else if |parts| == 1 then parts[0]
    else parts[0] + sep + Join(parts[1..], sep)
  }

  /** Splitting loses nothing: joining the parts with the separator gives the string back. */
  lemma {:induction false} JoinSplit(s: string, sep: string)
    requires |sep| > 0
    ensures Join(Split(s, sep), sep) == s
    decreases |s|
  {
    match IndexOf(s, sep)
    case None =>
    case Some(i) =>
      var rest := s[i + |sep|..];
      JoinSplit(rest, sep);
      assert s == s[..i] + sep + rest;
  }
}
