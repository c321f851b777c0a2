/**
 * The character classes the renderer's regular expressions rely on, as
 * ECMAScript defines them for patterns without the `u` or `s` flag:
 * `\s` (WhiteSpace and LineTerminator), `.` (anything but a line
 * terminator), and `String.prototype.trim`, which strips the same set as `\s`.
 */
module Chars {

  /** The ECMAScript LineTerminator code points: LF, CR, LINE SEPARATOR, PARAGRAPH SEPARATOR. */
  predicate IsLineTerminator(c: char) {
    c == '\n' || c == '\r' || c == '\U{2028}' || c == '\U{2029}'
  }

  /** The class `\s`: ECMAScript WhiteSpace (TAB, VT, FF, ZWNBSP and the Zs category) plus LineTerminator. */
  predicate IsSpace(c: char) {
    || c == '\t' || c == '\U{B}' || c == '\U{C}' || c == ' ' || c == '\U{A0}'
    || c == '\U{1680}' || ('\U{2000}' <= c <= '\U{200A}') || c == '\U{202F}'
    || c == '\U{205F}' || c == '\U{3000}' || c == '\U{FEFF}'
    || IsLineTerminator(c)
  }

  /** The atom `.`: any character except a line terminator. */
  predicate MatchesDot(c: char) {
    !IsLineTerminator(c)
  }

  /** Every character of `s` is in `\s`. */
  predicate AllSpace(s: string) {
    forall k :: 0 <= k < |s| ==> IsSpace(s[k])
  }

  /** `s[a..b]` is a run of `\s` characters. */
  predicate SpaceRun(s: string, a: nat, b: nat) {
    a <= b <= |s| && forall k :: a <= k < b ==> IsSpace(s[k])
  }

  /** `s[a..b]` can be consumed by `.*`. */
  predicate DotRun(s: string, a: nat, b: nat) {
    a <= b <= |s| && forall k :: a <= k < b ==> MatchesDot(s[k])
  }

  /** Where a greedy `\s*` that starts at `a` stops: the end of the longest run of `\s` from `a`. */
  function SpaceRunEnd(s: string, a: nat): (n: nat)
    requires a <= |s|
    decreases |s| - a
    ensures SpaceRun(s, a, n)
    ensures n == |s| || !IsSpace(s[n])
  {
    if a < |s| && IsSpace(s[a]) then SpaceRunEnd(s, a + 1) else a
  }

  /** The start of the longest run of `\s` that ends at `b` and does not reach below `lo`. */
  function SpaceRunStart(s: string, lo: nat, b: nat): (n: nat)
    requires lo <= b <= |s|
    decreases b
    ensures lo <= n && SpaceRun(s, n, b)
    ensures n == lo || !IsSpace(s[n - 1])
  {
    if lo < b && IsSpace(s[b - 1]) then SpaceRunStart(s, lo, b - 1) else b
  }

  /** `String.prototype.trim`: drop the leading and the trailing `\s` characters. The length bound follows from the slice clause and is stated for callers' convenience. */
  function Trim(s: string): (t: string)
    ensures |t| <= |s|
    ensures t == [] || (!IsSpace(t[0]) && !IsSpace(t[|t| - 1]))
    ensures exists a: nat, b: nat :: a <= b <= |s| && t == s[a..b] && SpaceRun(s, 0, a) && SpaceRun(s, b, |s|)
  {
    var a := SpaceRunEnd(s, 0);
    s[a..SpaceRunStart(s, a, |s|)]
  }

  /** `line.trim() === ''` holds exactly for the lines made only of `\s` characters. */
  lemma TrimEmptyIff(s: string)
    ensures Trim(s) == [] <==> AllSpace(s)
  {
    var a := SpaceRunEnd(s, 0);
    var b := SpaceRunStart(s, a, |s|);
    if Trim(s) == [] {
      assert b == a;
      assert a == |s|;
    }
  }
}
