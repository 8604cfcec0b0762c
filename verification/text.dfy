/** Character classes and the small string operations of Python's `str`
    that the parser relies on: `lower`, the `in` substring test, `strip`
    and `endswith`. */
module Text {

  /** An ASCII decimal digit: the model of the regex class `\d`. */
  predicate IsDigit(c: char) {
    '0' <= c <= '9'
  }

  predicate IsUpper(c: char) {
    'A' <= c <= 'Z'
  }

  predicate IsLetter(c: char) {
    'a' <= c <= 'z' || IsUpper(c)
  }

  predicate IsAlnum(c: char) {
    IsDigit(c) || IsLetter(c)
  }

  /** The characters Python's `str.isspace` accepts; the same set is used
      by `str.strip()` and by the regex class `\s`. */
  predicate IsSpace(c: char) {
    var n := c as int;
    n == 0x20 || 0x09 <= n <= 0x0D || 0x1C <= n <= 0x1F
    || n == 0x85 || n == 0xA0 || n == 0x1680 || 0x2000 <= n <= 0x200A
    || n == 0x2028 || n == 0x2029 || n == 0x202F || n == 0x205F || n == 0x3000
  }

  /** Lower-casing of one character (ASCII letters only). */
  function LowerChar(c: char): (r: char)
    ensures !IsUpper(r)
    ensures !IsUpper(c) ==> r == c
    ensures IsUpper(c) ==> r as int == c as int + 32
  {
    if IsUpper(c) then (c as int + 32) as char else c
  }

  /** `s.lower()`. */
  function Lower(s: string): (r: string)
    ensures |r| == |s|
    ensures forall k | 0 <= k < |s| :: r[k] == LowerChar(s[k])
  {
    if |s| == 0 then [] else [LowerChar(s[0])] + Lower(s[1..])
  }

  /** Lower-casing a second time changes nothing. */
  lemma LowerIdempotent(s: string)
    ensures Lower(Lower(s)) == Lower(s)
  {
  }

  /** Lower-casing commutes with taking a slice. */
  lemma LowerSlice(s: string, i: int, j: int)
    requires 0 <= i <= j <= |s|
    ensures Lower(s[i..j]) == Lower(s)[i..j]
  {
  }

  /** Lower-casing never turns a space into a non-space or back. */
  lemma LowerKeepsSpace(c: char)
    ensures IsSpace(LowerChar(c)) <==> IsSpace(c)
  {
  }

  /** `t` occurs in `s` starting at index `i`. */
  predicate OccursAt(s: string, t: string, i: nat) {
    i + |t| <= |s| && s[i..i + |t|] == t
  }

  /** Python's `t in s` for strings: `t` occurs as a contiguous substring. */
  predicate Contains(s: string, t: string) {
    exists i: nat | i <= |s| :: OccursAt(s, t, i)
  }

  /** A slice of a slice is a slice of the original. */
  lemma SliceOfSlice(s: string, i: nat, j: nat, a: nat, b: nat)
    requires i <= j <= |s| && a <= b <= j - i
    ensures s[i..j][a..b] == s[i + a..i + b]
  {
    var u, v := s[i..j][a..b], s[i + a..i + b];
    forall k | 0 <= k < b - a
      ensures u[k] == v[k]
    {
    }
  }

  /** A substring of a substring is a substring. */
  lemma ContainsTransitive(s: string, u: string, t: string)
    requires Contains(s, u) && Contains(u, t)
    ensures Contains(s, t)
  {
    var i: nat :| i <= |s| && OccursAt(s, u, i);
    var j: nat :| j <= |u| && OccursAt(u, t, j);
    SliceOfSlice(s, i, i + |u|, j, j + |t|);
    assert OccursAt(s, t, i + j);
  }

  /** `s.endswith(suffix)`. */
  predicate EndsWith(s: string, suffix: string) {
    |suffix| <= |s| && s[|s| - |suffix|..] == suffix
  }

  /** The end of the longest run of characters satisfying `p` that starts
      at `k`: the greedy repetition `[...]*` of a regex. */
  function RunEnd(s: string, k: nat, p: char -> bool): (r: nat)
    requires k <= |s|
    ensures k <= r <= |s|
    ensures forall m | k <= m < r :: p(s[m])
    ensures r == |s| || !p(s[r])
    decreases |s| - k
  {
    if k < |s| && p(s[k]) then RunEnd(s, k + 1, p) else k
  }

  /** A run end is determined by the run: any `m` whose prefix from `k`
      satisfies `p` and that is followed by a non-`p` character (or the end)
      is the run end. */
  lemma RunEndUnique(s: string, k: nat, p: char -> bool, m: nat)
    requires k <= m <= |s|
    requires forall n | k <= n < m :: p(s[n])
    requires m == |s| || !p(s[m])
    ensures RunEnd(s, k, p) == m
  {
  }

  /** The start of the trailing run of spaces inside `s[lo..hi]`. */
  function TrailingSpaceStart(s: string, lo: nat, hi: nat): (r: nat)
    requires lo <= hi <= |s|
    ensures lo <= r <= hi
    ensures forall m | r <= m < hi :: IsSpace(s[m])
    ensures r == lo || !IsSpace(s[r - 1])
    decreases hi
  {
    if lo < hi && IsSpace(s[hi - 1]) then TrailingSpaceStart(s, lo, hi - 1) else hi
  }

  /** The bounds of `s.strip()`: leading spaces are dropped first, then
      trailing ones. Everything outside the span is a space and, when the
      span is not empty, it starts and ends with a non-space. */
  function StripSpan(s: string): (span: (nat, nat))
    ensures span.0 <= span.1 <= |s|
    ensures forall k | 0 <= k < span.0 :: IsSpace(s[k])
    ensures forall k | span.1 <= k < |s| :: IsSpace(s[k])
    ensures span.0 < span.1 ==> !IsSpace(s[span.0]) && !IsSpace(s[span.1 - 1])
  {
    var i := RunEnd(s, 0, IsSpace);
    (i, TrailingSpaceStart(s, i, |s|))
  }

  /** `s.strip()`. */
  function Strip(s: string): string {
    s[StripSpan(s).0..StripSpan(s).1]
  }

  /** Python's `not s.strip()`: nothing but whitespace is left. */
  predicate IsBlank(s: string) {
    Strip(s) == []
  }

  /** A string is blank exactly when every character is a space. */
  lemma BlankIffAllSpace(s: string)
    ensures IsBlank(s) <==> forall k | 0 <= k < |s| :: IsSpace(s[k])
  {
    var span := StripSpan(s);
    if !IsBlank(s) {
      assert !IsSpace(s[span.0]);
    }
  }

  /** The stripped string has no surrounding whitespace and is what
      remains after removing whitespace from both ends. */
  lemma StripShape(s: string)
    ensures var r := Strip(s);
      && (|r| > 0 ==> !IsSpace(r[0]) && !IsSpace(r[|r| - 1]))
      && Contains(s, r)
  {
    var span := StripSpan(s);
    assert OccursAt(s, Strip(s), span.0);
  }
}
