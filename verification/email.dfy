/** The e-mail extractor: the first match of the regular expression
    `[a-zA-Z0-9_.+-]+@[a-zA-Z0-9-]+\.[a-zA-Z0-9-.]+`, modelled as a shape
    predicate on substrings and a leftmost, greedy search. */
module Email {
  import opened Wrappers
  import opened Text

  /** The class `[a-zA-Z0-9_.+-]` of the local part. */
  predicate IsLocalChar(c: char) {
    IsAlnum(c) || c == '_' || c == '.' || c == '+' || c == '-'
  }

  /** The class `[a-zA-Z0-9-]` of the first domain label (no dot). */
  predicate IsLabelChar(c: char) {
    IsAlnum(c) || c == '-'
  }

  /** The class `[a-zA-Z0-9-.]` of the rest of the domain. */
  predicate IsTailChar(c: char) {
    IsAlnum(c) || c == '-' || c == '.'
  }

  /** `w` is a non-empty local part, `@` at `a`, a non-empty label, `.` at
      `d`, and a non-empty tail. */
  predicate EmailSplit(w: string, a: nat, d: nat) {
    && 0 < a && a + 1 < d && d + 1 < |w|
    && w[a] == '@' && w[d] == '.'
    && (forall k | 0 <= k < a :: IsLocalChar(w[k]))
    && (forall k | a < k < d :: IsLabelChar(w[k]))
    && (forall k | d < k < |w| :: IsTailChar(w[k]))
  }

  /** `w` matches the whole pattern. */
  ghost predicate IsEmail(w: string) {
    exists a: nat, d: nat :: EmailSplit(w, a, d)
  }

  /** No match of the pattern starts at a position in `[lo, hi)`. */
  ghost predicate NoEmailStartingIn(s: string, lo: nat, hi: nat) {
    forall i, j | lo <= i < hi && i <= j <= |s| :: !IsEmail(s[i..j])
  }

  /** `s[i..j]` is what a leftmost, greedy regex search returns. */
  ghost predicate LeftmostLongestEmail(s: string, i: nat, j: nat) {
    && i <= j <= |s|
    && IsEmail(s[i..j])
    && NoEmailStartingIn(s, 0, i)
    && forall j' | j < j' <= |s| :: !IsEmail(s[i..j'])
  }

  /** The greedy match starting at `i`. Each `+` takes the longest run of its
      class; since `@` is not a local character and `.` is not a label
      character, backing off a run can never let the following literal
      match, so the first failure is final. */
  function MatchEnd(s: string, i: nat): Option<nat>
    requires i <= |s|
  {
    var a := RunEnd(s, i, IsLocalChar);
    if a == i || a == |s| || s[a] != '@' then None
    else
      var d := RunEnd(s, a + 1, IsLabelChar);
      if d == a + 1 || d == |s| || s[d] != '.' then None
      else
        var e := RunEnd(s, d + 1, IsTailChar);
        if e == d + 1 then None else Some(e)
  }

  /** A match found at `i` has the shape of an address. */
  lemma MatchEndSound(s: string, i: nat)
    requires i <= |s|
    ensures MatchEnd(s, i).Some? ==>
      i < MatchEnd(s, i).value <= |s| && IsEmail(s[i..MatchEnd(s, i).value])
  {
    if MatchEnd(s, i).Some? {
      var a := RunEnd(s, i, IsLocalChar);
      var d := RunEnd(s, a + 1, IsLabelChar);
      var e := RunEnd(s, d + 1, IsTailChar);
      var w := s[i..e];
      assert forall k | 0 <= k < |w| :: w[k] == s[i + k];
      assert EmailSplit(w, a - i, d - i);
    }
  }

  /** Every address starting at `i` is found there, and is no longer than
      the one found. */
  lemma MatchEndComplete(s: string, i: nat, j: nat)
    requires i <= j <= |s|
    requires IsEmail(s[i..j])
    ensures MatchEnd(s, i).Some? && j <= MatchEnd(s, i).value
  {
    var w := s[i..j];
    var a: nat, d: nat :| EmailSplit(w, a, d);
    assert forall k | 0 <= k < |w| :: w[k] == s[i + k];
    RunEndUnique(s, i, IsLocalChar, i + a);
    RunEndUnique(s, i + a + 1, IsLabelChar, i + d);
    assert IsTailChar(s[i + d + 1]);
  }

  /** The leftmost, greedy search from position `p` on. */
  function SearchFrom(s: string, p: nat): (r: Option<(nat, nat)>)
    requires p <= |s|
    ensures r.None? ==> NoEmailStartingIn(s, p, |s| + 1)
    ensures r.Some? ==> p <= r.value.0 <= r.value.1 <= |s| && IsEmail(s[r.value.0..r.value.1])
    ensures r.Some? ==> NoEmailStartingIn(s, p, r.value.0)
    ensures r.Some? ==> forall j | r.value.1 < j <= |s| :: !IsEmail(s[r.value.0..j])
    decreases |s| - p
  {
    MatchEndSound(s, p);
    assert forall j | p <= j <= |s| && IsEmail(s[p..j]) :: MatchEnd(s, p).Some? && j <= MatchEnd(s, p).value by {
      forall j | p <= j <= |s| && IsEmail(s[p..j])
        ensures MatchEnd(s, p).Some? && j <= MatchEnd(s, p).value
      {
        MatchEndComplete(s, p, j);
      }
    }
    if p == |s| then
      None
    else
      match MatchEnd(s, p)
      case Some(e) => Some((p, e))
      case None => SearchFrom(s, p + 1)
  }

  /** `extract_email`: the first match, or `None` when there is none. */
  function ExtractEmail(s: string): (r: Option<string>)
    ensures r.None? <==> NoEmailStartingIn(s, 0, |s| + 1)
    ensures r.Some? ==> exists i: nat, j: nat :: LeftmostLongestEmail(s, i, j) && r.value == s[i..j]
  {
    match SearchFrom(s, 0)
    case Some((i, j)) =>
      assert LeftmostLongestEmail(s, i, j);
      Some(s[i..j])
    case None => None
  }

  /** At most one span is the leftmost, longest match, so the contract of
      `ExtractEmail` determines its result. */
  lemma LeftmostLongestUnique(s: string, i: nat, j: nat, i': nat, j': nat)
    requires LeftmostLongestEmail(s, i, j) && LeftmostLongestEmail(s, i', j')
    ensures i == i' && j == j'
  {
  }

  /** A match contains exactly one `@`. */
  lemma OneAt(w: string, a: nat, d: nat)
    requires EmailSplit(w, a, d)
    ensures forall k | 0 <= k < |w| :: w[k] == '@' <==> k == a
  {
  }

  /** Every character of a match is a local-part character or `@`: the
      label and tail classes are contained in the local one. */
  lemma EmailChars(w: string)
    requires IsEmail(w)
    ensures forall k | 0 <= k < |w| :: IsLocalChar(w[k]) || w[k] == '@'
  {
    var a: nat, d: nat :| EmailSplit(w, a, d);
  }

  /** No match starts at or before a character `s[m]` that is neither a
      local-part character nor `@` when no `@` comes before it: the local
      part would have to run across it. */
  lemma NoEmailBefore(s: string, m: nat)
    requires m < |s| && !IsLocalChar(s[m]) && s[m] != '@'
    requires forall k | 0 <= k < m :: s[k] != '@'
    ensures NoEmailStartingIn(s, 0, m + 1)
  {
    forall i, j | 0 <= i < m + 1 && i <= j <= |s| && IsEmail(s[i..j])
      ensures false
    {
    }
  }

  /** A match cannot run across a character that is neither a local-part
      character nor `@`. */
  lemma EmailStopsAt(s: string, i: nat, m: nat)
    requires i <= m < |s| && !IsLocalChar(s[m]) && s[m] != '@'
    ensures forall j | m < j <= |s| :: !IsEmail(s[i..j])
  {
    forall j | m < j <= |s| && IsEmail(s[i..j])
      ensures false
    {
      assert s[i..j][m - i] == s[m];
      EmailChars(s[i..j]);
    }
  }
}
