/** The phone extractor: the first match of the regular expression
    `\+?\d[\d\s\-()]{8,}\d`, modelled as a shape predicate on substrings and
    a leftmost, greedy search. */
module Phone {
  import opened Wrappers
  import opened Text

  /** The bracketed class `[\d\s\-()]`. */
  predicate IsPhoneFill(c: char) {
    IsDigit(c) || IsSpace(c) || c == '-' || c == '(' || c == ')'
  }

  /** `\d[\d\s\-()]{8,}\d`: a digit, eight or more filler characters and a
      closing digit, so at least ten characters. */
  predicate IsPhoneBody(w: string) {
    && |w| >= 10
    && IsDigit(w[0])
    && IsDigit(w[|w| - 1])
    && forall k | 1 <= k < |w| - 1 :: IsPhoneFill(w[k])
  }

  /** The whole pattern, with its optional leading `+`. */
  predicate IsPhone(w: string) {
    IsPhoneBody(w) || (|w| > 0 && w[0] == '+' && IsPhoneBody(w[1..]))
  }

  /** No match of the pattern starts at a position in `[lo, hi)`. */
  ghost predicate NoPhoneStartingIn(s: string, lo: nat, hi: nat) {
    forall i, j | lo <= i < hi && i <= j <= |s| :: !IsPhone(s[i..j])
  }

  /** `s[i..j]` is what a leftmost, greedy regex search returns: a match,
      no match starts further left, and no longer match starts at `i`. */
  ghost predicate LeftmostLongestPhone(s: string, i: nat, j: nat) {
    && i <= j <= |s|
    && IsPhone(s[i..j])
    && NoPhoneStartingIn(s, 0, i)
    && forall j' | j < j' <= |s| :: !IsPhone(s[i..j'])
  }

  /** Where the digits start in a candidate beginning at `i`: after the
      optional `+`. */
  function BodyStart(s: string, i: nat): nat
    requires i < |s|
  {
    if s[i] == '+' then i + 1 else i
  }

  /** The greatest `e` in `[lo, hi]` with a digit at `e - 1`: the backing-off
      of the greedy filler until the closing `\d` matches. */
  function LastDigitEnd(s: string, lo: nat, hi: nat): (r: Option<nat>)
    requires 1 <= lo && hi <= |s|
    ensures r.Some? ==> lo <= r.value <= hi && IsDigit(s[r.value - 1])
    ensures r.Some? ==> forall k | r.value <= k < hi :: !IsDigit(s[k])
    ensures r.None? ==> forall k | lo - 1 <= k < hi :: !IsDigit(s[k])
    decreases hi
  {
    if hi < lo then None
    else if IsDigit(s[hi - 1]) then Some(hi)
    else LastDigitEnd(s, lo, hi - 1)
  }

  /** The digit-and-filler part `s[b..j]` matches exactly when it starts
      with a digit, ends with a digit at least ten characters on, and stays
      within the run of filler characters after its first digit. */
  lemma BodyIff(s: string, b: nat, j: nat)
    requires b < j <= |s|
    ensures IsPhoneBody(s[b..j]) <==>
      IsDigit(s[b]) && b + 10 <= j <= RunEnd(s, b + 1, IsPhoneFill) && IsDigit(s[j - 1])
  {
    var w := s[b..j];
    var q := RunEnd(s, b + 1, IsPhoneFill);
    if IsPhoneBody(w) {
      assert forall m | b + 1 <= m < j :: IsPhoneFill(s[m]) by {
        forall m | b + 1 <= m < j
          ensures IsPhoneFill(s[m])
        {
          assert s[m] == w[m - b];
        }
      }
    }
    if IsDigit(s[b]) && b + 10 <= j <= q && IsDigit(s[j - 1]) {
      forall k | 1 <= k < |w| - 1
        ensures IsPhoneFill(w[k])
      {
        assert w[k] == s[b + k];
      }
    }
  }

  /** A match starting at `i` is a body starting at `BodyStart(s, i)`. */
  lemma PhoneIffBody(s: string, i: nat, j: nat)
    requires i < |s| && i <= j <= |s|
    ensures IsPhone(s[i..j]) <==> BodyStart(s, i) < j && IsPhoneBody(s[BodyStart(s, i)..j])
  {
    if IsPhone(s[i..j]) && s[i] == '+' {
      assert s[i..j][1..] == s[i + 1..j];
    }
    if BodyStart(s, i) < j && IsPhoneBody(s[BodyStart(s, i)..j]) && s[i] == '+' {
      assert s[i..j][1..] == s[i + 1..j];
    }
  }

  /** The end of the greedy match starting at `i`, if there is one. */
  function MatchEnd(s: string, i: nat): (r: Option<nat>)
    requires i < |s|
    ensures r.Some? ==> i < r.value <= |s| && IsPhone(s[i..r.value])
    ensures r.Some? ==> forall j | r.value < j <= |s| :: !IsPhone(s[i..j])
    ensures r.None? ==> forall j | i <= j <= |s| :: !IsPhone(s[i..j])
  {
    var b := BodyStart(s, i);
    if b < |s| && IsDigit(s[b]) then
      var found := LastDigitEnd(s, b + 10, RunEnd(s, b + 1, IsPhoneFill));
      MatchEndCorrect(s, i, found);
      found
    else
      MatchEndCorrect(s, i, None);
      None
  }

  /** The outcome of the search at one position agrees with the shape
      predicate. */
  lemma MatchEndCorrect(s: string, i: nat, found: Option<nat>)
    requires i < |s|
    requires var b := BodyStart(s, i);
      if b < |s| && IsDigit(s[b]) then found == LastDigitEnd(s, b + 10, RunEnd(s, b + 1, IsPhoneFill))
      else found == None
    ensures found.Some? ==> i < found.value <= |s| && IsPhone(s[i..found.value])
    ensures found.Some? ==> forall j | found.value < j <= |s| :: !IsPhone(s[i..j])
    ensures found.None? ==> forall j | i <= j <= |s| :: !IsPhone(s[i..j])
  {
    var b := BodyStart(s, i);
    forall j | i <= j <= |s|
      ensures IsPhone(s[i..j]) <==>
        b < j && IsDigit(s[b]) && b + 10 <= j <= RunEnd(s, b + 1, IsPhoneFill) && IsDigit(s[j - 1])
    {
      PhoneIffBody(s, i, j);
      if b < j {
        BodyIff(s, b, j);
      }
    }
  }

  /** The leftmost, greedy search from position `p` on. */
  function SearchFrom(s: string, p: nat): (r: Option<(nat, nat)>)
    requires p <= |s|
    ensures r.None? ==> NoPhoneStartingIn(s, p, |s| + 1)
    ensures r.Some? ==> p <= r.value.0 <= r.value.1 <= |s| && IsPhone(s[r.value.0..r.value.1])
    ensures r.Some? ==> NoPhoneStartingIn(s, p, r.value.0)
    ensures r.Some? ==> forall j | r.value.1 < j <= |s| :: !IsPhone(s[r.value.0..j])
    decreases |s| - p
  {
    if p == |s| then
      assert !IsPhone(s[p..p]);
      None
    else
      match MatchEnd(s, p)
      case Some(e) => Some((p, e))
      case None => SearchFrom(s, p + 1)
  }

  /** `extract_phone`: the first match, or `None` when there is none. */
  function ExtractPhone(s: string): (r: Option<string>)
    ensures r.None? <==> NoPhoneStartingIn(s, 0, |s| + 1)
    ensures r.Some? ==> exists i: nat, j: nat :: LeftmostLongestPhone(s, i, j) && r.value == s[i..j]
  {
    match SearchFrom(s, 0)
    case Some((i, j)) =>
      assert LeftmostLongestPhone(s, i, j);
      Some(s[i..j])
    case None => None
  }

  /** At most one span is the leftmost, longest match, so the contract of
      `ExtractPhone` determines its result. */
  lemma LeftmostLongestUnique(s: string, i: nat, j: nat, i': nat, j': nat)
    requires LeftmostLongestPhone(s, i, j) && LeftmostLongestPhone(s, i', j')
    ensures i == i' && j == j'
  {
  }

  /** Every character of a match after the first is a filler character. */
  lemma PhoneCharsAreFill(w: string)
    requires IsPhone(w)
    ensures IsDigit(w[0]) || w[0] == '+'
    ensures forall k | 1 <= k < |w| :: IsPhoneFill(w[k])
  {
    if !IsPhoneBody(w) {
      var b := w[1..];
      forall k | 1 <= k < |w|
        ensures IsPhoneFill(w[k])
      {
        assert w[k] == b[k - 1];
      }
    }
  }

  /** A match starts with a digit or `+`, so none starts before the first
      of them. */
  lemma NoPhoneWithoutLead(s: string, hi: nat)
    requires hi <= |s|
    requires forall k | 0 <= k < hi :: !IsDigit(s[k]) && s[k] != '+'
    ensures NoPhoneStartingIn(s, 0, hi)
  {
    forall i, j | 0 <= i < hi && i <= j <= |s| && IsPhone(s[i..j])
      ensures false
    {
      PhoneCharsAreFill(s[i..j]);
    }
  }

  /** A match cannot run across a character outside the filler class. */
  lemma PhoneStopsAt(s: string, i: nat, m: nat)
    requires i < m < |s| && !IsPhoneFill(s[m])
    ensures forall j | m < j <= |s| :: !IsPhone(s[i..j])
  {
    forall j | m < j <= |s| && IsPhone(s[i..j])
      ensures false
    {
      assert s[i..j][m - i] == s[m];
      PhoneCharsAreFill(s[i..j]);
    }
  }
}
