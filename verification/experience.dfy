/** The experience extractor: the first few lines of the text that mention
    an experience-related keyword, stripped of surrounding whitespace. The
    helpers take the keyword list as a parameter; the extractor passes the
    fixed list. */
module Experience {
  import opened Text
  import opened Lines

  /** The hard-coded keywords, in the order the source lists them. */
  const Keywords: seq<string> :=
    ["experience", "worked", "intern", "internship", "project", "employed", "role"]

  /** At most this many snippets are returned (`relevant[:5]`). */
  const MaxSnippets: nat := 5

  /** Python's `any(kw in low for kw in kws)`. */
  predicate AnyOccurs(low: string, kws: seq<string>)
    decreases |kws|
  {
    |kws| > 0 && (Contains(low, kws[0]) || AnyOccurs(low, kws[1..]))
  }

  /** `any` over a keyword list holds exactly when some keyword occurs. */
  lemma {:induction false} AnyOccursIff(low: string, kws: seq<string>)
    ensures AnyOccurs(low, kws) <==> exists kw | kw in kws :: Contains(low, kw)
    decreases |kws|
  {
    if |kws| > 0 {
      AnyOccursIff(low, kws[1..]);
      assert forall kw | kw in kws :: kw == kws[0] || kw in kws[1..];
    }
  }

  /** The line, lower-cased, contains one of `kws`. The test is made on the
      line as split, before stripping. */
  predicate Qualifies(line: string, kws: seq<string>) {
    AnyOccurs(Lower(line), kws)
  }

  /** The line qualifies for the fixed keyword list. */
  predicate MentionsKeyword(line: string) {
    Qualifies(line, Keywords)
  }

  /** The list comprehension: every qualifying line, stripped, in order. */
  function Relevant(lines: seq<string>, kws: seq<string>): seq<string>
    decreases |lines|
  {
    if |lines| == 0 then []
    else if Qualifies(lines[0], kws) then [Strip(lines[0])] + Relevant(lines[1..], kws)
    else Relevant(lines[1..], kws)
  }

  /** `extract_experience`: the first five relevant lines. */
  function ExtractExperience(text: string): (snippets: seq<string>)
    ensures |snippets| <= MaxSnippets
  {
    var relevant := Relevant(Split(text), Keywords);
    if |relevant| <= MaxSnippets then relevant else relevant[..MaxSnippets]
  }

  /** `snippets` are the stripped forms of the lines at the strictly
      increasing positions `idx`, each of which qualifies. */
  ghost predicate Chosen(lines: seq<string>, kws: seq<string>, snippets: seq<string>, idx: seq<nat>) {
    && |idx| == |snippets|
    && (forall m | 0 <= m < |idx| :: Picked(lines, kws, idx[m], snippets[m]))
    && (forall m, n | 0 <= m < n < |idx| :: idx[m] < idx[n])
  }

  /** `snippets` come from the first `min(5, k)` of the `k` lines that
      mention a keyword: such a line is left out only when five lines before
      it were already chosen. */
  ghost predicate FirstQualifying(lines: seq<string>, snippets: seq<string>, idx: seq<nat>) {
    && Chosen(lines, Keywords, snippets, idx)
    && |idx| <= MaxSnippets
    && (forall i | 0 <= i < |lines| && MentionsKeyword(lines[i]) && i !in idx ::
          |idx| == MaxSnippets && idx[MaxSnippets - 1] < i)
  }

  /** Line `i` qualifies and `snippet` is its stripped form. */
  ghost predicate Picked(lines: seq<string>, kws: seq<string>, i: nat, snippet: string) {
    i < |lines| && Qualifies(lines[i], kws) && snippet == Strip(lines[i])
  }

  /** Shifting the chosen positions of `lines[1..]` by one gives positions
      in `lines` that choose the same snippets. */
  lemma ShiftChosen(lines: seq<string>, kws: seq<string>, snippets: seq<string>, rest: seq<nat>)
    returns (shifted: seq<nat>)
    requires |lines| > 0
    requires Chosen(lines[1..], kws, snippets, rest)
    ensures Chosen(lines, kws, snippets, shifted)
    ensures forall i | 0 < i < |lines| && i - 1 in rest :: i in shifted
    ensures forall m | 0 <= m < |shifted| :: shifted[m] > 0
  {
    var tail := lines[1..];
    shifted := seq(|rest|, m requires 0 <= m < |rest| => rest[m] + 1);
    forall m | 0 <= m < |rest|
      ensures lines[shifted[m]] == tail[rest[m]]
    {
    }
    forall i | 0 < i < |lines| && i - 1 in rest
      ensures i in shifted
    {
      var m :| 0 <= m < |rest| && rest[m] == i - 1;
      assert shifted[m] == i;
    }
  }

  /** Choosing a qualifying first line in front of later choices. */
  lemma ChooseFirst(lines: seq<string>, kws: seq<string>, snippets: seq<string>, idx: seq<nat>)
    requires |lines| > 0 && Qualifies(lines[0], kws)
    requires Chosen(lines, kws, snippets, idx)
    requires forall m | 0 <= m < |idx| :: idx[m] > 0
    ensures Chosen(lines, kws, [Strip(lines[0])] + snippets, [0] + idx)
  {
    PrependPicks(lines, kws, snippets, idx);
    PrependOrdered(idx);
  }

  /** Every position of the extended choice picks its snippet. */
  lemma PrependPicks(lines: seq<string>, kws: seq<string>, snippets: seq<string>, idx: seq<nat>)
    requires |lines| > 0 && Qualifies(lines[0], kws)
    requires Chosen(lines, kws, snippets, idx)
    ensures forall m | 0 <= m < |idx| + 1 ::
      Picked(lines, kws, ([0] + idx)[m], ([Strip(lines[0])] + snippets)[m])
  {
    var idx', snippets' := [0] + idx, [Strip(lines[0])] + snippets;
    forall m | 0 <= m < |idx'|
      ensures Picked(lines, kws, idx'[m], snippets'[m])
    {
      if m > 0 {
        assert idx'[m] == idx[m - 1] && snippets'[m] == snippets[m - 1];
      }
    }
  }

  /** Prepending position 0 to positive increasing positions keeps them
      increasing. */
  lemma PrependOrdered(idx: seq<nat>)
    requires forall m | 0 <= m < |idx| :: idx[m] > 0
    requires forall m, n | 0 <= m < n < |idx| :: idx[m] < idx[n]
    ensures forall m, n | 0 <= m < n < |idx| + 1 :: ([0] + idx)[m] < ([0] + idx)[n]
  {
    var idx' := [0] + idx;
    forall m, n | 0 <= m < n < |idx'|
      ensures idx'[m] < idx'[n]
    {
      assert idx'[n] == idx[n - 1];
      if m > 0 {
        assert idx'[m] == idx[m - 1];
      }
    }
  }

  /** The relevant lines are exactly the qualifying lines, stripped, in
      their original order. */
  lemma {:induction false} RelevantIndices(lines: seq<string>, kws: seq<string>) returns (idx: seq<nat>)
    ensures Chosen(lines, kws, Relevant(lines, kws), idx)
    ensures forall i | 0 <= i < |lines| && Qualifies(lines[i], kws) :: i in idx
    decreases |lines|
  {
    if |lines| == 0 {
      return [];
    }
    var tail := lines[1..];
    var rest := RelevantIndices(tail, kws);
    var shifted := ShiftChosen(lines, kws, Relevant(tail, kws), rest);
    forall i | 0 < i < |lines| && Qualifies(lines[i], kws)
      ensures i - 1 in rest
    {
      assert tail[i - 1] == lines[i];
    }
    if Qualifies(lines[0], kws) {
      ChooseFirst(lines, kws, Relevant(tail, kws), shifted);
      idx := [0] + shifted;
    } else {
      idx := shifted;
    }
  }

  /** The first five of a complete choice are a choice of the first five. */
  lemma TakeFirstFive(lines: seq<string>, relevant: seq<string>, all: seq<nat>) returns (idx: seq<nat>)
    requires Chosen(lines, Keywords, relevant, all)
    requires forall i | 0 <= i < |lines| && MentionsKeyword(lines[i]) :: i in all
    ensures FirstQualifying(lines, if |relevant| <= MaxSnippets then relevant else relevant[..MaxSnippets], idx)
  {
    if |relevant| <= MaxSnippets {
      idx := all;
    } else {
      idx := all[..MaxSnippets];
      TakePrefixChosen(lines, Keywords, relevant, all, MaxSnippets);
      forall i | 0 <= i < |lines| && MentionsKeyword(lines[i]) && i !in idx
        ensures idx[MaxSnippets - 1] < i
      {
        var m :| 0 <= m < |all| && all[m] == i;
        assert all[MaxSnippets - 1] < all[m];
      }
    }
  }

  /** A prefix of a choice is a choice. */
  lemma TakePrefixChosen(lines: seq<string>, kws: seq<string>, snippets: seq<string>, idx: seq<nat>, k: nat)
    requires Chosen(lines, kws, snippets, idx) && k <= |idx|
    ensures Chosen(lines, kws, snippets[..k], idx[..k])
  {
  }

  /** The snippets are the stripped forms of the first `min(5, k)` lines of
      the text that mention a keyword, in their original order. */
  lemma ExperienceIsFirstQualifying(text: string) returns (idx: seq<nat>)
    ensures FirstQualifying(Split(text), ExtractExperience(text), idx)
  {
    var lines := Split(text);
    var all := RelevantIndices(lines, Keywords);
    idx := TakeFirstFive(lines, Relevant(lines, Keywords), all);
  }

  /** Some choice of positions exhibits the snippets as first qualifying
      lines. */
  lemma ExperienceHasChoice(text: string)
    ensures exists idx :: FirstQualifying(Split(text), ExtractExperience(text), idx)
  {
    var idx := ExperienceIsFirstQualifying(text);
  }

  /** A selection of first qualifying lines is empty exactly when no line
      qualifies. */
  lemma FirstQualifyingEmptyIff(lines: seq<string>, snippets: seq<string>, idx: seq<nat>)
    requires FirstQualifying(lines, snippets, idx)
    ensures |snippets| == 0 <==> forall m | 0 <= m < |lines| :: !MentionsKeyword(lines[m])
  {
    if |snippets| == 0 {
      forall m | 0 <= m < |lines|
        ensures !MentionsKeyword(lines[m])
      {
      }
    } else {
      var m := idx[0];
      assert 0 <= m < |lines| && MentionsKeyword(lines[m]);
    }
  }

  /** No snippets exactly when no line mentions a keyword. */
  lemma ExperienceEmptyIff(text: string)
    ensures |ExtractExperience(text)| == 0 ==>
      forall m | 0 <= m < |Split(text)| :: !MentionsKeyword(Split(text)[m])
    ensures (forall m | 0 <= m < |Split(text)| :: !MentionsKeyword(Split(text)[m])) ==>
      |ExtractExperience(text)| == 0
  {
    var lines, snippets := Split(text), ExtractExperience(text);
    var idx := ExperienceIsFirstQualifying(text);
    FirstQualifyingEmptyIff(lines, snippets, idx);
  }

  /** A non-empty run of lower-case letters. */
  predicate IsWord(w: string) {
    |w| > 0 && forall k | 0 <= k < |w| :: 'a' <= w[k] <= 'z'
  }

  /** Every keyword is a word. */
  lemma KeywordsAreWords()
    ensures forall kw | kw in Keywords :: IsWord(kw)
  {
  }

  /** An occurrence inside a slice, seen from the slice. */
  lemma OccursInSlice(s: string, w: string, p: nat, i: nat, j: nat)
    requires i <= p && p + |w| <= j <= |s|
    requires OccursAt(s, w, p)
    ensures OccursAt(s[i..j], w, p - i)
  {
    SliceOfSlice(s, i, j, p - i, p - i + |w|);
  }

  /** A non-space character of a line lies inside the span `strip` keeps. */
  lemma NonSpaceInsideStrip(line: string, k: nat)
    requires k < |line| && !IsSpace(line[k])
    ensures StripSpan(line).0 <= k < StripSpan(line).1
  {
  }

  /** A word found in the lower-cased line lies inside the span `strip`
      keeps, since its first and last characters are not spaces. */
  lemma WordInsideStrip(line: string, w: string, p: nat)
    requires IsWord(w) && OccursAt(Lower(line), w, p)
    ensures StripSpan(line).0 <= p && p + |w| <= StripSpan(line).1
  {
    var low := Lower(line);
    var last := p + |w| - 1;
    assert low[p] == low[p..p + |w|][0];
    assert low[last] == low[p..p + |w|][|w| - 1];
    LowerKeepsSpace(line[p]);
    LowerKeepsSpace(line[last]);
    NonSpaceInsideStrip(line, p);
    NonSpaceInsideStrip(line, last);
  }

  /** Lower-casing the stripped line is slicing the lower-cased line. */
  lemma LowerStrip(line: string)
    ensures Lower(Strip(line)) == Lower(line)[StripSpan(line).0..StripSpan(line).1]
    ensures Contains(Lower(line), Lower(Strip(line)))
  {
    var (i, j) := StripSpan(line);
    LowerSlice(line, i, j);
    assert OccursAt(Lower(line), Lower(line)[i..j], i);
  }

  /** A word occurrence consists of non-space characters, so stripping a
      line never removes one. */
  lemma WordSurvivesStrip(line: string, w: string)
    requires IsWord(w)
    ensures Contains(Lower(Strip(line)), w) <==> Contains(Lower(line), w)
  {
    LowerStrip(line);
    if Contains(Lower(Strip(line)), w) {
      ContainsTransitive(Lower(line), Lower(Strip(line)), w);
    }
    if Contains(Lower(line), w) {
      var p: nat :| p <= |Lower(line)| && OccursAt(Lower(line), w, p);
      WordInsideStrip(line, w, p);
      OccursInSlice(Lower(line), w, p, StripSpan(line).0, StripSpan(line).1);
    }
  }

  /** Testing a line before or after stripping gives the same answer. */
  lemma StripKeepsKeyword(line: string)
    ensures MentionsKeyword(Strip(line)) <==> MentionsKeyword(line)
  {
    AnyOccursIff(Lower(line), Keywords);
    AnyOccursIff(Lower(Strip(line)), Keywords);
    KeywordsAreWords();
    forall kw | kw in Keywords
      ensures Contains(Lower(Strip(line)), kw) <==> Contains(Lower(line), kw)
    {
      WordSurvivesStrip(line, kw);
    }
  }

  /** Every snippet mentions a keyword, so none is empty. */
  lemma SnippetsMentionKeyword(text: string)
    ensures forall m | 0 <= m < |ExtractExperience(text)| ::
      MentionsKeyword(ExtractExperience(text)[m]) && |ExtractExperience(text)[m]| > 0
  {
    var lines := Split(text);
    var snippets := ExtractExperience(text);
    var idx := ExperienceIsFirstQualifying(text);
    forall m | 0 <= m < |snippets|
      ensures MentionsKeyword(snippets[m]) && |snippets[m]| > 0
    {
      StripKeepsKeyword(lines[idx[m]]);
    }
  }

  /** `internship` is redundant: every line it matches is already matched by
      `intern`, so dropping it from the list changes nothing. */
  lemma InternshipRedundant(line: string)
    ensures MentionsKeyword(line) <==>
      exists kw | kw in Keywords && kw != "internship" :: Contains(Lower(line), kw)
  {
    AnyOccursIff(Lower(line), Keywords);
    if Contains(Lower(line), "internship") {
      assert OccursAt("internship", "intern", 0);
      ContainsTransitive(Lower(line), "internship", "intern");
      assert "intern" in Keywords;
    }
  }
}
