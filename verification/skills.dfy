/** The skills extractor: a case-insensitive substring search for a fixed
    vocabulary of eleven terms. */
module Skills {
  import opened Text

  /** The hard-coded vocabulary, in the order the source lists it. */
  const Vocabulary: seq<string> :=
    ["python", "java", "sql", "c++", "excel", "html", "css", "javascript", "react", "git", "linux"]

  /** The list comprehension over the vocabulary: the terms of `terms` that
      occur in `low`, in vocabulary order. */
  function Found(terms: seq<string>, low: string): (found: seq<string>)
    ensures forall t :: t in found <==> t in terms && Contains(low, t)
    decreases |terms|
  {
    if |terms| == 0 then []
    else if Contains(low, terms[0]) then [terms[0]] + Found(terms[1..], low)
    else Found(terms[1..], low)
  }

  /** `extract_skills`: the distinct vocabulary terms occurring in the
      lower-cased text. Python returns them as `list(set(...))`, whose order
      is unspecified, so the model returns the set. */
  function ExtractSkills(text: string): (skills: set<string>)
    ensures forall t :: t in skills <==> t in Vocabulary && Contains(Lower(text), t)
  {
    var found := Found(Vocabulary, Lower(text));
    set t | t in found
  }

  /** Nothing outside the vocabulary is ever reported. */
  lemma SkillsWithinVocabulary(text: string)
    ensures ExtractSkills(text) <= set t | t in Vocabulary
  {
  }

  /** Texts that agree once lower-cased have the same skills. */
  lemma SkillsIgnoreCase(a: string, b: string)
    requires Lower(a) == Lower(b)
    ensures ExtractSkills(a) == ExtractSkills(b)
  {
  }

  /** Lower-casing the text beforehand changes nothing. */
  lemma SkillsOfLowered(text: string)
    ensures ExtractSkills(Lower(text)) == ExtractSkills(text)
  {
    LowerIdempotent(text);
  }

  /** Matching is by substring, so a text mentioning `javascript` in any
      case is also reported to know `java`. */
  lemma JavaInsideJavascript(text: string)
    requires Contains(Lower(text), "javascript")
    ensures "javascript" in ExtractSkills(text)
    ensures "java" in ExtractSkills(text)
  {
    assert Contains("javascript", "java") by {
      assert OccursAt("javascript", "java", 0);
    }
    ContainsTransitive(Lower(text), "javascript", "java");
  }
}
