# Resume parser core, modelled in Dafny

This project models the text-processing core of a small resume parser, `parser.py`.
The parser turns a PDF or word-processor file into a record with five keys.

- **Text extraction.**
  - The extension test on the lower-cased path comes first, PDF before `.docx`.
  - A PDF's text layer is read page by page, each page followed by a newline.
    A failure keeps the pages read before it.
  - When that text is empty or whitespace only, the PDF is sent to OCR.
    OCR glues the recognised pages with no separator and gives `""` on any failure.
  - A word-processor file gives its paragraphs, each followed by a newline.
  - Any other extension raises.
- **Field extraction** on the text:
  - the name is the first `PERSON` entity of a recognizer;
  - the phone and e-mail are the first matches of two fixed regular expressions;
  - the skills are the eleven vocabulary terms that occur in the lower-cased text;
  - the experience snippets are the first five lines, stripped, whose lower-cased form contains one of seven keywords.

Strings are `seq<char>`. Everything is a pure function.

## Modules

- `Text`: character classes and the `str` operations the parser uses:
  - `lower` (ASCII letters);
  - `in` on strings (`Contains`);
  - `strip`, with Python's `isspace` whitespace set;
  - `endswith`.
- `Lines`:
  - `split('\n')`, which keeps empty pieces;
  - `'\n'.join`;
  - the two gluing loops: newline-terminated (`Terminated`) and unseparated (`Concat`).
- `Skills`, `Experience`, `Phone`, `Email`: the four field extractors.
  - The two regular expressions become shape predicates on substrings (`IsPhone`, `IsEmail`).
  - Each comes with a leftmost, greedy search.
  - The search result is specified as the unique leftmost-longest match (`LeftmostLongestPhone`, `LeftmostLongestEmail`).
  - For these two patterns, the match the engine settles on at a start is the longest match starting there, so that is what the regex engine returns.
- `Extraction`: the three readers as functions of what their libraries hand back. `ExtractText` is the dispatch with the OCR fallback.
  - Each page outcome is `Read(text)` or `Raised`.
  - A page whose text layer is `None` counts as `Raised`, since `None + "\n"` raises inside the `try`.
  - An unopenable word-processor file is an error that propagates, as in the source.
- `Resume`: the output record, the name picker over a recognizer given as a parameter, and `ParseResume`.
- `Scenario`: one concrete contact line, with its phone, e-mail and experience snippet proved.

## Model

| member | source | states |
|---|---|---|
| Text.LowerChar | parser.py:81 | a lower-cased character is never upper-case; an upper-case ASCII letter's code point goes up by 32 to its lower-case letter, and every other character is unchanged |
| Text.Lower | parser.py:81 | lower-casing keeps the length and lower-cases each character in place |
| Text.LowerIdempotent | parser.py:81 | lower-casing twice is lower-casing once |
| Text.StripSpan | parser.py:88 | `strip` keeps a span of the string with only whitespace outside it and non-whitespace at both of its ends |
| Text.StripShape | parser.py:88 | a stripped string has no surrounding whitespace and is a substring of the original |
| Text.BlankIffAllSpace | parser.py:51 | `not text.strip()` holds exactly when every character is whitespace |
| Text.ContainsTransitive | parser.py:82 | a substring of a substring is a substring |
| Lines.Split | parser.py:87 | `split('\n')` gives at least one piece, and no piece contains a newline |
| Lines.JoinSplit | parser.py:87 | joining the pieces of a split with newlines gives back the text |
| Lines.SplitJoin | parser.py:87 | splitting joined newline-free pieces gives back the pieces |
| Lines.TerminatedIsJoin | parser.py:18-22 | appending each paragraph plus a newline is joining the paragraphs with one extra empty piece |
| Lines.SplitTerminated | parser.py:18-22 | splitting newline-terminated, newline-free paragraphs gives the paragraphs plus one empty trailing piece |
| Lines.TerminatedLength | parser.py:18-22 | the terminated text is one newline per piece longer than the pieces glued together |
| Lines.TerminatedAppend | parser.py:28-29 | terminating two page runs one after the other is terminating their concatenation |
| Lines.ConcatAppend | parser.py:39-42 | gluing two runs of OCR pages one after the other is gluing their concatenation |
| Skills.Found | parser.py:82 | the comprehension keeps a term exactly when it is in the list and occurs in the lower-cased text |
| Skills.ExtractSkills | parser.py:79-83 | a term is reported exactly when it is one of the eleven vocabulary terms and occurs in the lower-cased text |
| Skills.SkillsWithinVocabulary | parser.py:80-83 | nothing outside the vocabulary is ever reported |
| Skills.SkillsIgnoreCase | parser.py:81-82 | texts that agree once lower-cased have the same skills |
| Skills.SkillsOfLowered | parser.py:81 | lower-casing the text beforehand changes nothing |
| Skills.JavaInsideJavascript | parser.py:80-82 | a text containing `javascript`, in any case, is also reported to contain `java` |
| Experience.AnyOccursIff | parser.py:88 | the `any` test holds exactly when some keyword occurs in the lower-cased line |
| Experience.ExtractExperience | parser.py:89 | at most five snippets are returned |
| Experience.RelevantIndices | parser.py:88 | the comprehension yields, in order, the stripped form of every qualifying line and of no other line |
| Experience.TakeFirstFive | parser.py:89 | truncating to five keeps the first five qualifying lines; a qualifying line is dropped only if five earlier ones were kept |
| Experience.ExperienceIsFirstQualifying | parser.py:85-89 | the snippets are the stripped forms of the first min(5, k) of the k qualifying lines, in their original order |
| Experience.ExperienceEmptyIff | parser.py:86-89 | the result is empty if and only if no line mentions a keyword |
| Experience.KeywordsAreWords | parser.py:86 | every keyword is a non-empty run of lower-case letters |
| Experience.WordSurvivesStrip | parser.py:88 | a word occurs in a lower-cased line exactly when it occurs in the lower-cased stripped line |
| Experience.StripKeepsKeyword | parser.py:88 | testing a line before or after stripping gives the same answer, so testing the unstripped line loses nothing |
| Experience.SnippetsMentionKeyword | parser.py:88-89 | every returned snippet itself mentions a keyword and is non-empty |
| Experience.InternshipRedundant | parser.py:86 | dropping `internship` from the keyword list changes no line's verdict, because `intern` matches it |
| Phone.BodyIff | parser.py:70 | the digit part matches exactly when it starts with a digit, ends with a digit at least ten characters on, and stays in the filler run |
| Phone.PhoneIffBody | parser.py:70 | a match at a position is a digit part after an optional `+` |
| Phone.MatchEnd | parser.py:70-71 | at one position, the search returns the longest match there, or none when no match starts there |
| Phone.SearchFrom | parser.py:71 | the search returns a match with no match starting before it and no longer match at its start, or none when there is no match |
| Phone.ExtractPhone | parser.py:69-72 | the result is `None` exactly when no substring has the phone shape, and otherwise is the leftmost-longest such substring |
| Phone.LeftmostLongestUnique | parser.py:71-72 | at most one span is the leftmost-longest match, so the phone result is determined by the text |
| Phone.PhoneCharsAreFill | parser.py:70 | a match starts with a digit or `+` and continues with digits, whitespace, `-`, `(` and `)` |
| Phone.NoPhoneWithoutLead | parser.py:70-71 | no match starts before the first digit or `+` |
| Phone.PhoneStopsAt | parser.py:70 | no match runs across a character outside the filler class |
| Email.MatchEndSound | parser.py:75-76 | what the greedy match at a position returns has the address shape |
| Email.MatchEndComplete | parser.py:75-76 | every address starting at a position is found there and is no longer than the one found |
| Email.SearchFrom | parser.py:76 | the search returns a match with no match starting before it and no longer match at its start, or none when there is no match |
| Email.ExtractEmail | parser.py:74-77 | the result is `None` exactly when no substring has the address shape, and otherwise is the leftmost-longest such substring |
| Email.LeftmostLongestUnique | parser.py:76-77 | at most one span is the leftmost-longest match, so the e-mail result is determined by the text |
| Email.OneAt | parser.py:75 | a match contains exactly one `@` |
| Email.EmailChars | parser.py:75 | every character of a match is a local-part character or `@` |
| Email.NoEmailBefore | parser.py:75-76 | with no `@` before a character outside the local class, no match starts at or before that character |
| Email.EmailStopsAt | parser.py:75 | no match runs across a character that is neither a local-part character nor `@` |
| Extraction.ExtractText | parser.py:48-58 | it fails with the unsupported-format error exactly when the lower-cased path ends in neither `.pdf` nor `.docx`; it fails with the word-processor error exactly for an unreadable `.docx`; a `.pdf` never fails; a readable `.docx` gives its paragraphs, each followed by a newline |
| Extraction.DocxBranchLines | parser.py:54-55 | on the `.docx` branch, the lines of the extracted text are the newline-free paragraphs followed by one empty line |
| Extraction.FormatsExclusive | parser.py:49-54 | no path takes both branches, so testing `.pdf` first is only a matter of order |
| Extraction.FormatIgnoresCase | parser.py:49-54 | paths that agree once lower-cased are treated alike |
| Extraction.UnsupportedReadsNothing | parser.py:56-57 | an unsupported path fails whatever the readers would have returned |
| Extraction.DirectTextKept | parser.py:50-51 | a direct PDF text holding a non-whitespace character is returned unchanged, and OCR is not consulted |
| Extraction.OcrFallback | parser.py:50-53 | a direct PDF text that is empty or whitespace only is replaced by the OCR text |
| Extraction.DocxIgnoresPdf | parser.py:54-55 | the word-processor branch does not depend on the PDF readers |
| Extraction.TextLayerUpToFailure | parser.py:24-32 | the text layer is exactly the pages before the first failure, each followed by a newline |
| Extraction.DocxTextSplits | parser.py:17-22 | the word-processor text of newline-free paragraphs splits into those paragraphs followed by one empty line |
| Extraction.OcrAllOrNothing | parser.py:34-46 | OCR gives the page texts glued together when every page is recognised, and `""` as soon as one fails |
| Extraction.BlankPagesAreBlank | parser.py:28-29 | pages holding only whitespace give a whitespace-only text layer, which sends the file to OCR |
| Resume.ExtractName | parser.py:62-67 | the name is `None` exactly when no entity is labelled `PERSON`, and otherwise the text of the first one |
| Resume.Fields | parser.py:93-99 | the name is the first `PERSON` entity the recognizer finds in the text; phone and e-mail are `None` exactly when the text has no match and otherwise the leftmost-longest match; the skills are the vocabulary terms in the lower-cased text; the snippets are the first (at most five) qualifying lines, stripped, in order |
| Resume.ParseResume | parser.py:91-99 | parsing fails exactly when text extraction fails, with the same error, and otherwise gives the record of the extracted text |
| Resume.RecordBounds | parser.py:93-99 | a record, and so every parsed record, has at most five snippets and only vocabulary skills |
| Resume.EmptyTextFindsNothing | parser.py:93-99 | an empty text gives no phone, no e-mail, no skills and no snippets |
| Resume.NoSkillsInEmpty | parser.py:79-83 | no skill is found in the empty text |
| Resume.NoSnippetsInEmpty | parser.py:85-89 | no snippet is found in the empty text |
| Resume.FailedOcrFindsNothing | parser.py:44-53 | a PDF with a blank text layer whose rasterising fails yields a record with no phone, e-mail, skills or snippets rather than an error |
| Resume.UnsupportedFails | parser.py:56-57 | parsing a file with an unsupported extension fails with the unsupported-format error |
| Scenario.ContactLinePhone | parser.py:69-72 | in the sample contact line the phone found is `+1-555-123-4567`, with its `+` and without the following full stop |
| Scenario.ContactLineEmail | parser.py:74-77 | in the sample contact line the e-mail found is `john.doe@example.com`, ending before the comma |
| Scenario.ContactLineExperience | parser.py:85-89 | the sample contact line is its own single experience snippet |

## Left out

- Name recognition (parser.py:13, 62-67) uses a pretrained language model. The recognizer is a function parameter returning entities; only the choice of the first `PERSON` is modelled.
- The PDF, rasterising, OCR and word-processor libraries (parser.py:19, 27-29, 37-40) do file and image I/O. Their results are inputs: page texts or failures, and paragraph texts or an unopenable file.
- The `print` diagnostics (parser.py:31, 35, 41, 45, 52) are console output only.
- The Tesseract path and model loading (parser.py:12-13) are environment set-up. The script block (parser.py:103-107) is script I/O, and its call on line 105 runs at import time whatever the `if` says.
- Resume.ParseResume: the recognizer is assumed to return for every text, so parsing fails only when text extraction fails. The real language model raises on texts longer than its maximum length (1,000,000 characters by default), and `parse_resume` does not catch that.
- Text.Lower: lower-cases ASCII letters only, whereas Python's `str.lower` also maps non-ASCII letters.
- Text.IsDigit: accepts ASCII digits only, whereas the regex `\d` of a Python string pattern also accepts other Unicode decimal digits.
- Skills.ExtractSkills: returns a set, because the source's `list(set(...))` has no specified order.
- Phone.ExtractPhone and Email.ExtractEmail model the search for these two patterns, not a general regular-expression engine.
- Failures are modelled only where the source catches them or lets them decide the result: an unopenable or failing PDF page, a failing rasterisation or recognition, and an unopenable word-processor file.
