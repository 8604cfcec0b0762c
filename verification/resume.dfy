/** `parse_resume`: the text of the document, and the record of the five
    fields extracted from it. */
module Resume {
  import opened Wrappers
  import opened Text
  import opened Lines
  import opened Skills
  import opened Experience
  import Phone
  import Email
  import opened Extraction

  /** A named entity as tagged by the recognizer: its label (`kind`) and its text. */
  datatype Entity = Entity(kind: string, text: string)

  /** The pretrained recognizer, left abstract: the entities it tags in a
      text, in the order it lists them. */
  type Recognizer = string -> seq<Entity>

  /** `extract_name`: the text of the first entity labelled `PERSON`. */
  function ExtractName(entities: seq<Entity>): (r: Option<string>)
    ensures r.None? <==> forall k | 0 <= k < |entities| :: entities[k].kind != "PERSON"
    ensures r.Some? ==> exists k | 0 <= k < |entities| ::
      && entities[k].kind == "PERSON"
      && entities[k].text == r.value
      && forall m | 0 <= m < k :: entities[m].kind != "PERSON"
    decreases |entities|
  {
    if |entities| == 0 then None
    else if entities[0].kind == "PERSON" then Some(entities[0].text)
    else
      var r := ExtractName(entities[1..]);
      assert forall k | 1 <= k < |entities| :: entities[k] == entities[1..][k - 1];
      r
  }

  /** The returned record. Its five fields are the five keys `Name`,
      `Phone`, `Email`, `Skills` and `Experience Snippets`; a field with
      nothing found holds `None` or an empty collection. */
  datatype CandidateRecord = CandidateRecord(
    name: Option<string>,
    phone: Option<string>,
    email: Option<string>,
    skills: set<string>,
    experienceSnippets: seq<string>)

  /** The record built from an extracted text: each field is what its
      extractor promises for that text. */
  function Fields(text: string, recognize: Recognizer): (rec: CandidateRecord)
    ensures rec.name.None? <==> forall k | 0 <= k < |recognize(text)| :: recognize(text)[k].kind != "PERSON"
    ensures rec.name.Some? ==> exists k | 0 <= k < |recognize(text)| ::
      && recognize(text)[k].kind == "PERSON"
      && recognize(text)[k].text == rec.name.value
      && forall m | 0 <= m < k :: recognize(text)[m].kind != "PERSON"
    ensures rec.phone.None? <==> Phone.NoPhoneStartingIn(text, 0, |text| + 1)
    ensures rec.phone.Some? ==> exists i: nat, j: nat ::
      Phone.LeftmostLongestPhone(text, i, j) && rec.phone.value == text[i..j]
    ensures rec.email.None? <==> Email.NoEmailStartingIn(text, 0, |text| + 1)
    ensures rec.email.Some? ==> exists i: nat, j: nat ::
      Email.LeftmostLongestEmail(text, i, j) && rec.email.value == text[i..j]
    ensures forall t :: t in rec.skills <==> t in Vocabulary && Contains(Lower(text), t)
    ensures exists idx :: FirstQualifying(Split(text), rec.experienceSnippets, idx)
  {
    ExperienceHasChoice(text);
    CandidateRecord(
      ExtractName(recognize(text)),
      Phone.ExtractPhone(text),
      Email.ExtractEmail(text),
      ExtractSkills(text),
      ExtractExperience(text))
  }

  /** `parse_resume`: fails exactly when text extraction fails, and
      otherwise holds the fields of the extracted text. */
  function ParseResume(path: string, docs: Documents, recognize: Recognizer): (r: Result<CandidateRecord, ExtractError>)
    ensures r.Err? <==> ExtractText(path, docs).Err?
    ensures r.Err? ==> r.error == ExtractText(path, docs).error
    ensures r.Ok? ==> r.value == Fields(ExtractText(path, docs).value, recognize)
  {
    var text :- ExtractText(path, docs);
    Ok(Fields(text, recognize))
  }

  /** A record keeps at most five snippets and only vocabulary skills; by
      the contract of `ParseResume`, so does every parsed record. */
  lemma RecordBounds(text: string, recognize: Recognizer)
    ensures |Fields(text, recognize).experienceSnippets| <= MaxSnippets
    ensures Fields(text, recognize).skills <= set t | t in Vocabulary
  {
  }

  /** An empty text yields nothing but whatever the recognizer finds. */
  lemma EmptyTextFindsNothing(recognize: Recognizer)
    ensures Fields("", recognize) == CandidateRecord(ExtractName(recognize("")), None, None, {}, [])
  {
    assert Phone.NoPhoneStartingIn("", 0, 1);
    assert Email.NoEmailStartingIn("", 0, 1);
    NoSkillsInEmpty();
    NoSnippetsInEmpty();
  }

  /** No vocabulary term occurs in the empty text. */
  lemma NoSkillsInEmpty()
    ensures ExtractSkills("") == {}
  {
  }

  /** The empty text is one empty line, which mentions no keyword. */
  lemma NoSnippetsInEmpty()
    ensures ExtractExperience("") == []
  {
    ExperienceEmptyIff("");
    assert !MentionsKeyword("");
  }

  /** A PDF with no usable text layer whose rasterising fails gives a record
      with nothing found: the failure is not reported to the caller. */
  lemma FailedOcrFindsNothing(path: string, docs: Documents, recognize: Recognizer)
    requires EndsWith(Lower(path), ".pdf")
    requires forall k | 0 <= k < |TextFromPdf(docs.textLayer)| :: IsSpace(TextFromPdf(docs.textLayer)[k])
    requires docs.ocr == RasterFailed
    ensures ParseResume(path, docs, recognize) ==
      Ok(CandidateRecord(ExtractName(recognize("")), None, None, {}, []))
  {
    OcrFallback(path, docs);
    EmptyTextFindsNothing(recognize);
  }

  /** An unsupported extension fails before any field is extracted. */
  lemma UnsupportedFails(path: string, docs: Documents, recognize: Recognizer)
    requires !EndsWith(Lower(path), ".pdf") && !EndsWith(Lower(path), ".docx")
    ensures ParseResume(path, docs, recognize) == Err(UnsupportedFormat)
  {
  }
}
