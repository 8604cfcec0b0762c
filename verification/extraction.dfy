/** Text extraction: the three document readers, seen through what their
    libraries hand back, and the dispatch on the file extension with its
    OCR fallback. */
module Extraction {
  import opened Wrappers
  import opened Text
  import opened Lines

  /** What reading one page gives: its text, or an exception. A page whose
      text layer yields `None` counts as raising, since adding `"\n"` to it
      raises. */
  datatype PageText = Read(text: string) | Raised

  /** What the PDF text-layer library yields: the file cannot be opened, or
      one outcome per page. */
  datatype PdfSource = PdfUnopenable | PdfPages(pages: seq<PageText>)

  /** What rasterising the PDF and recognising each page image yields:
      rasterising fails, or one recognition outcome per page. */
  datatype OcrSource = RasterFailed | Rasterised(pages: seq<PageText>)

  /** What the word-processor library yields: the file cannot be opened
      (the exception propagates), or the paragraph texts. */
  datatype DocxSource = DocxUnreadable | DocxParagraphs(paragraphs: seq<string>)

  /** Everything the readers would return for one file. */
  datatype Documents = Documents(textLayer: PdfSource, ocr: OcrSource, docx: DocxSource)

  datatype Format = Pdf | Docx

  /** `ValueError("Unsupported file format")`, or the word-processor
      library's exception, which `extract_text` does not catch. */
  datatype ExtractError = UnsupportedFormat | DocxOpenFailed

  /** Every outcome is a successful read. */
  predicate AllRead(pages: seq<PageText>) {
    forall m | 0 <= m < |pages| :: pages[m].Read?
  }

  /** The texts of successfully read pages. */
  function Texts(pages: seq<PageText>): (texts: seq<string>)
    requires AllRead(pages)
    ensures |texts| == |pages|
    ensures forall m | 0 <= m < |pages| :: texts[m] == pages[m].text
  {
    seq(|pages|, m requires 0 <= m < |pages| => pages[m].text)
  }

  /** The text-layer loop: each page's text and a newline are appended;
      an exception leaves the loop, keeping what was appended so far. */
  function TextLayerText(pages: seq<PageText>): string
    decreases |pages|
  {
    if |pages| == 0 then ""
    else match pages[0]
      case Raised => ""
      case Read(t) => t + "\n" + TextLayerText(pages[1..])
  }

  /** `extract_text_from_pdf`. */
  function TextFromPdf(src: PdfSource): string {
    match src
    case PdfUnopenable => ""
    case PdfPages(pages) => TextLayerText(pages)
  }

  /** The OCR loop: page texts appended with no separator; `None` when a
      page raises. */
  function OcrPagesText(pages: seq<PageText>): Option<string>
    decreases |pages|
  {
    if |pages| == 0 then Some("")
    else match pages[0]
      case Raised => None
      case Read(t) =>
        match OcrPagesText(pages[1..])
        case None => None
        case Some(rest) => Some(t + rest)
  }

  /** `extract_text_from_pdf_with_ocr`: any failure gives the empty text. */
  function TextFromOcr(src: OcrSource): string {
    match src
    case RasterFailed => ""
    case Rasterised(pages) => OcrPagesText(pages).GetOr("")
  }

  /** `extract_text_from_docx`. */
  function TextFromDocx(paragraphs: seq<string>): string {
    Terminated(paragraphs)
  }

  /** The extension test, made on the lower-cased path, PDF first. */
  function FormatOf(path: string): Option<Format> {
    if EndsWith(Lower(path), ".pdf") then Some(Pdf)
    else if EndsWith(Lower(path), ".docx") then Some(Docx)
    else None
  }

  /** `extract_text`. */
  function ExtractText(path: string, docs: Documents): (r: Result<string, ExtractError>)
    ensures r == Err(UnsupportedFormat) <==>
      !EndsWith(Lower(path), ".pdf") && !EndsWith(Lower(path), ".docx")
    ensures r == Err(DocxOpenFailed) <==>
      EndsWith(Lower(path), ".docx") && docs.docx.DocxUnreadable?
    ensures EndsWith(Lower(path), ".pdf") ==> r.Ok?
    ensures EndsWith(Lower(path), ".docx") && docs.docx.DocxParagraphs? ==>
      r == Ok(Terminated(docs.docx.paragraphs))
  {
    FormatsExclusive(path);
    match FormatOf(path)
    case None => Err(UnsupportedFormat)
    case Some(Pdf) =>
      var direct := TextFromPdf(docs.textLayer);
      if IsBlank(direct) then Ok(TextFromOcr(docs.ocr)) else Ok(direct)
    case Some(Docx) =>
      match docs.docx
      case DocxUnreadable => Err(DocxOpenFailed)
      case DocxParagraphs(ps) => Ok(TextFromDocx(ps))
  }

  /** No path ends in both extensions, so the order of the two tests only
      matters in that the PDF test is made first. */
  lemma FormatsExclusive(path: string)
    ensures !(EndsWith(Lower(path), ".pdf") && EndsWith(Lower(path), ".docx"))
  {
  }

  /** The extension test ignores case. */
  lemma FormatIgnoresCase(path: string, path': string)
    requires Lower(path) == Lower(path')
    ensures forall docs :: ExtractText(path, docs) == ExtractText(path', docs)
  {
  }

  /** An unsupported path fails before any reader runs: the outcome does
      not depend on what any reader would have returned. */
  lemma UnsupportedReadsNothing(path: string, docs: Documents, docs': Documents)
    requires FormatOf(path).None?
    ensures ExtractText(path, docs) == ExtractText(path, docs') == Err(UnsupportedFormat)
  {
  }

  /** On the PDF branch the direct text is returned unchanged, and OCR is
      not consulted, whenever it holds a non-space character. */
  lemma DirectTextKept(path: string, docs: Documents, ocr: OcrSource)
    requires EndsWith(Lower(path), ".pdf")
    requires exists k | 0 <= k < |TextFromPdf(docs.textLayer)| :: !IsSpace(TextFromPdf(docs.textLayer)[k])
    ensures ExtractText(path, docs) == Ok(TextFromPdf(docs.textLayer))
    ensures ExtractText(path, docs.(ocr := ocr)) == ExtractText(path, docs)
  {
    BlankIffAllSpace(TextFromPdf(docs.textLayer));
  }

  /** On the PDF branch OCR supplies the text exactly when the direct text
      is empty or whitespace only. */
  lemma OcrFallback(path: string, docs: Documents)
    requires EndsWith(Lower(path), ".pdf")
    requires forall k | 0 <= k < |TextFromPdf(docs.textLayer)| :: IsSpace(TextFromPdf(docs.textLayer)[k])
    ensures ExtractText(path, docs) == Ok(TextFromOcr(docs.ocr))
  {
    BlankIffAllSpace(TextFromPdf(docs.textLayer));
  }

  /** The word-processor branch never looks at the PDF readers. */
  lemma DocxIgnoresPdf(path: string, docs: Documents, pdf: PdfSource, ocr: OcrSource)
    requires FormatOf(path) == Some(Docx)
    ensures ExtractText(path, docs.(textLayer := pdf, ocr := ocr)) == ExtractText(path, docs)
  {
  }

  /** The text layer holds, newline-terminated, exactly the pages read
      before the first failure; later pages are never looked at. */
  lemma {:induction false} TextLayerUpToFailure(pages: seq<PageText>, k: nat)
    requires k <= |pages| && AllRead(pages[..k])
    requires k == |pages| || pages[k].Raised?
    ensures TextLayerText(pages) == Terminated(Texts(pages[..k]))
    decreases k
  {
    if k == 0 {
      assert pages[..0] == [];
    } else {
      assert pages[1..][..k - 1] == pages[..k][1..];
      TextLayerUpToFailure(pages[1..], k - 1);
      assert Texts(pages[..k])[1..] == Texts(pages[1..][..k - 1]);
    }
  }

  /** The word-processor text splits back into its paragraphs, followed by
      the empty piece after the final newline. */
  lemma DocxTextSplits(paragraphs: seq<string>)
    requires NoNewlines(paragraphs)
    ensures Split(TextFromDocx(paragraphs)) == paragraphs + [""]
  {
    SplitTerminated(paragraphs);
  }

  /** A readable word-processor file yields its newline-free paragraphs
      back as the lines of the extracted text, with one empty line after
      the last newline. */
  lemma DocxBranchLines(path: string, docs: Documents)
    requires EndsWith(Lower(path), ".docx") && docs.docx.DocxParagraphs?
    requires NoNewlines(docs.docx.paragraphs)
    ensures ExtractText(path, docs).Ok?
    ensures Split(ExtractText(path, docs).value) == docs.docx.paragraphs + [""]
  {
    SplitTerminated(docs.docx.paragraphs);
  }

  /** OCR is all or nothing: the pages' texts run together when every page
      is recognised, and the empty text as soon as one page fails. */
  lemma {:induction false} OcrAllOrNothing(pages: seq<PageText>)
    ensures AllRead(pages) ==> OcrPagesText(pages) == Some(Concat(Texts(pages)))
    ensures AllRead(pages) ==> TextFromOcr(Rasterised(pages)) == Concat(Texts(pages))
    ensures !AllRead(pages) ==> TextFromOcr(Rasterised(pages)) == ""
    ensures !AllRead(pages) ==> OcrPagesText(pages) == None
    decreases |pages|
  {
    if |pages| > 0 {
      OcrAllOrNothing(pages[1..]);
      if AllRead(pages) {
        assert AllRead(pages[1..]);
        assert Texts(pages)[1..] == Texts(pages[1..]);
      } else if pages[0].Read? {
        var m :| 0 <= m < |pages| && !pages[m].Read?;
        assert !pages[1..][m - 1].Read?;
      }
    }
  }

  /** A PDF whose pages are all read but hold only whitespace has a blank
      text layer, so it is sent to OCR. */
  lemma {:induction false} BlankPagesAreBlank(pages: seq<PageText>)
    requires AllRead(pages)
    requires forall m | 0 <= m < |pages| :: forall k | 0 <= k < |pages[m].text| :: IsSpace(pages[m].text[k])
    ensures forall k | 0 <= k < |TextLayerText(pages)| :: IsSpace(TextLayerText(pages)[k])
    decreases |pages|
  {
    if |pages| > 0 {
      BlankPagesAreBlank(pages[1..]);
      var t := pages[0].text;
      var rest := TextLayerText(pages[1..]);
      assert TextLayerText(pages) == t + "\n" + rest;
      forall k | 0 <= k < |t + "\n" + rest|
        ensures IsSpace((t + "\n" + rest)[k])
      {
        if k < |t| {
          assert (t + "\n" + rest)[k] == t[k];
        } else if k > |t| {
          assert (t + "\n" + rest)[k] == rest[k - |t| - 1];
        }
      }
    }
  }
}
