/**
 * The `/api/verify` request path: classifying the upload, recognising every
 * page, joining the page texts and scoring the result.  OCR, PDF
 * rasterisation, image decoding and SHA-256 are supplied as functions.
 */
module Pipeline {
  import opened Wrappers
  import opened PyStr
  import opened PySort
  import opened Heuristics
  import opened Imaging

  type byte = x: int | 0 <= x < 256

  /** The PDF signature `%PDF`. */
  const PdfMagic: seq<byte> := [0x25, 0x50, 0x44, 0x46]

  const PdfExtension := ".pdf"

  /** `filename.lower().endswith(".pdf") or raw[:4] == b"%PDF"`. */
  function IsPdf(fileName: string, raw: seq<byte>): (r: bool)
    ensures r <==> ((|fileName| >= 4 && Lower(fileName[|fileName| - 4..]) == PdfExtension)
      || (|raw| >= 4 && raw[..4] == PdfMagic))
  {
    EndsWith(Lower(fileName), PdfExtension) || raw[..if |raw| < 4 then |raw| else 4] == PdfMagic
  }

  /** The decision ignores the case of the name. */
  lemma IsPdfIgnoresCase(fileName: string, raw: seq<byte>)
    ensures IsPdf(Lower(fileName), raw) == IsPdf(fileName, raw)
  {
    LowerIdempotent(fileName);
  }

  /** Only the first four bytes of the content matter. */
  lemma IsPdfReadsHeaderOnly(fileName: string, raw: seq<byte>, rest: seq<byte>)
    requires |raw| >= 4
    ensures IsPdf(fileName, raw + rest) == IsPdf(fileName, raw)
  {
    assert (raw + rest)[..4] == raw[..4];
  }

  /** "SCAN.PDF" is a PDF whatever its bytes; so is any upload starting with
      the signature; a name without the extension and two bytes is not. */
  lemma IsPdfExamples(raw: seq<byte>, rest: seq<byte>)
    ensures IsPdf("SCAN.PDF", raw)
    ensures IsPdf("scan.png", PdfMagic + rest)
    ensures !IsPdf("scan.png", [0x25, 0x50])
  {
    assert "SCAN.PDF"[4..] == ".PDF";
    assert (PdfMagic + rest)[..4] == PdfMagic;
    assert Lower("scan.png")[6] == 'n';
  }

  const DefaultFileName := "upload"

  /** `f.filename or "upload"`. */
  function FileName(given: Option<string>): (name: string)
    ensures name != []
    ensures given.Some? && given.value != [] ==> name == given.value
    ensures given.None? || given.value == [] ==> name == DefaultFileName
  {
    if given.Some? && given.value != [] then given.value else DefaultFileName
  }

  // --------------------------------------------------------------- pages

  /** What OCR yields for one page: its text and, when the engine reports
      one, the mean confidence of its detections. */
  datatype OcrResult = OcrResult(text: string, confidence: Option<real>)

  /** The OCR engine: `None` when recognition raises. */
  type Recognizer = Prepared -> Option<OcrResult>

  /** The text a page contributes; a failed recognition contributes "". */
  function PageText(o: Option<OcrResult>): string {
    if o.Some? then o.value.text else ""
  }

  /** The confidences a page contributes. */
  function PageConfidences(o: Option<OcrResult>): seq<real> {
    if o.Some? && o.value.confidence.Some? then [o.value.confidence.value] else []
  }

  function Recognize(ocr: Recognizer, page: Bitmap): Option<OcrResult> {
    ocr(Preprocess(page, MinDim))
  }

  /** The text of every page, in page order. */
  function PageTexts(pages: seq<Bitmap>, ocr: Recognizer): seq<string> {
    seq(|pages|, i requires 0 <= i < |pages| => PageText(Recognize(ocr, pages[i])))
  }

  /** The confidences reported, in page order. */
  function Confidences(pages: seq<Bitmap>, ocr: Recognizer): seq<real> {
    if pages == [] then []
    else Confidences(pages[..|pages| - 1], ocr) + PageConfidences(Recognize(ocr, pages[|pages| - 1]))
  }

  /** At most one confidence per page. */
  lemma {:induction false} ConfidencesBound(pages: seq<Bitmap>, ocr: Recognizer)
    ensures |Confidences(pages, ocr)| <= |pages|
    decreases |pages|
  {
    if pages != [] {
      ConfidencesBound(pages[..|pages| - 1], ocr);
    }
  }

  /** The page loop of the PDF path: every page is counted and contributes
      exactly one text, "" when its recognition fails. */
  method RecognizePages(pages: seq<Bitmap>, ocr: Recognizer)
    returns (texts: seq<string>, confidences: seq<real>, pageCount: nat)
    ensures pageCount == |pages| && |texts| == |pages|
    ensures forall i :: 0 <= i < |pages| ==> texts[i] == PageText(Recognize(ocr, pages[i]))
    ensures forall i :: 0 <= i < |pages| && Recognize(ocr, pages[i]).None? ==> texts[i] == ""
    ensures confidences == Confidences(pages, ocr)
  {
    texts, confidences, pageCount := [], [], 0;
    for i := 0 to |pages|
      invariant pageCount == i && |texts| == i
      invariant forall j :: 0 <= j < i ==> texts[j] == PageText(Recognize(ocr, pages[j]))
      invariant confidences == Confidences(pages[..i], ocr)
    {
      pageCount := pageCount + 1;
      var pre := Preprocess(pages[i], MinDim);
      var result := ocr(pre);
      if result.Some? {
        texts := texts + [result.value.text];
        if result.value.confidence.Some? {
          confidences := confidences + [result.value.confidence.value];
        }
      } else {
        texts := texts + [""];
      }
      assert pages[..i + 1][..i] == pages[..i];
    }
    assert pages[..|pages|] == pages;
  }

  // ----------------------------------------------------------- full text

  /** The marker put between the texts of consecutive pages. */
  const PageSeparator := "\n\n---PAGE---\n\n"
  const PageMarker := "---PAGE---"

  /** `"\n\n---PAGE---\n\n".join(texts).strip()`. */
  function FullText(texts: seq<string>): (r: string)
    ensures texts == [] ==> r == []
    ensures r == [] || (!IsSpace(r[0]) && !IsSpace(r[|r| - 1]))
  {
    Strip(Join(PageSeparator, texts))
  }

  /** A single page's full text is that page's text, stripped. */
  lemma FullTextOnePage(t: string)
    ensures FullText([t]) == Strip(t)
  {
  }

  lemma MarkerIsAWord()
    ensures PageMarker != [] && NoSpace(PageMarker)
  {
  }

  /** The separator is one token of its own. */
  lemma SplitSeparator()
    ensures Split(PageSeparator) == [PageMarker]
  {
    var ws := "\n\n";
    var tail := PageMarker + ws;
    assert PageSeparator == ws + tail;
    assert AllSpace(ws);
    SplitSkipsLeadingSpace(ws, tail);
    SplitSkipsTrailingSpace(PageMarker, ws);
    MarkerIsAWord();
    SplitWord(PageMarker);
  }

  /** Words on all pages together. */
  function TotalWords(texts: seq<string>): nat {
    if texts == [] then 0 else |Words(texts[0])| + TotalWords(texts[1..])
  }

  lemma {:induction false} SplitJoinPages(texts: seq<string>)
    requires texts != []
    ensures |Split(Join(PageSeparator, texts))| == TotalWords(texts) + |texts| - 1
    decreases |texts|
  {
    WordsAreTokens(texts[0]);
    if |texts| > 1 {
      var rest := Join(PageSeparator, texts[1..]);
      assert Join(PageSeparator, texts) == texts[0] + (PageSeparator + rest);
      SplitConcatBefore(texts[0], PageSeparator + rest);
      SplitConcatAfter(PageSeparator, rest);
      SplitSeparator();
      SplitJoinPages(texts[1..]);
    }
  }

  /** The word count of the full text is the words of all pages plus one for
      each page marker between them. */
  lemma FullTextWordCount(texts: seq<string>)
    requires texts != []
    ensures |Words(FullText(texts))| == TotalWords(texts) + |texts| - 1
  {
    WordsAreTokens(FullText(texts));
    SplitStrip(Join(PageSeparator, texts));
    SplitJoinPages(texts);
  }

  // -------------------------------------------------------------- request

  /** The uploaded `file` field: its declared name and its bytes. */
  datatype Upload = Upload(filename: Option<string>, raw: seq<byte>)

  /** The collaborators of the request handler. */
  datatype Services = Services(
    pdfSupport: bool,                              // pdf2image importable
    rasterize: seq<byte> -> Option<seq<Bitmap>>,   // pages at 200 DPI; None when it raises
    decode: seq<byte> -> Option<Bitmap>,           // None when the bytes are not an image
    ocr: Recognizer,
    digest: seq<byte> -> string)                   // hex SHA-256

  datatype Error =
    | MissingFile           // no file part named 'file' in request
    | PdfSupportMissing     // pdf_uploaded_but_pdf2image_missing
    | PdfConversionFailed   // pdf_conversion_failed
    | CannotReadImage       // cannot_read_image
    | OcrFailed             // ocr_failed

  /** The success response; `confidences` are the per-page values whose mean
      is reported. */
  datatype Report = Report(
    fileName: string, fileHash: string, pageCount: nat, fullText: string, snippet: string,
    wordCount: nat, issuers: seq<string>, hasDates: bool, confidences: seq<real>, trustScore: int)

  /** The pages an upload is made of, once extraction has succeeded. */
  function PagesOf(u: Upload, env: Services): (r: seq<Bitmap>)
    ensures !IsPdf(FileName(u.filename), u.raw) ==> |r| <= 1
    ensures IsPdf(FileName(u.filename), u.raw) && env.rasterize(u.raw).None? ==> r == []
  {
    if IsPdf(FileName(u.filename), u.raw) then
      (if env.rasterize(u.raw).Some? then env.rasterize(u.raw).value else [])
    else if env.decode(u.raw).Some? then [env.decode(u.raw).value] else []
  }

  /** rep reports on the texts and confidences of the pages of an upload. */
  ghost predicate Scores(rep: Report, texts: seq<string>) {
    && rep.fullText == FullText(texts)
    && rep.snippet == Snippet(rep.fullText)
    && rep.wordCount == |Words(rep.fullText)|
    && StrictlySorted(rep.issuers)
    && (forall kw :: kw in rep.issuers <==> IssuerMatch(rep.fullText, kw))
    && rep.hasDates == HasDates(rep.fullText)
    && rep.trustScore == TrustScore(rep.wordCount, |rep.issuers|, rep.hasDates)
  }

  /** rep is the report on upload u whose pages are `pages`. */
  ghost predicate Describes(rep: Report, u: Upload, pages: seq<Bitmap>, env: Services) {
    && rep.fileName == FileName(u.filename)
    && rep.fileHash == env.digest(u.raw)
    && rep.pageCount == |pages|
    && rep.confidences == Confidences(pages, env.ocr)
    && Scores(rep, PageTexts(pages, env.ocr))
  }

  /** Lines 190-197: join the page texts and score the result. */
  method Score(fileName: string, fileHash: string, pageCount: nat, texts: seq<string>, confidences: seq<real>)
    returns (rep: Report)
    ensures rep.fileName == fileName && rep.fileHash == fileHash && rep.pageCount == pageCount
    ensures rep.confidences == confidences
    ensures Scores(rep, texts)
  {
    var fullText := FullText(texts);
    var snippet := Snippet(fullText);
    var words := Words(fullText);
    var issuers := DetectIssuers(Some(fullText));
    var hasDates := HasDates(fullText);
    var trust := QuickTrustScore(|words|, |issuers|, hasDates);
    rep := Report(fileName, fileHash, pageCount, fullText, snippet,
                  |words|, issuers, hasDates, confidences, trust);
  }

  /** The body of `api_verify` without HTTP and JSON. */
  method Verify(request: Option<Upload>, env: Services) returns (r: Result<Report, Error>)
    ensures request.None? ==> r == Failure(MissingFile)
    ensures request.Some? ==>
      var u := request.value;
      var pdf := IsPdf(FileName(u.filename), u.raw);
      && (pdf && !env.pdfSupport ==> r == Failure(PdfSupportMissing))
      && (pdf && env.pdfSupport && env.rasterize(u.raw).None? ==> r == Failure(PdfConversionFailed))
      && (!pdf && env.decode(u.raw).None? ==> r == Failure(CannotReadImage))
      && (!pdf && env.decode(u.raw).Some? && Recognize(env.ocr, env.decode(u.raw).value).None?
          ==> r == Failure(OcrFailed))
      && (pdf && env.pdfSupport && env.rasterize(u.raw).Some? ==> r.Success?)
      && (!pdf && env.decode(u.raw).Some? && Recognize(env.ocr, env.decode(u.raw).value).Some?
          ==> r.Success?)
    ensures r.Success? ==>
      && request.Some?
      && Describes(r.value, request.value, PagesOf(request.value, env), env)
      && (!IsPdf(FileName(request.value.filename), request.value.raw) ==> r.value.pageCount == 1)
  {
    if request.None? {
      return Failure(MissingFile);
    }
    var u := request.value;
    var fileName := FileName(u.filename);
    var fileHash := env.digest(u.raw);
    var texts: seq<string>;
    var confidences: seq<real>;
    var pageCount: nat;
    if IsPdf(fileName, u.raw) {
      if !env.pdfSupport {
        return Failure(PdfSupportMissing);
      }
      var pages := env.rasterize(u.raw);
      if pages.None? {
        return Failure(PdfConversionFailed);
      }
      texts, confidences, pageCount := RecognizePages(pages.value, env.ocr);
      assert texts == PageTexts(pages.value, env.ocr);
    } else {
      var image := env.decode(u.raw);
      if image.None? {
        return Failure(CannotReadImage);
      }
      var pre := Preprocess(image.value, MinDim);
      var result := env.ocr(pre);
      if result.None? {
        return Failure(OcrFailed);
      }
      texts := [result.value.text];
      confidences := PageConfidences(result);
      pageCount := 1;
      assert [image.value][..0] == [];
      assert texts == PageTexts([image.value], env.ocr);
    }
    var rep := Score(fileName, fileHash, pageCount, texts, confidences);
    r := Success(rep);
  }
}
