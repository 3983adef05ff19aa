/** Text extraction: embedded text or OCR for each page of a PDF, and the
    fallback tiers of OCR for a standalone image. The PDF library, the image
    decoder, the binarisation and the OCR engine are collaborators: each call
    into them is given here as its outcome. */
module Ocr {
  import opened PyStr

  const OpenErrorText := "Error extracting text from PDF."
  const OcrFailedText := "[OCR failed for this page]"
  const TesseractErrorText := "Error during Tesseract OCR processing."
  const MultipleAttemptsText := "Error extracting text from image after multiple attempts."

  /** OCR timeouts, in seconds. */
  const ImageOcrTimeout := 30
  const PdfPageOcrTimeout := 60

  // ---------------------------------------------------------------------------
  // PDF pages

  /** What happens to a page whose embedded text is blank: it is rasterised at
      300 dpi, decoded, grayscaled and binarised, then recognised. */
  datatype Rendering =
    | RenderRaises            // rasterising or encoding the page raised
    | Undecodable             // the decoder returned no image
    | PreprocessRaises        // grayscale or threshold conversion raised
    | OcrRaises               // the OCR engine raised (a timeout included)
    | OcrText(text: string)   // the OCR engine returned this text

  /** One page, as the PDF library presents it. */
  datatype Page =
    | LoadRaises                                     // loading the page or reading its text raised
    | Loaded(embedded: string, rendering: Rendering) // `rendering` is consulted only if `embedded` is blank

  datatype PdfFile = OpenFails | Opened(pages: seq<Page>)

  /** The marker of a page that raised; `index` counts from 0, the marker from 1. */
  function ErrorMarker(index: nat): string {
    "[Error processing page " + NatToString(index + 1) + "]"
  }

  /** The one text a page contributes to the document, before its newline.
      (The program tests `strip()` for emptiness; `StripEmptyIffAllSpace` shows
      that is the same as the text being all whitespace.) */
  function Segment(page: Page, index: nat): string {
    match page
    case LoadRaises => ErrorMarker(index)
    case Loaded(embedded, rendering) =>
      if !AllSpace(embedded) then embedded
      else
        match rendering
        case RenderRaises => ErrorMarker(index)
        case Undecodable => OcrFailedText
        case PreprocessRaises => ErrorMarker(index)
        case OcrRaises => ErrorMarker(index)
        case OcrText(text) => text
  }

  /** Whether the page loop calls the OCR engine for a page: the page loaded,
      its embedded text is blank, and rasterising, decoding and preprocessing
      all got through. */
  predicate PageOcrd(page: Page) {
    page.Loaded? && AllSpace(page.embedded) && (page.rendering.OcrRaises? || page.rendering.OcrText?)
  }

  /** One OCR call made for a PDF page: the page's index and the call. */
  datatype PageOcrCall = PageOcrCall(page: nat, call: OcrCall)

  /** A PDF page is recognised binarised, with the page timeout. */
  const PdfPageCall := OcrCall(BinarisedImage, Seconds(PdfPageOcrTimeout))

  /** The OCR calls the page loop makes, in page order. */
  function PdfOcrCalls(pages: seq<Page>): seq<PageOcrCall> {
    if pages == [] then []
    else PdfOcrCalls(pages[..|pages| - 1]) +
         (if PageOcrd(pages[|pages| - 1]) then [PageOcrCall(|pages| - 1, PdfPageCall)] else [])
  }

  /** The accumulated text before the final strip: each page's segment followed
      by a newline, in page order. */
  function RawText(pages: seq<Page>): string {
    if pages == [] then ""
    else RawText(pages[..|pages| - 1]) + Segment(pages[|pages| - 1], |pages| - 1) + "\n"
  }

  /** What extracting the text of a PDF returns. */
  function PdfText(pdf: PdfFile): string {
    match pdf
    case OpenFails => OpenErrorText
    case Opened(pages) => Strip(RawText(pages))
  }

  /** The page loop: each page resolves to one segment, a page that raises to
      its error marker (any text read from it so far is dropped); the result is
      stripped. */
  method ExtractTextFromPdf(pdf: PdfFile) returns (text: string, ghost ocrCalls: seq<PageOcrCall>)
    ensures text == PdfText(pdf)
    ensures ocrCalls == if pdf.OpenFails? then [] else PdfOcrCalls(pdf.pages)
  {
    var fullText := "";
    ocrCalls := [];
    if pdf.OpenFails? {
      return OpenErrorText, ocrCalls;
    }
    var pages := pdf.pages;
    for pageNum := 0 to |pages|
      invariant fullText == RawText(pages[..pageNum])
      invariant ocrCalls == PdfOcrCalls(pages[..pageNum])
    {
      var page := pages[pageNum];
      var pageTextContent := "";
      var raised := false;
      if page.LoadRaises? {
        raised := true;
      } else {
        pageTextContent := page.embedded;
        StripEmptyIffAllSpace(pageTextContent);
        if Strip(pageTextContent) == "" {
          match page.rendering {
            case RenderRaises => raised := true;
            case Undecodable => pageTextContent := OcrFailedText;
            case PreprocessRaises => raised := true;
            case OcrRaises =>
              ocrCalls := ocrCalls + [PageOcrCall(pageNum, PdfPageCall)];
              raised := true;
            case OcrText(t) =>
              ocrCalls := ocrCalls + [PageOcrCall(pageNum, PdfPageCall)];
              pageTextContent := t;
          }
        }
      }
      if raised {
        fullText := fullText + ErrorMarker(pageNum) + "\n";
      } else {
        fullText := fullText + pageTextContent + "\n";
      }
      PageLoopStep(pages, pageNum);
    }
    assert pages[..|pages|] == pages;
    text := Strip(fullText);
  }

  /** One more page: its segment and its OCR call, if any, follow those of the
      pages before it. */
  lemma PageLoopStep(pages: seq<Page>, i: nat)
    requires i < |pages|
    ensures RawText(pages[..i + 1]) == RawText(pages[..i]) + Segment(pages[i], i) + "\n"
    ensures PdfOcrCalls(pages[..i + 1]) ==
            PdfOcrCalls(pages[..i]) + (if PageOcrd(pages[i]) then [PageOcrCall(i, PdfPageCall)] else [])
  {
    assert pages[..i + 1][..i] == pages[..i];
  }

  /** Where the segment of page `k` starts in the accumulated text. */
  function SegmentStart(pages: seq<Page>, k: nat): nat
    requires k <= |pages|
  {
    |RawText(pages[..k])|
  }

  /** The accumulated text of the first pages is a prefix of the whole. */
  lemma {:induction false} RawTextPrefix(pages: seq<Page>, m: nat)
    requires m <= |pages|
    ensures |RawText(pages[..m])| <= |RawText(pages)|
    ensures RawText(pages)[..|RawText(pages[..m])|] == RawText(pages[..m])
    decreases |pages| - m
  {
    if m == |pages| {
      assert pages[..m] == pages;
    } else {
      var n := |pages|;
      var init := pages[..n - 1];
      assert init[..m] == pages[..m];
      RawTextPrefix(init, m);
      assert RawText(pages) == RawText(init) + Segment(pages[n - 1], n - 1) + "\n";
    }
  }

  /** Exactly one segment per page, in page order: the segments (each followed
      by a newline) tile the accumulated text from its start to its end. */
  lemma {:induction false} SegmentsTileRawText(pages: seq<Page>, k: nat)
    requires k < |pages|
    ensures SegmentStart(pages, 0) == 0 && SegmentStart(pages, |pages|) == |RawText(pages)|
    ensures SegmentStart(pages, k + 1) == SegmentStart(pages, k) + |Segment(pages[k], k)| + 1
    ensures OccursAt(RawText(pages), Segment(pages[k], k) + "\n", SegmentStart(pages, k))
  {
    assert pages[..0] == [] && pages[..|pages|] == pages;
    SegmentInPlace(pages, k);
  }

  /** The segment of page `k` sits where the text of the pages before it ends. */
  lemma SegmentInPlace(pages: seq<Page>, k: nat)
    requires k < |pages|
    ensures |RawText(pages[..k + 1])| == |RawText(pages[..k])| + |Segment(pages[k], k) + "\n"|
    ensures OccursAt(RawText(pages), Segment(pages[k], k) + "\n", |RawText(pages[..k])|)
  {
    var before, seg := RawText(pages[..k]), Segment(pages[k], k) + "\n";
    assert RawText(pages[..k + 1]) == before + seg by { PageLoopStep(pages, k); }
    RawTextPrefix(pages, k + 1);
    OccursAtEndOfPrefix(RawText(pages), before, seg);
  }

  /** Text that ends a prefix of `whole` occurs in `whole` where it ends that prefix. */
  lemma OccursAtEndOfPrefix(whole: string, before: string, t: string)
    requires |before + t| <= |whole| && whole[..|before + t|] == before + t
    ensures OccursAt(whole, t, |before|)
  {
    assert whole[|before|..|before| + |t|] == (before + t)[|before|..];
  }

  /** A page whose embedded text is not blank contributes that text unchanged,
      whatever rendering it would have had, and the page loop makes no OCR call
      for it. */
  lemma NonBlankPageKeepsEmbeddedText(pages: seq<Page>, k: nat, other: Rendering)
    requires k < |pages| && pages[k].Loaded? && !AllSpace(pages[k].embedded)
    ensures Segment(pages[k], k) == pages[k].embedded
    ensures Segment(Loaded(pages[k].embedded, other), k) == pages[k].embedded
    ensures forall j :: 0 <= j < |PdfOcrCalls(pages)| ==> PdfOcrCalls(pages)[j].page != k
  {
    PdfOcrCallsMeaning(pages);
  }

  /** A page with blank embedded text contributes the OCR text (possibly empty)
      when its image decodes and recognition succeeds, the fixed OCR-failed
      marker when the image does not decode, and its error marker when a step
      raises. */
  lemma BlankPageContribution(embedded: string, rendering: Rendering, index: nat)
    requires AllSpace(embedded)
    ensures rendering.OcrText? ==> Segment(Loaded(embedded, rendering), index) == rendering.text
    ensures rendering.Undecodable? ==> Segment(Loaded(embedded, rendering), index) == OcrFailedText
    ensures (rendering.RenderRaises? || rendering.PreprocessRaises? || rendering.OcrRaises?) ==>
              Segment(Loaded(embedded, rendering), index) == ErrorMarker(index)
  {
  }

  /** Pages that raise get markers that name them: distinct pages, distinct markers. */
  lemma {:induction false} ErrorMarkersDistinct(i: nat, j: nat)
    requires i != j
    ensures ErrorMarker(i) != ErrorMarker(j)
  {
    var prefix := "[Error processing page ";
    var a, b := NatToString(i + 1), NatToString(j + 1);
    if ErrorMarker(i) == ErrorMarker(j) {
      assert |a| == |b|;
      assert ErrorMarker(i)[|prefix|..|prefix| + |a|] == a;
      assert ErrorMarker(j)[|prefix|..|prefix| + |b|] == b;
      NatToStringInjective(i + 1, j + 1);
    }
  }

  /** The OCR call record: every call is the binarised, 60-second call for a
      page the loop does OCR, the calls go in strictly increasing page order,
      and every page the loop does OCR has its call. */
  lemma {:induction false} PdfOcrCallsMeaning(pages: seq<Page>)
    ensures var cs := PdfOcrCalls(pages);
            forall j :: 0 <= j < |cs| ==> cs[j].call == PdfPageCall && cs[j].page < |pages| && PageOcrd(pages[cs[j].page])
    ensures var cs := PdfOcrCalls(pages);
            forall j, k :: 0 <= j < k < |cs| ==> cs[j].page < cs[k].page
    ensures var cs := PdfOcrCalls(pages);
            forall i :: 0 <= i < |pages| && PageOcrd(pages[i]) ==> exists j :: 0 <= j < |cs| && cs[j].page == i
  {
    if pages != [] {
      var n := |pages|;
      var init := pages[..n - 1];
      PdfOcrCallsMeaning(init);
      var ci, cs := PdfOcrCalls(init), PdfOcrCalls(pages);
      assert cs[..|ci|] == ci;
      forall j | 0 <= j < |cs|
        ensures cs[j].call == PdfPageCall && cs[j].page < n && PageOcrd(pages[cs[j].page])
      {
        if j < |ci| {
          assert cs[j] == ci[j];
          assert pages[ci[j].page] == init[ci[j].page];
        }
      }
      forall i | 0 <= i < n && PageOcrd(pages[i])
        ensures exists j :: 0 <= j < |cs| && cs[j].page == i
      {
        if i < n - 1 {
          assert init[i] == pages[i];
          var j :| 0 <= j < |ci| && ci[j].page == i;
          assert cs[j] == ci[j];
        } else {
          assert cs[|cs| - 1].page == i;
        }
      }
    }
  }

  /** OCR runs at most once per page: there is no retry for PDF pages, so the
      loop never makes more OCR calls than there are pages, and no two calls
      are for the same page. */
  lemma {:induction false} OcrAtMostOncePerPage(pages: seq<Page>)
    ensures |PdfOcrCalls(pages)| <= |pages|
    ensures var cs := PdfOcrCalls(pages);
            forall j, k :: 0 <= j < |cs| && 0 <= k < |cs| && j != k ==> cs[j].page != cs[k].page
  {
    PdfOcrCallsMeaning(pages);
    if pages != [] {
      OcrAtMostOncePerPage(pages[..|pages| - 1]);
    }
  }

  /** The result is always stripped; a document without pages gives the empty
      string; a document that cannot be opened gives the fixed error text. */
  lemma {:induction false} PdfTextShape(pdf: PdfFile)
    ensures var t := PdfText(pdf); t == [] || (!IsSpace(t[0]) && !IsSpace(t[|t| - 1]))
    ensures pdf == Opened([]) ==> PdfText(pdf) == ""
    ensures pdf.OpenFails? ==> PdfText(pdf) == OpenErrorText
  {
    if pdf.OpenFails? {
      assert OpenErrorText[0] == 'E';
    assert OpenErrorText[|OpenErrorText| - 1] == '.';
    } else if pdf.pages == [] {
      assert RawText([]) == "";
    }
  }

  /** A three-page document whose second page is corrupt: pages 1 and 3 keep
      their text, page 2 becomes its marker, each followed by a newline. */
  lemma {:induction false} ThreePagesMiddleCorrupt(t1: string, r1: Rendering, t3: string, r3: Rendering)
    requires !AllSpace(t1) && !AllSpace(t3)
    ensures PdfText(Opened([Loaded(t1, r1), LoadRaises, Loaded(t3, r3)])) ==
            Strip(t1 + "\n" + "[Error processing page 2]" + "\n" + t3 + "\n")
  {
    var p1, p2, p3 := Loaded(t1, r1), LoadRaises, Loaded(t3, r3);
    NonBlankPageKeepsEmbeddedText([p1, p2, p3], 0, r1);
    NonBlankPageKeepsEmbeddedText([p1, p2, p3], 2, r3);
    assert ErrorMarker(1) == "[Error processing page 2]" by {
      assert NatToString(2) == "2";
    }
    var marker := "[Error processing page 2]";
    calc {
      RawText([p1, p2, p3]);
      { assert [p1, p2] + [p3] == [p1, p2, p3]; RawTextSnoc([p1, p2], p3); }
      RawText([p1, p2]) + t3 + "\n";
      { assert [p1] + [p2] == [p1, p2]; RawTextSnoc([p1], p2); }
      RawText([p1]) + marker + "\n" + t3 + "\n";
      { assert [] + [p1] == [p1]; RawTextSnoc([], p1); }
      t1 + "\n" + marker + "\n" + t3 + "\n";
    }
  }

  /** Appending a page appends its segment and a newline. */
  lemma RawTextSnoc(pages: seq<Page>, page: Page)
    ensures RawText(pages + [page]) == RawText(pages) + Segment(page, |pages|) + "\n"
  {
    assert (pages + [page])[..|pages|] == pages;
  }

  // ---------------------------------------------------------------------------
  // Standalone images

  /** What the first decoder (the one used before binarisation) does with the file. */
  datatype Read = ReadNone | ReadImage | ReadRaises

  /** The outcome of one OCR attempt: open or preprocess the image, then recognise. */
  datatype Attempt =
    | OpenRaises               // opening or preprocessing the image raised, before any OCR call
    | TesseractErrorRaised     // the OCR engine raised its own error type
    | OcrOtherRaises           // the OCR engine raised anything else (a timeout included)
    | Recognised(text: string) // the OCR engine returned this text
  {
    predicate CallsOcr() { !OpenRaises? }
  }

  datatype OcrInput = RawImage | BinarisedImage
  datatype Timeout = NoTimeout | Seconds(seconds: nat)
  datatype OcrCall = OcrCall(input: OcrInput, timeout: Timeout)

  /** The collaborators' answers for one image: the decoder, the first attempt
      and the fallback attempt (each consulted only if it is reached). */
  datatype ImageOracle = ImageOracle(read: Read, first: Attempt, retry: Attempt)

  /** The returned text and the OCR calls made, in order. */
  datatype ImageRun = ImageRun(text: string, calls: seq<OcrCall>)

  const FallbackCall := OcrCall(RawImage, Seconds(ImageOcrTimeout))

  /** The fallback tree. An image the decoder cannot read goes straight to a
      raw-image OCR call with no timeout; a decoded image is binarised and
      recognised with a timeout. An OCR-engine error ends it with a fixed text;
      any other failure gets one raw-image retry, whose failure ends it with
      another fixed text. */
  function ExtractTextFromImage(o: ImageOracle): (run: ImageRun)
    ensures !o.read.ReadRaises? && o.first.CallsOcr() ==> |run.calls| >= 1
    ensures |run.calls| <= 2
    ensures o.read.ReadNone? && o.first.CallsOcr() ==> run.calls[0] == OcrCall(RawImage, NoTimeout)
    ensures o.read.ReadImage? && o.first.CallsOcr() ==>
              run.calls[0] == OcrCall(BinarisedImage, Seconds(ImageOcrTimeout))
    // the first attempt succeeds: its text, one call
    ensures !o.read.ReadRaises? && o.first.Recognised? ==> run == ImageRun(o.first.text, run.calls) && |run.calls| == 1
    // an OCR-engine error in the first attempt: the fixed text, no retry
    ensures !o.read.ReadRaises? && o.first.TesseractErrorRaised? ==>
              run.text == TesseractErrorText && |run.calls| == 1
    // one call for a first attempt that reaches the engine, one for a retry that does
    ensures |run.calls| ==
              (if o.read.ReadRaises? || !o.first.CallsOcr() then 0 else 1) +
              (if (o.read.ReadRaises? || o.first.OpenRaises? || o.first.OcrOtherRaises?) && o.retry.CallsOcr()
               then 1 else 0)
    // any other failure: the retry decides, and its call, if any, comes last
    ensures (o.read.ReadRaises? || o.first.OpenRaises? || o.first.OcrOtherRaises?) ==>
              && run.text == (if o.retry.Recognised? then o.retry.text else MultipleAttemptsText)
              && (o.retry.CallsOcr() ==> run.calls[|run.calls| - 1] == FallbackCall)
  {
    var firstCalls :=
      match o.read
      case ReadRaises => []
      case ReadNone => if o.first.CallsOcr() then [OcrCall(RawImage, NoTimeout)] else []
      case ReadImage => if o.first.CallsOcr() then [OcrCall(BinarisedImage, Seconds(ImageOcrTimeout))] else [];
    var first := if o.read.ReadRaises? then OpenRaises else o.first;
    match first
    case Recognised(text) => ImageRun(text, firstCalls)
    case TesseractErrorRaised => ImageRun(TesseractErrorText, firstCalls)
    case _ =>
      var retryCalls := if o.retry.CallsOcr() then [FallbackCall] else [];
      ImageRun(if o.retry.Recognised? then o.retry.text else MultipleAttemptsText, firstCalls + retryCalls)
  }

  /** When the retry fails before it reaches the engine, only the first
      attempt's call is made, or none at all when the image could not even be
      read. */
  lemma RetryWithoutOcrCall(first: Attempt)
    ensures ExtractTextFromImage(ImageOracle(ReadImage, OcrOtherRaises, OpenRaises)) ==
            ImageRun(MultipleAttemptsText, [OcrCall(BinarisedImage, Seconds(ImageOcrTimeout))])
    ensures ExtractTextFromImage(ImageOracle(ReadRaises, first, OpenRaises)) == ImageRun(MultipleAttemptsText, [])
  {
  }
}
