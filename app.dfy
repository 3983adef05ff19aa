/** The web front end's request path for an uploaded file: the extension
    check, the PDF / image / unsupported dispatch, the exit on blank extracted
    text, the summary and sentiment, the optional export and the name offered
    for download; and the download route's guard on requested names. The
    uploaded file's name is taken as already passed through `secure_filename`;
    what the collaborators do (text extraction inputs, the models, the
    exporters' library calls, `secure_filename` of the base name) is given
    as parameters. */
module App {
  import opened PyStr
  import Ocr
  import Summary
  import Sentiment
  import Export

  const PdfExtensions: set<string> := {"pdf"}
  const ImageExtensions: set<string> := {"png", "jpg", "jpeg", "gif", "bmp", "tiff"}

  // ---------------------------------------------------------------------------
  // The extension check

  /** `str.lower()` on the characters a sanitised file name can hold. */
  function LowerAscii(s: string): (r: string)
    ensures |r| == |s|
  {
    seq(|s|, i requires 0 <= i < |s| => if 'A' <= s[i] <= 'Z' then (s[i] as int + 32) as char else s[i])
  }

  /** `s.rsplit('.', 1)[1]` when `s` holds a dot: what follows the last dot. */
  function AfterLastDot(s: string): (r: string)
    ensures |r| <= |s| && r == s[|s| - |r|..]
    ensures '.' !in r
    ensures '.' in s ==> |r| < |s| && s[|s| - |r| - 1] == '.'
  {
    if s == [] then []
    else if s[|s| - 1] == '.' then []
    else
      var last := AfterLastDot(s[..|s| - 1]);
      AfterLastDotSnoc(s, last);
      last + [s[|s| - 1]]
  }

  /** The step of `AfterLastDot`: a last character that is not a dot extends
      what follows the last dot of the rest. */
  lemma AfterLastDotSnoc(s: string, last: string)
    requires s != [] && s[|s| - 1] != '.'
    requires var init := s[..|s| - 1];
             |last| <= |init| && last == init[|init| - |last|..] && '.' !in last &&
             ('.' in init ==> |last| < |init| && init[|init| - |last| - 1] == '.')
    ensures var r := last + [s[|s| - 1]];
            |r| <= |s| && r == s[|s| - |r|..] && '.' !in r &&
            ('.' in s ==> |r| < |s| && s[|s| - |r| - 1] == '.')
  {
    var init := s[..|s| - 1];
    assert s == init + [s[|s| - 1]];
    if '.' in s {
      var k :| 0 <= k < |s| && s[k] == '.';
      assert init[k] == '.';
    }
  }

  /** What follows a dot that has no dot after it is what follows the last dot. */
  lemma {:induction false} AfterLastDotAt(s: string, j: nat)
    requires j < |s| && s[j] == '.' && '.' !in s[j + 1..]
    ensures AfterLastDot(s) == s[j + 1..]
    decreases |s|
  {
    if j < |s| - 1 {
      var init := s[..|s| - 1];
      assert s[j + 1..][|s| - j - 2] == s[|s| - 1];
      assert init[j] == '.';
      var tail, sTail := init[j + 1..], s[j + 1..];
      assert '.' !in tail by {
        forall m | 0 <= m < |tail| ensures tail[m] != '.' {
          assert tail[m] == init[j + 1 + m] == s[j + 1 + m] == sTail[m];
        }
      }
      AfterLastDotAt(init, j);
      assert s[j + 1..] == init[j + 1..] + [s[|s| - 1]];
    }
  }

  /** `allowed_file(filename, allowed_extensions)`: the name holds a dot, and
      the lower-cased text after its last dot is one of the extensions. */
  function AllowedFile(filename: string, allowedExtensions: set<string>): (allowed: bool)
    ensures allowed <==>
              exists k :: 0 <= k < |filename| && filename[k] == '.' && '.' !in filename[k + 1..] &&
                          LowerAscii(filename[k + 1..]) in allowedExtensions
  {
    forall j | 0 <= j < |filename| && filename[j] == '.' && '.' !in filename[j + 1..]
      ensures AfterLastDot(filename) == filename[j + 1..]
    {
      AfterLastDotAt(filename, j);
    }
    if '.' in filename then
      var r := AfterLastDot(filename);
      var k := |filename| - |r| - 1;
      assert filename[k] == '.' && filename[k + 1..] == r;
      LowerAscii(r) in allowedExtensions
    else false
  }

  /** A name without a dot is never allowed. */
  lemma NoDotNotAllowed(filename: string, allowedExtensions: set<string>)
    requires '.' !in filename
    ensures !AllowedFile(filename, allowedExtensions)
  {
  }

  /** What follows the last dot is exactly the final extension. */
  lemma {:induction false} AfterLastDotOfExtension(name: string, ext: string)
    requires '.' !in ext
    ensures AfterLastDot(name + "." + ext) == ext
    decreases |ext|
  {
    var s := name + "." + ext;
    if ext == [] {
      assert s[|s| - 1] == '.';
    } else {
      var init := ext[..|ext| - 1];
      assert s[..|s| - 1] == name + "." + init;
      assert '.' !in init by {
        forall k | 0 <= k < |init| ensures init[k] != '.' { assert init[k] == ext[k]; }
      }
      AfterLastDotOfExtension(name, init);
      assert ext == init + [ext[|ext| - 1]];
    }
  }

  /** Only the lower-cased final extension decides: whatever comes before the
      last dot, dots included, plays no part. */
  lemma AllowedByFinalExtension(name: string, ext: string, allowedExtensions: set<string>)
    requires '.' !in ext
    ensures AllowedFile(name + "." + ext, allowedExtensions) <==> LowerAscii(ext) in allowedExtensions
  {
    AfterLastDotOfExtension(name, ext);
    assert (name + "." + ext)[|name|] == '.';
  }

  // ---------------------------------------------------------------------------
  // Dispatch

  datatype Kind = PdfUpload | ImageUpload | Unsupported

  /** The PDF check first, then the image check, otherwise unsupported. The two
      extension sets share nothing, so each kind is taken exactly when its
      own check passes. */
  function Classify(filename: string): (k: Kind)
    ensures k == PdfUpload <==> AllowedFile(filename, PdfExtensions)
    ensures k == ImageUpload <==> AllowedFile(filename, ImageExtensions)
    ensures k == Unsupported <==> !AllowedFile(filename, PdfExtensions) && !AllowedFile(filename, ImageExtensions)
  {
    assert PdfExtensions !! ImageExtensions;
    if AllowedFile(filename, PdfExtensions) then PdfUpload
    else if AllowedFile(filename, ImageExtensions) then ImageUpload
    else Unsupported
  }

  /** A name is classified by its final extension alone. */
  lemma ClassifyByExtension(filename: string, name: string, ext: string)
    requires filename == name + "." + ext && '.' !in ext
    ensures Classify(filename) ==
            if LowerAscii(ext) in PdfExtensions then PdfUpload
            else if LowerAscii(ext) in ImageExtensions then ImageUpload
            else Unsupported
  {
    AllowedByFinalExtension(name, ext, PdfExtensions);
    AllowedByFinalExtension(name, ext, ImageExtensions);
  }

  /** Lower-casing the three extensions of the examples below. */
  lemma LowerExamples()
    ensures LowerAscii("PDF") == "pdf" && LowerAscii("png") == "png" && LowerAscii("txt") == "txt"
  {
    var a, b, c := LowerAscii("PDF"), LowerAscii("png"), LowerAscii("txt");
    assert a[0] == 'p' && a[1] == 'd' && a[2] == 'f';
    assert b[0] == 'p' && b[1] == 'n' && b[2] == 'g';
    assert c[0] == 't' && c[1] == 'x' && c[2] == 't';
  }

  /** Upper-case extensions pass. */
  lemma UpperCaseExtensionPasses()
    ensures Classify("x.PDF") == PdfUpload
  {
    LowerExamples();
    ClassifyByExtension("x.PDF", "x", "PDF");
  }

  /** A double extension is judged by its last part alone. */
  lemma DoubleExtensionUsesLast()
    ensures Classify("a.pdf.png") == ImageUpload
  {
    LowerExamples();
    ClassifyByExtension("a.pdf.png", "a.pdf", "png");
  }

  /** Other extensions are unsupported. */
  lemma OtherNamesUnsupported()
    ensures Classify("notes.txt") == Unsupported
  {
    LowerExamples();
    assert "txt" !in PdfExtensions && "txt" !in ImageExtensions by {
      var t := "txt";
      assert t[0] != "pdf"[0] && t[0] != "png"[0] && t[0] != "jpg"[0] && t[0] != "jpeg"[0];
      assert t[0] != "gif"[0] && t[0] != "bmp"[0] && t[1] != "tiff"[1];
    }
    ClassifyByExtension("notes.txt", "notes", "txt");
  }

  /** A bare extension without a dot is unsupported. */
  lemma BareExtensionUnsupported()
    ensures Classify("pdf") == Unsupported
  {
    assert '.' !in "pdf";
    NoDotNotAllowed("pdf", PdfExtensions);
    NoDotNotAllowed("pdf", ImageExtensions);
  }

  // ---------------------------------------------------------------------------
  // The download guard

  /** `".." in filename or filename.startswith("/")`: the request is refused
      before any path is built. */
  function DownloadRejected(filename: string): (rejected: bool)
    ensures rejected <==>
              (exists i :: 0 <= i < |filename| - 1 && filename[i] == '.' && filename[i + 1] == '.') ||
              (|filename| > 0 && filename[0] == '/')
  {
    var dots := exists i :: 0 <= i < |filename| - 1 && filename[i] == '.' && filename[i + 1] == '.';
    assert Contains(filename, "..") <==> dots by {
      if dots {
        var i :| 0 <= i < |filename| - 1 && filename[i] == '.' && filename[i + 1] == '.';
        assert filename[i..i + 2] == [filename[i], filename[i + 1]];
        assert OccursAt(filename, "..", i);
      }
      if Contains(filename, "..") {
        var i :| 0 <= i <= |filename| - 2 && OccursAt(filename, "..", i);
        assert filename[i] == filename[i..i + 2][0] && filename[i + 1] == filename[i..i + 2][1];
      }
    }
    assert |filename| > 0 ==> filename[..1] == [filename[0]];
    Contains(filename, "..") || StartsWith(filename, "/")
  }

  lemma TraversalNamesRejected(rest: string)
    ensures DownloadRejected("../" + rest)
    ensures DownloadRejected("/" + rest)
  {
    assert OccursAt("../" + rest, "..", 0);
    assert ("/" + rest)[..1] == "/";
  }

  /** An export name built from a base with no `..`, no leading `/` and no
      trailing dot passes the guard. */
  lemma ExportNameDownloadable(base: string, ext: string)
    requires ext == ".pdf" || ext == ".docx"
    requires !Contains(base, "..") && !StartsWith(base, "/")
    requires base == "" || base[|base| - 1] != '.'
    ensures !DownloadRejected(base + ext)
  {
    var n := base + ext;
    forall i | 0 <= i <= |n| - 2 ensures !OccursAt(n, "..", i) {
      if i + 2 <= |base| {
        assert n[i..i + 2] == base[i..i + 2];
        assert !OccursAt(base, "..", i);
      } else if i == |base| - 1 {
        assert n[i..i + 2][0] == base[|base| - 1] != '.';
      } else {
        assert n[i..i + 2][1] == ext[i + 1 - |base|] != '.';
      }
    }
    assert ext[0] == '.';
    if base == "" {
      assert n == ext && n[0] == '.';
    } else {
      assert n[..1] == base[..1];
    }
  }

  /** The guard the download route evidently means: refuse a leading `/` or a
      `..` path component, and nothing else. */
  predicate TraversalRejected(filename: string) {
    StartsWith(filename, "/") || ".." in SplitOn(filename, '/')
  }

  /** The corrected guard still refuses every traversal: a leading `/`, a
      leading, inner or final `..` component. It refuses only names the guard
      as written refuses too, and it lets through every name that holds no
      `/` and is not `..` itself. */
  lemma {:induction false} TraversalGuardIntended(a: string, b: string)
    ensures TraversalRejected("/" + b)
    ensures TraversalRejected("../" + b)
    ensures TraversalRejected(a + "/../" + b)
    ensures TraversalRejected(a + "/..")
    ensures '/' !in a && a != ".." ==> !TraversalRejected(a)
    ensures TraversalRejected(a) ==> DownloadRejected(a)
  {
    assert ("/" + b)[..1] == "/";
    assert '/' !in "..";
    SplitOnNoSep("..", '/');
    assert "../" + b == ".." + ['/'] + b;
    SplitOnConcat("..", b, '/');
    assert a + "/../" + b == a + ['/'] + (".." + ['/'] + b);
    SplitOnConcat(a, ".." + ['/'] + b, '/');
    assert a + "/.." == a + ['/'] + "..";
    SplitOnConcat(a, "..", '/');
    if '/' !in a {
      SplitOnNoSep(a, '/');
    }
    if ".." in SplitOn(a, '/') {
      var parts := SplitOn(a, '/');
      var p :| 0 <= p < |parts| && parts[p] == "..";
      SplitOnJoin(a, '/');
      JoinContainsPart(['/'], parts, p);
    }
  }

  // ---------------------------------------------------------------------------
  // The request path

  /** What the collaborators of one request do: the document or image the
      upload holds as the extractors see it, whether the summariser loaded and
      what it answers per chunk, the sentiment scorers' availability and
      answers, `secure_filename` of the base name, and whether each exporter's
      library calls complete. */
  datatype Collaborators = Collaborators(
    pdf: Ocr.PdfFile,
    image: Ocr.ImageOracle,
    summaryAvailable: bool,
    summarizer: string -> Summary.ChunkOutcome,
    vaderAvailable: bool,
    blob: Sentiment.Score,
    vader: Sentiment.Score,
    outputBase: string,
    pdfSaves: bool,
    docxSaves: bool)

  datatype RedirectReason = UnsupportedFileType | NoTextExtracted

  datatype Response =
    | Redirect(reason: RedirectReason)
    | Rendered(text: string, summary: string, sentiment: string, downloadPath: Option<string>)

  datatype Format = AsPdf | AsDocx

  /** `if convert_format and convert_format != 'none'`, then `'pdf'` or
      `'docx'`; any other value, or none at all, exports nothing. */
  function ExportFormat(convert: Option<string>): (f: Option<Format>)
    ensures f == Some(AsPdf) <==> convert == Some("pdf")
    ensures f == Some(AsDocx) <==> convert == Some("docx")
  {
    match convert
    case None => None
    case Some(v) =>
      if v == "" || v == "none" then None
      else if v == "pdf" then Some(AsPdf)
      else if v == "docx" then Some(AsDocx)
      else None
  }

  /** The text extracted for a dispatched upload. */
  function ExtractedText(kind: Kind, c: Collaborators): string {
    match kind
    case PdfUpload => Ocr.PdfText(c.pdf)
    case ImageUpload => Ocr.ExtractTextFromImage(c.image).text
    case Unsupported => ""
  }

  /** The name offered for download once the analysis is done. */
  function DownloadPath(convert: Option<string>, c: Collaborators): Option<string> {
    match ExportFormat(convert)
    case None => None
    case Some(AsPdf) => if c.pdfSaves then Some(c.outputBase + ".pdf") else None
    case Some(AsDocx) => if c.docxSaves then Some(c.outputBase + ".docx") else None
  }

  /** What the request path answers for an upload named `filename`. */
  function IndexResponse(filename: string, convert: Option<string>, c: Collaborators): Response {
    var kind := Classify(filename);
    var text := ExtractedText(kind, c);
    if kind == Unsupported then Redirect(UnsupportedFileType)
    else if AllSpace(text) then Redirect(NoTextExtracted)
    else
      Rendered(text,
               Summary.Summarize(c.summaryAvailable, text, c.summarizer),
               Sentiment.LabelText(Sentiment.GetSentiment(text, c.vaderAvailable, c.blob, c.vader)),
               DownloadPath(convert, c))
  }

  /** A report file the request path has written. */
  datatype Written =
    | NothingWritten
    | DocxWritten(docxName: string, blocks: seq<Export.Block>)
    | PdfWritten(pdfName: string, file: Export.PdfReportFile)

  /** The dispatch of `index()`: the PDF extractor, the image extractor, or
      the unsupported-type flag. */
  method ExtractUploadText(filename: string, c: Collaborators) returns (textContent: string, fileTypeError: bool)
    ensures fileTypeError <==> Classify(filename) == Unsupported
    ensures textContent == ExtractedText(Classify(filename), c)
  {
    textContent := "";
    fileTypeError := false;
    if AllowedFile(filename, PdfExtensions) {
      ghost var ocrCalls;
      textContent, ocrCalls := Ocr.ExtractTextFromPdf(c.pdf);
    } else if AllowedFile(filename, ImageExtensions) {
      textContent := Ocr.ExtractTextFromImage(c.image).text;
    } else {
      fileTypeError := true;
    }
  }

  /** The export step of `index()`: the exporter the form asks for, and the
      download name when it succeeds. */
  method ExportResults(convert: Option<string>, c: Collaborators,
                       textContent: string, summaryContent: string, sentimentContent: string)
    returns (outputFileRelativePath: Option<string>, ghost written: Written)
    ensures outputFileRelativePath == DownloadPath(convert, c)
    ensures written.DocxWritten? <==> ExportFormat(convert) == Some(AsDocx) && c.docxSaves
    ensures written.PdfWritten? <==> ExportFormat(convert) == Some(AsPdf) && c.pdfSaves
    ensures written.DocxWritten? ==>
              written == DocxWritten(c.outputBase + ".docx", Export.DocxLayout(textContent, summaryContent, sentimentContent))
    ensures written.PdfWritten? ==>
              written == PdfWritten(c.outputBase + ".pdf",
                                    Export.PdfReportFile(1, Export.PdfLayout(textContent, summaryContent, sentimentContent)))
  {
    written := NothingWritten;
    outputFileRelativePath := None;
    if convert.Some? && convert.value != "" && convert.value != "none" {
      var outputFilenameBase := c.outputBase;
      if convert.value == "pdf" {
        var outputFileName := outputFilenameBase + ".pdf";
        var ok, file := Export.SaveAsPdf(textContent, summaryContent, sentimentContent, c.pdfSaves);
        if ok {
          outputFileRelativePath := Some(outputFileName);
          written := PdfWritten(outputFileName, file.value);
        }
      } else if convert.value == "docx" {
        var outputFileName := outputFilenameBase + ".docx";
        var ok, blocks := Export.SaveAsDocx(textContent, summaryContent, sentimentContent, c.docxSaves);
        if ok {
          outputFileRelativePath := Some(outputFileName);
          written := DocxWritten(outputFileName, blocks.value);
        }
      }
    }
  }

  /** `index()` for a POST whose file was saved: dispatch on the extension,
      leave on an unsupported type or on blank extracted text, otherwise
      summarise, label the sentiment and, when asked, export. `written` is the
      report file written; `summaryCalls` are the chunks the summariser saw. */
  method Index(filename: string, convert: Option<string>, c: Collaborators)
    returns (response: Response, ghost written: Written, ghost summaryCalls: seq<string>)
    ensures response == IndexResponse(filename, convert, c)
    ensures summaryCalls ==
            if response.Redirect? || !c.summaryAvailable then []
            else Summary.Chunks(Summary.Normalize(response.text))
    ensures written.DocxWritten? <==> response.Rendered? && ExportFormat(convert) == Some(AsDocx) && c.docxSaves
    ensures written.PdfWritten? <==> response.Rendered? && ExportFormat(convert) == Some(AsPdf) && c.pdfSaves
    ensures written.DocxWritten? ==>
              written == DocxWritten(c.outputBase + ".docx",
                                     Export.DocxLayout(response.text, response.summary, response.sentiment))
    ensures written.PdfWritten? ==>
              written == PdfWritten(c.outputBase + ".pdf",
                                    Export.PdfReportFile(1, Export.PdfLayout(response.text, response.summary, response.sentiment)))
  {
    written, summaryCalls := NothingWritten, [];
    var textContent, fileTypeError := ExtractUploadText(filename, c);
    if fileTypeError {
      return Redirect(UnsupportedFileType), written, summaryCalls;
    }
    StripEmptyIffAllSpace(textContent);
    if Strip(textContent) == "" && !fileTypeError {
      return Redirect(NoTextExtracted), written, summaryCalls;
    }

    var summaryContent;
    summaryContent, summaryCalls := Summary.GenerateSummary(c.summaryAvailable, textContent, c.summarizer);
    var sentimentContent := Sentiment.LabelText(Sentiment.GetSentiment(textContent, c.vaderAvailable, c.blob, c.vader));
    var outputFileRelativePath;
    outputFileRelativePath, written := ExportResults(convert, c, textContent, summaryContent, sentimentContent);
    response := Rendered(textContent, summaryContent, sentimentContent, outputFileRelativePath);
  }

  /** An unsupported extension ends the request before any extraction; a PDF
      is read by the PDF extractor and an image by the image extractor. */
  lemma DispatchedText(filename: string, convert: Option<string>, c: Collaborators)
    ensures Classify(filename) == Unsupported ==> IndexResponse(filename, convert, c) == Redirect(UnsupportedFileType)
    ensures Classify(filename) == PdfUpload && IndexResponse(filename, convert, c).Rendered? ==>
              IndexResponse(filename, convert, c).text == Ocr.PdfText(c.pdf)
    ensures Classify(filename) == ImageUpload && IndexResponse(filename, convert, c).Rendered? ==>
              IndexResponse(filename, convert, c).text == Ocr.ExtractTextFromImage(c.image).text
  {
  }

  /** On blank extracted text the request ends with the no-text redirect, and
      what the summariser, the scorers or the exporters would do makes no
      difference: none of them is asked. */
  lemma BlankTextSkipsAnalysis(filename: string, convert: Option<string>, c: Collaborators,
                               other: Collaborators, otherConvert: Option<string>)
    requires Classify(filename) != Unsupported
    requires AllSpace(ExtractedText(Classify(filename), c))
    requires other.pdf == c.pdf && other.image == c.image
    ensures IndexResponse(filename, convert, c) == Redirect(NoTextExtracted)
    ensures IndexResponse(filename, otherConvert, other) == Redirect(NoTextExtracted)
  {
  }

  /** A download name is offered exactly when `pdf` or `docx` was asked for and
      that exporter succeeded; it is the sanitised base name with the format's
      extension. A rendered response carries this name. */
  lemma ExportChoice(filename: string, convert: Option<string>, c: Collaborators)
    ensures var p := DownloadPath(convert, c);
            (p == Some(c.outputBase + ".pdf") && convert == Some("pdf")) ||
            (p == Some(c.outputBase + ".docx") && convert == Some("docx")) ||
            p == None
    ensures DownloadPath(convert, c).Some? <==>
            (convert == Some("pdf") && c.pdfSaves) || (convert == Some("docx") && c.docxSaves)
    ensures IndexResponse(filename, convert, c).Rendered? ==>
            IndexResponse(filename, convert, c).downloadPath == DownloadPath(convert, c)
  {
  }

  /** The download name offered after an export passes the download guard
      whenever the sanitised base holds no `..`, does not start with `/` and
      does not end with a dot. */
  lemma OfferedNameDownloadable(convert: Option<string>, c: Collaborators)
    requires DownloadPath(convert, c).Some?
    requires !Contains(c.outputBase, "..") && !StartsWith(c.outputBase, "/")
    requires c.outputBase == "" || c.outputBase[|c.outputBase| - 1] != '.'
    ensures !DownloadRejected(DownloadPath(convert, c).value)
  {
    if ExportFormat(convert) == Some(AsPdf) {
      ExportNameDownloadable(c.outputBase, ".pdf");
    } else {
      ExportNameDownloadable(c.outputBase, ".docx");
    }
  }

  /** The program refuses its own export: an upload `my..report.pdf` keeps its
      inner `..` through `secure_filename`, so the name offered for its PDF
      report is `my..report.pdf`, which the download guard refuses. So is
      every offered name whose sanitised base holds `..`. */
  lemma OwnExportRefused(c: Collaborators)
    ensures c.outputBase == "my..report" && c.pdfSaves ==>
              DownloadPath(Some("pdf"), c) == Some("my..report.pdf") &&
              DownloadRejected("my..report.pdf")
    ensures Contains(c.outputBase, "..") && DownloadPath(Some("pdf"), c).Some? ==>
              DownloadRejected(DownloadPath(Some("pdf"), c).value)
  {
    var n := "my..report.pdf";
    assert n[2] == '.' && n[3] == '.';
    assert ExportFormat(Some("pdf")) == Some(AsPdf);
    assert "my..report" + ".pdf" == n;
    if Contains(c.outputBase, "..") {
      var i :| 0 <= i <= |c.outputBase| - 2 && OccursAt(c.outputBase, "..", i);
      var m := c.outputBase + ".pdf";
      assert m[i] == c.outputBase[i..i + 2][0] && m[i + 1] == c.outputBase[i..i + 2][1];
    }
  }

  /** Under the corrected guard every offered name is downloadable: the
      sanitised base holds no `/`, so neither does the name. */
  lemma OfferedNamePassesCorrectedGuard(convert: Option<string>, c: Collaborators)
    requires DownloadPath(convert, c).Some?
    requires '/' !in c.outputBase
    ensures !TraversalRejected(DownloadPath(convert, c).value)
  {
    var ext := if ExportFormat(convert) == Some(AsPdf) then ".pdf" else ".docx";
    var n := c.outputBase + ext;
    assert n == DownloadPath(convert, c).value;
    assert '/' !in n by {
      forall i | 0 <= i < |n| ensures n[i] != '/' {
        if i < |c.outputBase| { assert n[i] == c.outputBase[i]; } else { assert n[i] == ext[i - |c.outputBase|]; }
      }
    }
    assert n != ".." by { assert |n| >= 4; }
    TraversalGuardIntended(n, "");
  }
}
