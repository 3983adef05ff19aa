/** The report exporters. The latin-1 "replace" re-encoding is a function on
    strings; the DOCX and PDF documents are objects built call by call, kept
    here as the sequence of blocks (DOCX) or placed items (PDF) the calls
    produce. Whether the library completes the document and writes the file is
    given as a parameter. */
module Export {
  import opened PyStr

  // ---------------------------------------------------------------------------
  // latin-1 re-encoding

  predicate IsLatin1(s: string) {
    forall i :: 0 <= i < |s| ==> s[i] as int <= 0xFF
  }

  /** One character of `s.encode('latin-1', 'replace').decode('latin-1')`. */
  function Latin1Char(c: char): char {
    if c as int <= 0xFF then c else '?'
  }

  /** `s.encode('latin-1', 'replace').decode('latin-1')`: the replacement is
      made character by character, so the length is kept. */
  function Latin1Replace(s: string): (r: string)
    ensures |r| == |s|
  {
    seq(|s|, i requires 0 <= i < |s| => Latin1Char(s[i]))
  }

  /** Code points up to 255 are kept, every other becomes `?`; the result is
      pure latin-1; it is the identity exactly on latin-1 strings; and doing
      it twice is doing it once. */
  lemma Latin1ReplaceMeaning(s: string)
    ensures forall i :: 0 <= i < |s| ==>
              Latin1Replace(s)[i] == (if s[i] as int <= 0xFF then s[i] else '?')
    ensures IsLatin1(Latin1Replace(s))
    ensures Latin1Replace(s) == s <==> IsLatin1(s)
    ensures Latin1Replace(Latin1Replace(s)) == Latin1Replace(s)
  {
    var r := Latin1Replace(s);
    if r == s {
      forall i | 0 <= i < |s| ensures s[i] as int <= 0xFF {
        assert r[i] == s[i];
      }
    }
    if IsLatin1(s) {
      assert forall i :: 0 <= i < |s| ==> r[i] == s[i];
    }
    assert forall i :: 0 <= i < |r| ==> Latin1Replace(r)[i] == r[i];
  }

  // ---------------------------------------------------------------------------
  // DOCX

  const ReportTitle := "BookVision Analysis Report"
  const TextHeading := "Full Extracted Text"
  const SummaryHeading := "Summary"
  const SentimentHeading := "Sentiment Analysis"

  datatype Run = Run(text: string, bold: bool)
  datatype Block = Heading(text: string, level: nat) | Paragraph(runs: seq<Run>)

  /** A python-docx document: the blocks of its body, in order. */
  class DocxDocument {
    var blocks: seq<Block>

    /** `Document()`: an empty body. */
    constructor ()
      ensures blocks == []
    {
      blocks := [];
    }

    /** `add_heading(text, level)`. */
    method AddHeading(text: string, level: nat)
      modifies this
      ensures blocks == old(blocks) + [Heading(text, level)]
    {
      blocks := blocks + [Heading(text, level)];
    }

    /** `add_paragraph(text)`: the paragraph gets one run holding `text`, or
        no run at all when `text` is empty (`add_paragraph()`). */
    method AddParagraph(text: string)
      modifies this
      ensures blocks == old(blocks) + [Paragraph(if text == "" then [] else [Run(text, false)])]
    {
      blocks := blocks + [Paragraph(if text == "" then [] else [Run(text, false)])];
    }

    /** `p.add_run(text)` on the last paragraph added. */
    method AddRun(text: string)
      requires |blocks| > 0 && blocks[|blocks| - 1].Paragraph?
      modifies this
      ensures var n := |old(blocks)|;
              blocks == old(blocks)[..n - 1] + [Paragraph(old(blocks)[n - 1].runs + [Run(text, false)])]
    {
      var last := blocks[|blocks| - 1];
      blocks := blocks[..|blocks| - 1] + [Paragraph(last.runs + [Run(text, false)])];
    }

    /** `run.font.bold = True` on the last run of the last paragraph. */
    method SetLastRunBold()
      requires |blocks| > 0 && blocks[|blocks| - 1].Paragraph? && |blocks[|blocks| - 1].runs| > 0
      modifies this
      ensures var n := |old(blocks)|;
              var rs := old(blocks)[n - 1].runs;
              blocks == old(blocks)[..n - 1] + [Paragraph(rs[..|rs| - 1] + [rs[|rs| - 1].(bold := true)])]
    {
      var rs := blocks[|blocks| - 1].runs;
      blocks := blocks[..|blocks| - 1] + [Paragraph(rs[..|rs| - 1] + [rs[|rs| - 1].(bold := true)])];
    }
  }

  /** The paragraph one line of a section becomes: empty when the line is blank,
      otherwise one run holding the whole line, unstripped. */
  function LineParagraph(line: string): Block {
    if AllSpace(line) then Paragraph([]) else Paragraph([Run(line, false)])
  }

  /** One paragraph per line, in order. */
  function LineParagraphs(lines: seq<string>): (ps: seq<Block>)
    ensures |ps| == |lines|
  {
    if lines == [] then []
    else LineParagraphs(lines[..|lines| - 1]) + [LineParagraph(lines[|lines| - 1])]
  }

  /** Paragraph `i` is the paragraph of line `i`. */
  lemma {:induction false} LineParagraphsAt(lines: seq<string>, i: nat)
    requires i < |lines|
    ensures LineParagraphs(lines)[i] == LineParagraph(lines[i])
  {
    if i < |lines| - 1 {
      LineParagraphsAt(lines[..|lines| - 1], i);
    }
  }

  /** A section body: one paragraph per line of `text`. */
  function SectionBody(text: string): seq<Block> {
    LineParagraphs(SplitOn(text, '\n'))
  }

  /** The report around two section bodies: the title, each section's heading
      and body with a blank paragraph after it, and the sentiment section. */
  function Report(textBody: seq<Block>, summaryBody: seq<Block>, sentiment: string): seq<Block> {
    [Heading(ReportTitle, 0), Heading(TextHeading, 1)] + textBody +
    [Paragraph([]), Heading(SummaryHeading, 1)] + summaryBody +
    [Paragraph([]), Heading(SentimentHeading, 1), Paragraph([Run(sentiment, true)])]
  }

  /** The body the DOCX exporter builds. */
  function DocxLayout(extractedText: string, summary: string, sentiment: string): seq<Block> {
    Report(SectionBody(extractedText), SectionBody(summary), sentiment)
  }

  /** One more line, one more paragraph: the line itself when `strip()` leaves
      something of it, an empty paragraph otherwise. */
  lemma {:induction false} LineParagraphsStep(lines: seq<string>, i: nat)
    requires i < |lines|
    ensures LineParagraphs(lines[..i + 1]) ==
            LineParagraphs(lines[..i]) +
            [Paragraph(if Strip(lines[i]) != "" then [Run(lines[i], false)] else [])]
  {
    StripEmptyIffAllSpace(lines[i]);
    PrefixSnoc(lines, i);
  }

  /** `for paragraph_text in text.split('\n')`: one paragraph per line. */
  method AddLineParagraphs(doc: DocxDocument, text: string)
    modifies doc
    ensures doc.blocks == old(doc.blocks) + SectionBody(text)
  {
    AddParagraphPerLine(doc, SplitOn(text, '\n'));
  }

  /** The loop itself: a line that `strip()` leaves something of becomes a
      paragraph holding it, any other line an empty paragraph. */
  method AddParagraphPerLine(doc: DocxDocument, lines: seq<string>)
    modifies doc
    ensures doc.blocks == old(doc.blocks) + LineParagraphs(lines)
  {
    ghost var before := doc.blocks;
    for i := 0 to |lines|
      invariant doc.blocks == before + LineParagraphs(lines[..i])
    {
      var paragraphText := lines[i];
      ghost var p := Paragraph(if Strip(paragraphText) != "" then [Run(paragraphText, false)] else []);
      LineParagraphsStep(lines, i);
      assert before + LineParagraphs(lines[..i + 1]) == (before + LineParagraphs(lines[..i])) + [p];
      ghost var done := doc.blocks;
      if Strip(paragraphText) != "" {
        doc.AddParagraph(paragraphText);
      } else {
        doc.AddParagraph("");
      }
      assert doc.blocks == done + [p];
    }
    assert lines[..|lines|] == lines;
  }

  /** `p = doc.add_paragraph(); run = p.add_run(text); run.font.bold = True`:
      a paragraph holding one bold run of `text`. */
  method AddBoldParagraph(doc: DocxDocument, text: string)
    modifies doc
    ensures doc.blocks == old(doc.blocks) + [Paragraph([Run(text, true)])]
  {
    ghost var before := doc.blocks;
    doc.AddParagraph("");
    assert doc.blocks[..|doc.blocks| - 1] == before && doc.blocks[|doc.blocks| - 1].runs == [];
    doc.AddRun(text);
    assert [] + [Run(text, false)] == [Run(text, false)];
    assert doc.blocks == before + [Paragraph([Run(text, false)])];
    assert doc.blocks[..|doc.blocks| - 1] == before;
    ghost var rs := [Run(text, false)];
    assert rs[..|rs| - 1] + [rs[|rs| - 1].(bold := true)] == [Run(text, true)];
    doc.SetLastRunBold();
  }

  /** The blocks in the order the exporter adds them, one call at a time, make
      up the report. */
  lemma ReportAssembled(textBody: seq<Block>, summaryBody: seq<Block>, sentiment: string)
    ensures (((((((([] + [Heading(ReportTitle, 0)]) + [Heading(TextHeading, 1)]) + textBody) +
            [Paragraph([])]) + [Heading(SummaryHeading, 1)]) + summaryBody) +
            [Paragraph([])]) + [Heading(SentimentHeading, 1)]) + [Paragraph([Run(sentiment, true)])] ==
            Report(textBody, summaryBody, sentiment)
  {
  }

  /** `save_as_docx`: builds the document block by block and saves it. `saves`
      says whether the library gets through building and saving without an
      exception; the result is True exactly then, and only then is a document
      written, with the layout above. */
  method SaveAsDocx(extractedText: string, summary: string, sentiment: string, saves: bool)
    returns (ok: bool, written: Option<seq<Block>>)
    ensures ok == saves
    ensures written == if saves then Some(DocxLayout(extractedText, summary, sentiment)) else None
  {
    var doc := new DocxDocument();
    doc.AddHeading(ReportTitle, 0);
    doc.AddHeading(TextHeading, 1);
    AddLineParagraphs(doc, extractedText);
    doc.AddParagraph("");
    doc.AddHeading(SummaryHeading, 1);
    AddLineParagraphs(doc, summary);
    doc.AddParagraph("");
    doc.AddHeading(SentimentHeading, 1);
    ReportAssembled(SectionBody(extractedText), SectionBody(summary), sentiment);
    AddBoldParagraph(doc, sentiment);
    if !saves {
      return false, None;
    }
    return true, Some(doc.blocks);
  }

  /** The heading texts of a body, with their levels, in order. */
  function Headings(blocks: seq<Block>): seq<(string, nat)> {
    if blocks == [] then [] else HeadingOf(blocks[0]) + Headings(blocks[1..])
  }

  function HeadingOf(b: Block): seq<(string, nat)> {
    match b
    case Heading(t, l) => [(t, l)]
    case Paragraph(_) => []
  }

  lemma {:induction false} HeadingsConcat(a: seq<Block>, b: seq<Block>)
    ensures Headings(a + b) == Headings(a) + Headings(b)
  {
    if a == [] {
      assert a + b == b;
    } else {
      assert (a + b)[0] == a[0];
      assert (a + b)[1..] == a[1..] + b;
      HeadingsConcat(a[1..], b);
      assert Headings(a + b) == HeadingOf(a[0]) + (Headings(a[1..]) + Headings(b));
    }
  }

  lemma {:induction false} NoHeadingsInBody(lines: seq<string>)
    ensures Headings(LineParagraphs(lines)) == []
  {
    if lines != [] {
      var init := lines[..|lines| - 1];
      NoHeadingsInBody(init);
      HeadingsConcat(LineParagraphs(init), [LineParagraph(lines[|lines| - 1])]);
    }
  }

  lemma {:induction false} ReportHeadings(t: seq<Block>, s: seq<Block>, sentiment: string)
    requires Headings(t) == [] && Headings(s) == []
    ensures Headings(Report(t, s, sentiment)) ==
            [(ReportTitle, 0), (TextHeading, 1), (SummaryHeading, 1), (SentimentHeading, 1)]
  {
    var h1 := [Heading(ReportTitle, 0), Heading(TextHeading, 1)];
    var h2 := [Paragraph([]), Heading(SummaryHeading, 1)];
    var h3 := [Paragraph([]), Heading(SentimentHeading, 1), Paragraph([Run(sentiment, true)])];
    assert Report(t, s, sentiment) == h1 + t + h2 + s + h3;
    FixedPiecesHeadings(sentiment);
    HeadingsConcat(h1, t);
    HeadingsConcat(h1 + t, h2);
    HeadingsConcat(h1 + t + h2, s);
    HeadingsConcat(h1 + t + h2 + s, h3);
  }

  lemma {:induction false} FixedPiecesHeadings(sentiment: string)
    ensures Headings([Heading(ReportTitle, 0), Heading(TextHeading, 1)]) == [(ReportTitle, 0), (TextHeading, 1)]
    ensures Headings([Paragraph([]), Heading(SummaryHeading, 1)]) == [(SummaryHeading, 1)]
    ensures Headings([Paragraph([]), Heading(SentimentHeading, 1), Paragraph([Run(sentiment, true)])]) ==
            [(SentimentHeading, 1)]
  {
    var h1 := [Heading(ReportTitle, 0), Heading(TextHeading, 1)];
    var h2 := [Paragraph([]), Heading(SummaryHeading, 1)];
    var h3 := [Paragraph([]), Heading(SentimentHeading, 1), Paragraph([Run(sentiment, true)])];
    assert Headings(h1) == HeadingOf(h1[0]) + Headings(h1[1..]);
    assert Headings(h1[1..]) == HeadingOf(h1[1]) + Headings(h1[2..]);
    assert Headings(h2) == HeadingOf(h2[0]) + Headings(h2[1..]);
    assert Headings(h2[1..]) == HeadingOf(h2[1]) + Headings(h2[2..]);
    assert Headings(h3) == HeadingOf(h3[0]) + Headings(h3[1..]);
    assert Headings(h3[1..]) == HeadingOf(h3[1]) + Headings(h3[2..]);
    assert Headings(h3[2..]) == HeadingOf(h3[2]) + Headings(h3[3..]);
  }

  /** The DOCX headings are the level-0 title and then the three level-1
      sections, in this order, whatever the texts are. */
  lemma {:induction false} DocxHeadings(extractedText: string, summary: string, sentiment: string)
    ensures Headings(DocxLayout(extractedText, summary, sentiment)) ==
            [(ReportTitle, 0), (TextHeading, 1), (SummaryHeading, 1), (SentimentHeading, 1)]
  {
    NoHeadingsInBody(SplitOn(extractedText, '\n'));
    NoHeadingsInBody(SplitOn(summary, '\n'));
    ReportHeadings(SectionBody(extractedText), SectionBody(summary), sentiment);
  }

  /** Where the blocks of the layout sit: the title and the text heading
      first, then one paragraph for each of the `Count('\n') + 1` lines in
      order, a blank paragraph, the summary heading and the summary's line
      paragraphs, another blank paragraph, the sentiment heading, and the
      sentiment as the last block, one bold run. */
  lemma {:induction false} DocxSections(extractedText: string, summary: string, sentiment: string)
    ensures var d, lines := DocxLayout(extractedText, summary, sentiment), SplitOn(extractedText, '\n');
            |lines| == Count(extractedText, '\n') + 1 &&
            |d| == 7 + |lines| + |SplitOn(summary, '\n')| &&
            d[0] == Heading(ReportTitle, 0) && d[1] == Heading(TextHeading, 1) &&
            d[2..2 + |lines|] == SectionBody(extractedText) &&
            (forall i :: 0 <= i < |lines| ==> d[2 + i] == LineParagraph(lines[i])) &&
            d[2 + |lines|] == Paragraph([]) && d[3 + |lines|] == Heading(SummaryHeading, 1) &&
            d[4 + |lines|..|d| - 3] == SectionBody(summary) &&
            d[|d| - 3] == Paragraph([]) && d[|d| - 2] == Heading(SentimentHeading, 1) &&
            d[|d| - 1] == Paragraph([Run(sentiment, true)])
  {
    var lines := SplitOn(extractedText, '\n');
    SplitOnJoin(extractedText, '\n');
    var t := SectionBody(extractedText);
    var d := DocxLayout(extractedText, summary, sentiment);
    ReportShape(t, SectionBody(summary), sentiment);
    forall i | 0 <= i < |lines| ensures d[2 + i] == LineParagraph(lines[i]) {
      assert d[2 + i] == d[2..2 + |t|][i];
      LineParagraphsAt(lines, i);
    }
  }

  /** Where the pieces of the report sit: every one of its blocks is located. */
  lemma {:induction false} ReportShape(t: seq<Block>, s: seq<Block>, sentiment: string)
    ensures var d := Report(t, s, sentiment);
            |d| == 7 + |t| + |s| &&
            d[0] == Heading(ReportTitle, 0) && d[1] == Heading(TextHeading, 1) &&
            d[2..2 + |t|] == t && d[2 + |t|] == Paragraph([]) && d[3 + |t|] == Heading(SummaryHeading, 1) &&
            d[4 + |t|..|d| - 3] == s && d[|d| - 3] == Paragraph([]) &&
            d[|d| - 2] == Heading(SentimentHeading, 1) && d[|d| - 1] == Paragraph([Run(sentiment, true)])
  {
  }

  /** The text of a list of runs: their texts run together. */
  function RunsText(rs: seq<Run>): string {
    if rs == [] then "" else RunsText(rs[..|rs| - 1]) + rs[|rs| - 1].text
  }

  /** The text a block shows. */
  function BlockText(b: Block): string {
    match b
    case Heading(t, _) => t
    case Paragraph(rs) => RunsText(rs)
  }

  function Texts(blocks: seq<Block>): (ts: seq<string>)
    ensures |ts| == |blocks|
  {
    seq(|blocks|, i requires 0 <= i < |blocks| => BlockText(blocks[i]))
  }

  /** A whitespace-only line shows as an empty paragraph and any other line as
      itself, unstripped. */
  lemma LineParagraphText(line: string)
    ensures BlockText(LineParagraph(line)) == if AllSpace(line) then "" else line
  {
    if !AllSpace(line) {
      var rs := [Run(line, false)];
      assert rs[..0] == [];
      assert RunsText(rs) == "" + line == line;
    }
  }

  /** Line by line, a section shows its text with whitespace-only lines
      emptied. */
  lemma SectionBodyTexts(text: string)
    ensures forall i :: 0 <= i < |SplitOn(text, '\n')| ==>
              Texts(SectionBody(text))[i] ==
              (if AllSpace(SplitOn(text, '\n')[i]) then "" else SplitOn(text, '\n')[i])
  {
    var lines := SplitOn(text, '\n');
    var ts := Texts(SectionBody(text));
    forall i | 0 <= i < |lines|
      ensures ts[i] == if AllSpace(lines[i]) then "" else lines[i]
    {
      LineParagraphsAt(lines, i);
      LineParagraphText(lines[i]);
    }
  }

  /** When no line is whitespace-only without being empty, the paragraph texts
      of a section joined with newlines give its text back. */
  lemma SectionBodyRoundTrip(text: string)
    requires forall l :: l in SplitOn(text, '\n') ==> l == "" || !AllSpace(l)
    ensures Join("\n", Texts(SectionBody(text))) == text
  {
    var lines := SplitOn(text, '\n');
    var ts := Texts(SectionBody(text));
    assert ts == lines by {
      SectionBodyTexts(text);
      forall i | 0 <= i < |lines| ensures ts[i] == lines[i] {
        assert lines[i] in lines;
      }
    }
    assert Join("\n", lines) == text by { SplitOnJoin(text, '\n'); }
  }

  // ---------------------------------------------------------------------------
  // PDF

  const FontFamily := "Arial"
  const HeadingSize := 16
  const TextSize := 12

  datatype Font = Font(family: string, bold: bool, size: nat)
  datatype Align = Left | Center
  datatype PdfItem =
    | Cell(text: string, font: Font, align: Align)   // `cell(..., txt, ..., align)`
    | MultiCell(text: string, font: Font)            // `multi_cell(..., txt=...)`
    | LineBreak                                      // `ln(h)`

  /** An FPDF document: the pages opened by `add_page`, the automatic page
      break switch, the current font, and what has been placed. Pages that
      the automatic page break adds while text is placed are not counted. */
  class PdfWriter {
    var addedPages: nat
    var autoPageBreak: bool
    var font: Option<Font>
    var items: seq<PdfItem>

    /** `FPDF()`: no page, automatic page break on, no font, nothing placed. */
    constructor ()
      ensures addedPages == 0 && autoPageBreak && font == None && items == []
    {
      addedPages, autoPageBreak, font, items := 0, true, None, [];
    }

    /** `add_page()`. */
    method AddPage()
      modifies this
      ensures addedPages == old(addedPages) + 1
      ensures autoPageBreak == old(autoPageBreak) && font == old(font) && items == old(items)
    {
      addedPages := addedPages + 1;
    }

    /** `set_auto_page_break(auto=...)`. */
    method SetAutoPageBreak(auto: bool)
      modifies this
      ensures autoPageBreak == auto
      ensures addedPages == old(addedPages) && font == old(font) && items == old(items)
    {
      autoPageBreak := auto;
    }

    /** `set_font(family, style, size)` with style `'B'` or `''`. */
    method SetFont(family: string, bold: bool, size: nat)
      modifies this
      ensures font == Some(Font(family, bold, size))
      ensures addedPages == old(addedPages) && autoPageBreak == old(autoPageBreak) && items == old(items)
    {
      font := Some(Font(family, bold, size));
    }

    /** `cell(...)`: one line of text in the current font. (A page the
        automatic break adds is not counted in `addedPages`.) */
    method PlaceCell(text: string, align: Align)
      requires font.Some?
      modifies this
      ensures items == old(items) + [Cell(text, old(font).value, align)]
      ensures addedPages == old(addedPages) && autoPageBreak == old(autoPageBreak) && font == old(font)
    {
      items := items + [Cell(text, font.value, align)];
    }

    /** `multi_cell(...)`: a wrapped block of text in the current font. (A
        page the automatic break adds is not counted in `addedPages`.) */
    method PlaceMultiCell(text: string)
      requires font.Some?
      modifies this
      ensures items == old(items) + [MultiCell(text, old(font).value)]
      ensures addedPages == old(addedPages) && autoPageBreak == old(autoPageBreak) && font == old(font)
    {
      items := items + [MultiCell(text, font.value)];
    }

    /** `ln(h)`. */
    method Ln()
      modifies this
      ensures items == old(items) + [LineBreak]
      ensures addedPages == old(addedPages) && autoPageBreak == old(autoPageBreak) && font == old(font)
    {
      items := items + [LineBreak];
    }
  }

  /** A section of the PDF report: its heading cell and its wrapped body. */
  function PdfSection(heading: string, body: string, boldBody: bool): seq<PdfItem> {
    [Cell(heading, Font(FontFamily, true, HeadingSize), Left), MultiCell(body, Font(FontFamily, boldBody, TextSize))]
  }

  /** The items of the PDF report around three section bodies. */
  function PdfReport(textBody: string, summaryBody: string, sentimentBody: string): seq<PdfItem> {
    [Cell(ReportTitle, Font(FontFamily, true, HeadingSize + 2), Center), LineBreak] +
    PdfSection(TextHeading, textBody, false) + [LineBreak] +
    PdfSection(SummaryHeading, summaryBody, false) + [LineBreak] +
    PdfSection(SentimentHeading, sentimentBody, true)
  }

  /** What the PDF exporter places, in order: the bodies re-encoded. */
  function PdfLayout(extractedText: string, summary: string, sentiment: string): seq<PdfItem> {
    PdfReport(Latin1Replace(extractedText), Latin1Replace(summary), Latin1Replace(sentiment))
  }

  /** The items in the order the exporter places them make up the report. */
  lemma PdfAssembled(textBody: string, summaryBody: string, sentimentBody: string)
    ensures (((([] + [Cell(ReportTitle, Font(FontFamily, true, HeadingSize + 2), Center)]) + [LineBreak]) +
            PdfSection(TextHeading, textBody, false) + [LineBreak]) +
            PdfSection(SummaryHeading, summaryBody, false) + [LineBreak]) +
            PdfSection(SentimentHeading, sentimentBody, true) ==
            PdfReport(textBody, summaryBody, sentimentBody)
  {
  }

  /** One section of the PDF report, as the exporter writes each of the three:
      the heading cell in the bold heading font, then the body, re-encoded,
      as a wrapped block in the text font (bold for the sentiment). */
  method PlaceSection(pdf: PdfWriter, heading: string, body: string, boldBody: bool)
    modifies pdf
    ensures pdf.items == old(pdf.items) + PdfSection(heading, Latin1Replace(body), boldBody)
    ensures pdf.font == Some(Font(FontFamily, boldBody, TextSize))
    ensures pdf.addedPages == old(pdf.addedPages) && pdf.autoPageBreak == old(pdf.autoPageBreak)
  {
    pdf.SetFont(FontFamily, true, HeadingSize);
    pdf.PlaceCell(heading, Left);
    pdf.SetFont(FontFamily, boldBody, TextSize);
    var encodedBody := Latin1Replace(body);
    pdf.PlaceMultiCell(encodedBody);
  }

  datatype PdfReportFile = PdfReportFile(addedPages: nat, items: seq<PdfItem>)

  /** `save_as_pdf`: places the title, the three headings and the three
      re-encoded bodies, then writes the file. `saves` says whether the
      library gets through without an exception; the result is True exactly
      then, and only then is a document written: opened with one `add_page`,
      with the layout above. */
  method SaveAsPdf(extractedText: string, summary: string, sentiment: string, saves: bool)
    returns (ok: bool, written: Option<PdfReportFile>)
    ensures ok == saves
    ensures written == if saves then Some(PdfReportFile(1, PdfLayout(extractedText, summary, sentiment))) else None
  {
    var pdf := new PdfWriter();
    pdf.AddPage();
    pdf.SetAutoPageBreak(true);

    pdf.SetFont(FontFamily, true, HeadingSize + 2);
    pdf.PlaceCell(ReportTitle, Center);
    pdf.Ln();

    PlaceSection(pdf, TextHeading, extractedText, false);
    pdf.Ln();
    PlaceSection(pdf, SummaryHeading, summary, false);
    pdf.Ln();
    PlaceSection(pdf, SentimentHeading, sentiment, true);
    PdfAssembled(Latin1Replace(extractedText), Latin1Replace(summary), Latin1Replace(sentiment));

    if !saves {
      return false, None;
    }
    return true, Some(PdfReportFile(pdf.addedPages, pdf.items));
  }

  function HeadingTexts(hs: seq<(string, nat)>): seq<string> {
    if hs == [] then [] else [hs[0].0] + HeadingTexts(hs[1..])
  }

  function CellTexts(items: seq<PdfItem>): seq<string> {
    if items == [] then []
    else (if items[0].Cell? then [items[0].text] else []) + CellTexts(items[1..])
  }

  function BodyTexts(items: seq<PdfItem>): seq<string> {
    if items == [] then []
    else (if items[0].MultiCell? then [items[0].text] else []) + BodyTexts(items[1..])
  }

  lemma TextsConcat(a: seq<PdfItem>, b: seq<PdfItem>)
    ensures CellTexts(a + b) == CellTexts(a) + CellTexts(b)
    ensures BodyTexts(a + b) == BodyTexts(a) + BodyTexts(b)
  {
    CellTextsConcat(a, b);
    BodyTextsConcat(a, b);
  }

  lemma {:induction false} CellTextsConcat(a: seq<PdfItem>, b: seq<PdfItem>)
    ensures CellTexts(a + b) == CellTexts(a) + CellTexts(b)
  {
    if a == [] {
      assert a + b == b;
    } else {
      var ab := a + b;
      assert ab[0] == a[0] && ab[1..] == a[1..] + b;
      CellTextsConcat(a[1..], b);
      var cell := if a[0].Cell? then [a[0].text] else [];
      assert CellTexts(ab) == cell + (CellTexts(a[1..]) + CellTexts(b));
    }
  }

  lemma {:induction false} BodyTextsConcat(a: seq<PdfItem>, b: seq<PdfItem>)
    ensures BodyTexts(a + b) == BodyTexts(a) + BodyTexts(b)
  {
    if a == [] {
      assert a + b == b;
    } else {
      var ab := a + b;
      assert ab[0] == a[0] && ab[1..] == a[1..] + b;
      BodyTextsConcat(a[1..], b);
      var body := if a[0].MultiCell? then [a[0].text] else [];
      assert BodyTexts(ab) == body + (BodyTexts(a[1..]) + BodyTexts(b));
    }
  }

  lemma {:induction false} PdfPiecesTexts(heading: string, body: string, boldBody: bool)
    ensures CellTexts(PdfSection(heading, body, boldBody)) == [heading]
    ensures BodyTexts(PdfSection(heading, body, boldBody)) == [body]
    ensures CellTexts([LineBreak]) == [] && BodyTexts([LineBreak]) == []
    ensures CellTexts([Cell(ReportTitle, Font(FontFamily, true, HeadingSize + 2), Center), LineBreak]) == [ReportTitle]
    ensures BodyTexts([Cell(ReportTitle, Font(FontFamily, true, HeadingSize + 2), Center), LineBreak]) == []
  {
    var sec := PdfSection(heading, body, boldBody);
    assert sec[1..][1..] == [];
    assert CellTexts(sec[1..]) == [] && BodyTexts(sec[1..]) == [body];
    var title := [Cell(ReportTitle, Font(FontFamily, true, HeadingSize + 2), Center), LineBreak];
    assert title[1..] == [LineBreak];
    assert [LineBreak][1..] == [];
  }

  /** The one-line cells of the report are its title and headings, and its
      wrapped blocks are the three bodies, in order. */
  lemma {:induction false} PdfReportTexts(t: string, u: string, v: string)
    ensures CellTexts(PdfReport(t, u, v)) == [ReportTitle, TextHeading, SummaryHeading, SentimentHeading]
    ensures BodyTexts(PdfReport(t, u, v)) == [t, u, v]
  {
    var title := [Cell(ReportTitle, Font(FontFamily, true, HeadingSize + 2), Center), LineBreak];
    var s1, s2, s3 := PdfSection(TextHeading, t, false), PdfSection(SummaryHeading, u, false),
                      PdfSection(SentimentHeading, v, true);
    PdfPiecesTexts(TextHeading, t, false);
    PdfPiecesTexts(SummaryHeading, u, false);
    PdfPiecesTexts(SentimentHeading, v, true);
    TextsConcat(title, s1);
    TextsConcat(title + s1, [LineBreak]);
    TextsConcat(title + s1 + [LineBreak], s2);
    TextsConcat(title + s1 + [LineBreak] + s2, [LineBreak]);
    TextsConcat(title + s1 + [LineBreak] + s2 + [LineBreak], s3);
  }

  lemma {:induction false} ReportHeadingTexts()
    ensures HeadingTexts([(ReportTitle, 0), (TextHeading, 1), (SummaryHeading, 1), (SentimentHeading, 1)]) ==
            [ReportTitle, TextHeading, SummaryHeading, SentimentHeading]
  {
    var hs := [(ReportTitle, 0), (TextHeading, 1), (SummaryHeading, 1), (SentimentHeading, 1)];
    assert HeadingTexts(hs[3..]) == [SentimentHeading];
    assert HeadingTexts(hs[2..]) == [SummaryHeading, SentimentHeading];
    assert HeadingTexts(hs[1..]) == [TextHeading, SummaryHeading, SentimentHeading];
  }

  /** The PDF carries the DOCX's title and section headings in the same order;
      its three bodies are the re-encoded texts, all latin-1, and equal to the
      texts themselves when those are latin-1 already. */
  lemma {:induction false} PdfMatchesDocx(extractedText: string, summary: string, sentiment: string)
    ensures CellTexts(PdfLayout(extractedText, summary, sentiment)) ==
            HeadingTexts(Headings(DocxLayout(extractedText, summary, sentiment)))
    ensures BodyTexts(PdfLayout(extractedText, summary, sentiment)) ==
            [Latin1Replace(extractedText), Latin1Replace(summary), Latin1Replace(sentiment)]
    ensures forall t :: t in BodyTexts(PdfLayout(extractedText, summary, sentiment)) ==> IsLatin1(t)
    ensures IsLatin1(extractedText) && IsLatin1(summary) && IsLatin1(sentiment) ==>
              BodyTexts(PdfLayout(extractedText, summary, sentiment)) == [extractedText, summary, sentiment]
  {
    PdfReportTexts(Latin1Replace(extractedText), Latin1Replace(summary), Latin1Replace(sentiment));
    DocxHeadings(extractedText, summary, sentiment);
    ReportHeadingTexts();
    Latin1ReplaceMeaning(extractedText);
    Latin1ReplaceMeaning(summary);
    Latin1ReplaceMeaning(sentiment);
  }
}
