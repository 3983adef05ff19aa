# BookVision in Dafny

BookVision is a small web application. A user uploads a PDF or an image
and gets back four things:

- the text, either embedded in the file or recognised by OCR;
- an abstractive summary of that text;
- a sentiment label;
- optionally, a DOCX or PDF report of all three.

This project models the core of that pipeline:

- **Text extraction** (`ocr.dfy`, module `Ocr`). A PDF is read page by page.
  Each page keeps its embedded text, or is OCR'd when that text is blank.
  A page that cannot be converted gets a fixed marker. A page that raises
  gets an error marker naming it. The joined result is stripped. A
  standalone image goes through a fallback tree:
  - an image the decoder cannot read is recognised raw;
  - a decoded image is binarised and recognised with a 30-second timeout;
  - an OCR-engine error ends the attempt with a fixed text;
  - any other failure gets one raw retry, and if that fails too, another
    fixed text is returned.
- **Summarisation** (`summary.dfy`, module `Summary`).
  - The text is whitespace-normalised.
  - It is cut into chunks of 4096 characters.
  - Each chunk is summarised on its own. A chunk that raises leaves a
    numbered placeholder. A chunk that yields nothing leaves nothing.
  - The parts are joined with newlines and stripped.
  - Four sentinel texts cover the cases where no summary can be made.
- **Sentiment** (`sentiment.dfy`, module `Sentiment`).
  - Blank text is Neutral.
  - With VADER unavailable, only the TextBlob polarity counts.
  - Otherwise the TextBlob polarity and the VADER compound score are
    averaged.
  - The score is labelled against the threshold ±0.05.
  - Any exception from a scorer gives the error label.
- **Export** (`export.dfy`, module `Export`).
  - The DOCX report is a `DocxDocument` object. Its block list is extended
    in place: a title, then three headed sections. The two text sections
    have one paragraph per line.
  - The PDF report is a `PdfWriter` object. It holds the number of pages
    opened by `add_page`, the automatic page break switch, a current font
    and a list of placed items. Cells give the headings.
    Multi-line cells give the bodies, which are re-encoded to latin-1 with
    `?` replacing other characters.
- **The request path** (`app.dfy`, module `App`): `allowed_file`; the
  PDF / image / unsupported dispatch; the exit on blank extracted text; the
  export choice and the name offered for download; and the download
  route's guard against `..` and a leading `/`.
- `text.dfy` (module `PyStr`) gives the Python string operations the core
  relies on: `str.strip`, `str.split()`, `str.split(sep)`, `sep.join` and
  the decimal rendering of an integer.

Every library the program calls into is a parameter of the model. This covers:

- PyMuPDF, OpenCV, PIL and Tesseract;
- the transformers summariser;
- TextBlob and VADER;
- python-docx and fpdf;
- werkzeug's `secure_filename`.

Each collaborator appears as the outcome it produces: a page's embedded text
and rendering outcome, an OCR attempt's outcome, a summariser answer per chunk,
a score or an exception, and whether an exporter's library calls complete.
Whether the summariser and VADER finished loading at import time is a boolean.

Python's `strip()` is modelled as removing a fixed set of whitespace
characters, the set `IsSpace` lists. A blank test written `not s.strip()` is
stated as `AllSpace(s)`, and `PyStr.StripEmptyIffAllSpace` ties the two
together.

## Model

| member | source | states |
|---|---|---|
| `PyStr.IsSpace` | BookVision/utils/ocr.py:59 | Reference definition of the whitespace that `str.isspace`, `strip()` and `split()` use: the ASCII tab to carriage return, the file, group, record and unit separators, space, U+0085, U+00A0, U+1680, U+2000 to U+200A, U+2028, U+2029, U+202F, U+205F and U+3000. |
| `PyStr.NonSpace` | BookVision/utils/summary.py:33 | Reference definition of the text with every whitespace character dropped: no whitespace is left and the length does not grow. |
| `PyStr.Split` | BookVision/utils/summary.py:33 | `text.split()`: every piece is a word, non-empty and free of whitespace, and the pieces concatenated are exactly the input's non-whitespace characters in order. |
| `PyStr.SplitAtSpace` | BookVision/utils/summary.py:33 | `split()` cuts at every whitespace character: splitting `x + c + y` for whitespace `c` gives the words of `x` followed by the words of `y`. |
| `PyStr.SplitOfWord` | BookVision/utils/summary.py:33 | A word with no whitespace is split into itself alone, so together with `SplitAtSpace` the pieces are the maximal non-whitespace runs. |
| `PyStr.Join` | BookVision/utils/summary.py:33 | Reference definition of `sep.join(parts)`: the parts in order with `sep` between neighbours, the empty text for no parts. |
| `PyStr.JoinContainsPart` | BookVision/utils/summary.py:65 | Every part occurs in the joined text. |
| `PyStr.SplitOn` | BookVision/utils/export.py:25 | `text.split('\n')` always returns at least one part. |
| `PyStr.NatToString` | BookVision/utils/ocr.py:79 | `f"{n}"` for a natural number: at least one character, at least two from 10 on, and every character a decimal digit. |
| `PyStr.Strip` | BookVision/utils/ocr.py:82 | The stripped text begins and ends with a non-whitespace character, or is empty. |
| `PyStr.StripEmptyIffAllSpace` | BookVision/utils/ocr.py:59 | `s.strip()` is empty exactly when every character of `s` is whitespace, which is how every blank check in the program is read. |
| `PyStr.StripBounds` | BookVision/utils/summary.py:65 | The stripped text is a contiguous slice of the original; everything cut off on either side is whitespace. |
| `PyStr.SplitJoin` | BookVision/utils/summary.py:33 | Splitting a space-joined list of words gives back the same words. |
| `PyStr.SplitOnJoin` | BookVision/utils/export.py:25 | `text.split('\n')` has one more part than `text` has newlines, no part holds a newline, and joining the parts with newlines gives `text` back. |
| `PyStr.NatToStringInjective` | BookVision/utils/ocr.py:79 | Different page numbers render to different decimal strings. |
| `Ocr.ErrorMarker` | BookVision/utils/ocr.py:79 | Reference definition of a raising page's marker: `[Error processing page N]` with `N` the page's index plus one. |
| `Ocr.Segment` | BookVision/utils/ocr.py:56-79 | Reference definition of what one page contributes: its embedded text when that is not blank; otherwise the OCR text, the OCR-failed marker for an image that does not decode, or the page's error marker when a step raises. |
| `Ocr.RawText` | BookVision/utils/ocr.py:53-79 | Reference definition of the accumulated text: each page's segment followed by a newline, in page order. |
| `Ocr.PdfText` | BookVision/utils/ocr.py:51-85 | Reference definition of the result: the fixed error text when the document cannot be opened, otherwise the strip of `RawText`. |
| `Ocr.PdfOcrCalls` | BookVision/utils/ocr.py:53-71 | Reference definition of the OCR calls the loop makes: one binarised call with the 60-second timeout for each page that loaded, has blank embedded text and got through rasterising, decoding and preprocessing, in page order. |
| `Ocr.ExtractTextFromPdf` | BookVision/utils/ocr.py:48-85 | The page loop returns the reference text `PdfText`. Its ghost record of OCR calls is `PdfOcrCalls` of the pages, and empty when the document cannot be opened. |
| `Ocr.PdfOcrCallsMeaning` | BookVision/utils/ocr.py:53-71 | Every recorded OCR call is the binarised 60-second call for a page the loop does OCR. The calls name strictly increasing pages. Every page the loop does OCR has its call. |
| `Ocr.RawTextPrefix` | BookVision/utils/ocr.py:76 | The text accumulated over the first pages is a prefix of the text accumulated over all pages: pages only ever append. |
| `Ocr.SegmentsTileRawText` | BookVision/utils/ocr.py:53-79 | Each page contributes exactly one segment plus a newline, at the position where the previous page's segment ended, so the segments tile the accumulated text in order. |
| `Ocr.NonBlankPageKeepsEmbeddedText` | BookVision/utils/ocr.py:57-59 | A page with non-blank embedded text contributes that text unchanged, whatever its rendering would have been, and no recorded OCR call names it. |
| `Ocr.BlankPageContribution` | BookVision/utils/ocr.py:59-79 | A blank page contributes the OCR text when recognition succeeds, the fixed OCR-failed marker when the image does not decode, and its own error marker when any step raises. |
| `Ocr.ErrorMarkersDistinct` | BookVision/utils/ocr.py:77-79 | Two different pages that raise get different error markers. |
| `Ocr.OcrAtMostOncePerPage` | BookVision/utils/ocr.py:53-76 | No two recorded OCR calls name the same page, so there are at most as many calls as pages: PDF pages are never retried. |
| `Ocr.PdfTextShape` | BookVision/utils/ocr.py:51-85 | The result is always stripped; an empty document gives the empty string; a document that cannot be opened gives the fixed error text. |
| `Ocr.ThreePagesMiddleCorrupt` | BookVision/utils/ocr.py:53-82 | For three pages whose middle page fails to load, pages 1 and 3 keep their text and page 2 becomes "[Error processing page 2]", each followed by a newline. |
| `Ocr.RawTextSnoc` | BookVision/utils/ocr.py:76-79 | Appending a page appends exactly its segment and a newline. |
| `Ocr.ExtractTextFromImage` | BookVision/utils/ocr.py:14-45 | There are at most two OCR calls. An unreadable image is recognised raw with no timeout. A decoded image is binarised and recognised with a 30-second timeout. A first success returns its text after one call. An OCR-engine error returns the fixed text with no retry. Any other failure gets a single raw retry with a 30-second timeout, whose text, or else the multiple-attempts text, is returned. The call count is exact: one for a first attempt that reaches the engine, plus one for a retry that does, and that retry call comes last. |
| `Ocr.RetryWithoutOcrCall` | BookVision/utils/ocr.py:14-45 | A retry that fails before it reaches the engine adds no call: after a binarised attempt fails it leaves that one call, and after an unreadable image it leaves none. |
| `Summary.JoinWordsSingleSpaced` | BookVision/utils/summary.py:33 | Joining words with single spaces gives a text whose every space lies between two non-space characters. |
| `Summary.SplitEmptyIffAllSpace` | BookVision/utils/summary.py:33 | `text.split()` is empty exactly when the text is all whitespace. |
| `Summary.Normalize` | BookVision/utils/summary.py:33 | Reference definition of the whitespace normalisation: the words of `text.split()` joined with single spaces. |
| `Summary.NormalizeShape` | BookVision/utils/summary.py:33 | The normalised text has the same words as the input and the same non-whitespace characters in order. It is single-spaced with no whitespace at either end. It is empty exactly when the input is blank. Normalising twice is normalising once. |
| `Summary.Chunks` | BookVision/utils/summary.py:35-38 | There are no chunks exactly when the text is empty. Every chunk is 1 to 4096 characters long. Every chunk but the last is exactly 4096. |
| `Summary.ChunksTail` | BookVision/utils/summary.py:35-38 | A text longer than one chunk yields its first 4096 characters, then the chunks of the rest. |
| `Summary.ChunksConcat` | BookVision/utils/summary.py:35-38 | Concatenating the chunks recovers the normalised text: nothing is lost, duplicated or reordered. |
| `Summary.NonBlankTextHasChunks` | BookVision/utils/summary.py:40-42 | Non-blank text always yields at least one chunk, so the "could not process" branch cannot be reached once the blank check has passed. |
| `Summary.SentinelsStripped` | BookVision/utils/summary.py:25-67 | The four fixed sentinel texts are their own strip. |
| `Summary.Summarize` | BookVision/utils/summary.py:22-67 | Every result of `generate_summary` is stripped and equal to its own strip. |
| `Summary.SummarizeSentinels` | BookVision/utils/summary.py:23-67 | An unavailable summariser gives the unavailable text. Blank text gives the no-content text. Non-blank text gives the stripped newline-join of the per-chunk parts, or the no-summary text when that join is empty. |
| `Summary.ChunkPart` | BookVision/utils/summary.py:56-63 | Reference definition of what one chunk adds: its summary text, nothing for an empty or malformed answer, or `[Error summarizing part N]` with `N` the chunk's index plus one when the summariser raised. |
| `Summary.Parts` | BookVision/utils/summary.py:47-63 | Reference definition of the collected parts: for each chunk in order, its summary text, its numbered placeholder when the summariser raised, or nothing when the answer was empty or malformed. |
| `Summary.PartsPrefix` | BookVision/utils/summary.py:47-63 | The parts collected from the first chunks are a prefix of the parts from all chunks. |
| `Summary.PartsLength` | BookVision/utils/summary.py:47-63 | Each chunk adds at most one part. |
| `Summary.PartsOfChunk` | BookVision/utils/summary.py:47-63 | Chunk `i` adds its summary text, its numbered placeholder when the summariser raised, or nothing when the answer was empty or malformed. A raising chunk's placeholder is among the parts. |
| `Summary.StripKeepsSubstring` | BookVision/utils/summary.py:65 | Stripping keeps every occurrence of a substring that starts and ends with non-whitespace. |
| `Summary.RaisingChunkShowsPlaceholder` | BookVision/utils/summary.py:61-65 | When the summariser raises on chunk `i` of a non-blank text, the final summary contains "[Error summarizing part i+1]". |
| `Summary.SummarizeChunks` | BookVision/utils/summary.py:47-63 | The per-chunk loop collects exactly the reference parts, asking the summariser about every chunk once, in order. |
| `Summary.GenerateSummary` | BookVision/utils/summary.py:22-67 | The method returns the reference summary. The summariser is asked nothing when it is unavailable or the text is blank, and otherwise is asked about exactly the chunks of the normalised text. |
| `Sentiment.LabelText` | BookVision/utils/sentiment.py:8-10 | Each label is rendered as a non-empty string. |
| `Sentiment.LabelTextInjective` | BookVision/utils/sentiment.py:8-10 | Different labels render to different strings, so the returned string identifies the label. |
| `Sentiment.Bucket` | BookVision/utils/sentiment.py:29-31 | Every score gets exactly one of Positive (at least 0.05), Negative (at most -0.05) and Neutral (strictly between), and never the error label. |
| `Sentiment.BucketMonotone` | BookVision/utils/sentiment.py:47-52 | A higher score never gets a lower label in the order Negative, Neutral, Positive. |
| `Sentiment.GetSentiment` | BookVision/utils/sentiment.py:19-56 | Blank text is Neutral. The error label comes exactly when the text is not blank and TextBlob raises, or VADER is available and raises. Without VADER the label is the TextBlob score's bucket. With VADER it is the bucket of the two scores' average. |
| `Sentiment.BlankTextIsNeutral` | BookVision/utils/sentiment.py:20-22 | Blank text is Neutral whatever the scorers would say and whether or not VADER is available; neither scorer is consulted. |
| `Sentiment.FallbackIgnoresVader` | BookVision/utils/sentiment.py:24-34 | Without VADER, what VADER would say makes no difference, and a TextBlob score is bucketed alone. |
| `Sentiment.AgreeingScorers` | BookVision/utils/sentiment.py:44-52 | If both scorers alone would say Positive, or both Negative, the average says the same. Raising either score never lowers the label. |
| `Sentiment.OneOfFourStrings` | BookVision/utils/sentiment.py:19-56 | `get_sentiment` always returns one of "Positive", "Negative", "Neutral" or "Error in sentiment analysis". |
| `Export.Latin1Replace` | BookVision/utils/export.py:72 | Re-encoding replaces characters one for one, so the length is kept. |
| `Export.Latin1ReplaceMeaning` | BookVision/utils/export.py:72 | Each character up to U+00FF is kept and every other becomes `?`. The result is latin-1. Re-encoding leaves a text unchanged exactly when it is latin-1 already. Re-encoding twice is re-encoding once. |
| `Export.DocxDocument.constructor` | BookVision/utils/export.py:20 | A new document holds no blocks. |
| `Export.DocxDocument.AddHeading` | BookVision/utils/export.py:22-24 | Appends one heading at the given level and changes nothing else. |
| `Export.DocxDocument.AddParagraph` | BookVision/utils/export.py:27-32 | Appends one paragraph: one plain run holding the text, or no run at all for `add_paragraph()`. |
| `Export.DocxDocument.AddRun` | BookVision/utils/export.py:46 | Adds one plain run to the end of the last paragraph; every other block is unchanged. |
| `Export.DocxDocument.SetLastRunBold` | BookVision/utils/export.py:47 | Makes the last run of the last paragraph bold and changes nothing else. |
| `Export.LineParagraph` | BookVision/utils/export.py:26-29 | Reference definition of one line's paragraph: a single run holding the whole unstripped line when the line is not blank, otherwise an empty paragraph. |
| `Export.LineParagraphs` | BookVision/utils/export.py:25-30 | There is one paragraph per line. |
| `Export.LineParagraphsAt` | BookVision/utils/export.py:25-30 | Paragraph `i` is line `i`'s paragraph: one run holding the unstripped line when it is not blank, otherwise empty. |
| `Export.AddParagraphPerLine` | BookVision/utils/export.py:25-30 | The per-line loop appends exactly one paragraph per line, in order. |
| `Export.AddLineParagraphs` | BookVision/utils/export.py:35-40 | A section body appends exactly the paragraphs of `text.split('\n')`. |
| `Export.AddBoldParagraph` | BookVision/utils/export.py:45-47 | Appends one paragraph holding a single bold run of the text; the blocks before it are unchanged. |
| `Export.DocxLayout` | BookVision/utils/export.py:20-47 | Reference definition of the DOCX body: the title, the text section, a blank paragraph, the summary section, a blank paragraph, and the sentiment section with its bold paragraph. |
| `Export.SaveAsDocx` | BookVision/utils/export.py:17-55 | Returns True exactly when the library calls complete, and only then is a document written, with exactly the reference layout `DocxLayout`. |
| `Export.HeadingsConcat` | BookVision/utils/export.py:22-44 | The headings of two block lists placed one after the other are the headings of each, in order. |
| `Export.NoHeadingsInBody` | BookVision/utils/export.py:25-40 | The per-line paragraphs of a section hold no heading, whatever the text. |
| `Export.ReportHeadings` | BookVision/utils/export.py:22-47 | For section bodies without headings, the report's headings are the title at level 0, then "Full Extracted Text", "Summary" and "Sentiment Analysis" at level 1. |
| `Export.DocxHeadings` | BookVision/utils/export.py:22-47 | Whatever the three texts, the DOCX report's outline is the title at level 0, then the three sections at level 1, in that order. |
| `Export.DocxSections` | BookVision/utils/export.py:22-48 | Every block of the DOCX body is located. Block 0 is the title at level 0 and block 1 the "Full Extracted Text" heading. Then comes one paragraph per line of the text, `Count('\n') + 1` of them, in order, a blank paragraph, the "Summary" heading and the summary's line paragraphs. The last three blocks are a blank paragraph, the "Sentiment Analysis" heading and the sentiment as a single bold run. |
| `Export.ReportShape` | BookVision/utils/export.py:22-48 | Locates every block of the report around any two bodies: the title and the text heading first, the text body, a blank paragraph and the summary heading, the summary body, then a blank paragraph, the sentiment heading and the bold sentiment paragraph last. The length is 7 plus the bodies' lengths. |
| `Export.Texts` | BookVision/utils/export.py:25-40 | There is one text per block. |
| `Export.LineParagraphText` | BookVision/utils/export.py:26-29 | A line's paragraph reads back as the line itself when the line is not blank, and as empty when it is. |
| `Export.SectionBodyTexts` | BookVision/utils/export.py:25-30 | Paragraph `i` of a section reads back as line `i`, or as empty when that line is blank. |
| `Export.SectionBodyRoundTrip` | BookVision/utils/export.py:25-30 | When no line is whitespace-only without being empty, the section's paragraph texts joined with newlines give the original text back. |
| `Export.PdfWriter.constructor` | BookVision/utils/export.py:60 | A new writer has no page opened by `add_page`, the automatic page break on, as `FPDF()` sets it, no font and no items. |
| `Export.PdfWriter.AddPage` | BookVision/utils/export.py:61 | Counts one more page opened by `add_page` and changes nothing else. |
| `Export.PdfWriter.SetAutoPageBreak` | BookVision/utils/export.py:62 | Sets the automatic page break flag and changes nothing else. |
| `Export.PdfWriter.SetFont` | BookVision/utils/export.py:64 | Sets the current font and changes nothing else. |
| `Export.PdfWriter.PlaceCell` | BookVision/utils/export.py:65 | Appends one cell in the current font with the given alignment. The font, the break switch and the count of `add_page` pages are unchanged. |
| `Export.PdfWriter.PlaceMultiCell` | BookVision/utils/export.py:75 | Appends one wrapped cell in the current font. The font, the break switch and the count of `add_page` pages are unchanged. |
| `Export.PdfWriter.Ln` | BookVision/utils/export.py:66 | Appends one line break and changes nothing else. |
| `Export.PlaceSection` | BookVision/utils/export.py:68-75 | Places one section as the exporter writes each of the three: the heading cell in the bold heading font, then the re-encoded body as a wrapped block in the text font, bold exactly when asked. The font is left at the text font; the pages and the break switch are unchanged. |
| `Export.PdfLayout` | BookVision/utils/export.py:64-95 | Reference definition of what the PDF exporter places: the centred title, a line break, and the three sections with a line break between them, the bodies re-encoded. |
| `Export.SaveAsPdf` | BookVision/utils/export.py:57-102 | Returns True exactly when the library calls complete, and only then is a document written: opened with one `add_page`, with exactly the reference layout `PdfLayout`. |
| `Export.PdfPiecesTexts` | BookVision/utils/export.py:64-95 | Each section of the PDF places one heading cell and one wrapped body; the title block places only the title. |
| `Export.PdfReportTexts` | BookVision/utils/export.py:64-95 | The PDF's cells are the title and the three section headings, in order; its wrapped bodies are the three section texts, in order. |
| `Export.PdfMatchesDocx` | BookVision/utils/export.py:17-102 | The PDF report's headings are the DOCX report's headings, in the same order. Its three bodies are the re-encoded texts and are all latin-1. They equal the input texts when those are latin-1 already. |
| `App.LowerAscii` | BookVision/app.py:41 | Lower-casing keeps the length. |
| `App.AfterLastDot` | BookVision/app.py:41 | `rsplit('.', 1)[1]` is a suffix of the name holding no dot, and it is preceded by a dot whenever the name holds one. |
| `App.AfterLastDotAt` | BookVision/app.py:41 | When the dot at position `j` has no dot after it, `rsplit('.', 1)[1]` is exactly what follows position `j`. |
| `App.AllowedFile` | BookVision/app.py:39-41 | A name is allowed exactly when it holds a dot with no dot after it and the lower-cased text after that dot is one of the extensions. |
| `App.NoDotNotAllowed` | BookVision/app.py:39-41 | A name without a dot is never allowed. |
| `App.AfterLastDotOfExtension` | BookVision/app.py:41 | For `name.ext` with a dot-free `ext`, what follows the last dot is exactly `ext`, whatever `name` holds. |
| `App.AllowedByFinalExtension` | BookVision/app.py:39-41 | `name.ext` is allowed exactly when the lower-cased final extension is in the set, whatever `name` holds, dots included. |
| `App.Classify` | BookVision/app.py:89-98 | An upload is dispatched as a PDF exactly when the PDF check passes, as an image exactly when the image check passes, and is unsupported exactly when neither passes. The two extension sets are disjoint. |
| `App.ClassifyByExtension` | BookVision/app.py:89-98 | `name.ext` with a dot-free `ext` is dispatched as a PDF, an image or unsupported according to the lower-cased `ext` alone. |
| `App.UpperCaseExtensionPasses` | BookVision/app.py:18-41 | "x.PDF" is dispatched as a PDF. |
| `App.DoubleExtensionUsesLast` | BookVision/app.py:18-41 | "a.pdf.png" is dispatched as an image: only the last extension counts. |
| `App.OtherNamesUnsupported` | BookVision/app.py:18-41 | "notes.txt" is unsupported. |
| `App.BareExtensionUnsupported` | BookVision/app.py:39-41 | The dot-free name "pdf" is unsupported: an extension needs its dot. |
| `App.DownloadRejected` | BookVision/app.py:166 | A requested name is refused exactly when two consecutive dots occur anywhere in it or it starts with "/". |
| `App.TraversalNamesRejected` | BookVision/app.py:166-168 | The guard refuses every name starting with "../" or "/". |
| `App.ExportNameDownloadable` | BookVision/app.py:130-168 | An export name built from a base with no "..", no leading "/" and no trailing dot, plus ".pdf" or ".docx", passes the download guard. |
| `PyStr.SplitOnNoSep` | BookVision/utils/export.py:25 | A text without the separator splits into itself alone. |
| `PyStr.SplitOnConcat` | BookVision/utils/export.py:25 | Splitting `x + sep + y` gives the parts of `x` followed by the parts of `y`. |
| `App.TraversalGuardIntended` | BookVision/app.py:166-168 | The guard as evidently intended, refusing a name that starts with "/" or has a ".." path component, refuses "/b", "../b", "a/../b" and "a/.."; it lets through a single component other than ".."; and whatever it refuses the written guard refuses as well. |
| `App.ExportFormat` | BookVision/app.py:129-147 | The PDF is exported exactly when the form says "pdf", the DOCX exactly when it says "docx"; nothing is exported otherwise. |
| `App.ExtractedText` | BookVision/app.py:89-98 | Reference definition of the extracted text: the PDF extractor's text for a PDF upload, the image extractor's for an image. |
| `App.DownloadPath` | BookVision/app.py:125-147 | Reference definition of the offered download name: the sanitised base plus ".pdf" or ".docx" when that format was asked and its exporter succeeded, otherwise none. |
| `App.IndexResponse` | BookVision/app.py:87-155 | Reference definition of the response: a redirect for an unsupported name or blank text, otherwise the rendered page with the text, summary, sentiment and download name. |
| `App.ExtractUploadText` | BookVision/app.py:87-98 | The type error is raised exactly for unsupported names; otherwise the extractor for the dispatched kind supplies the text. |
| `App.ExportResults` | BookVision/app.py:125-147 | The download path is the reference `DownloadPath`. A DOCX is written exactly when "docx" was asked and its exporter succeeded, and a PDF likewise. What is written is the base name plus extension with the reference layout of the three texts, a PDF opened with one `add_page`. |
| `App.Index` | BookVision/app.py:87-155 | The response is the reference `IndexResponse`. The summariser sees nothing on a redirect or when it is unavailable, and otherwise exactly the chunks of the normalised extracted text. A report is written only for a rendered response, exactly when asked for and its exporter succeeds, with the layout of the rendered texts. |
| `App.DispatchedText` | BookVision/app.py:89-107 | An unsupported name redirects. A rendered PDF upload shows the PDF extractor's text. A rendered image upload shows the image extractor's text. |
| `App.BlankTextSkipsAnalysis` | BookVision/app.py:109-118 | Blank extracted text redirects with the no-text reason, whatever the summariser, the scorers, the exporters or the form's format choice would do. |
| `App.ExportChoice` | BookVision/app.py:125-147 | A download name is offered exactly when "pdf" or "docx" was asked and that exporter succeeded. It is then the sanitised base plus the matching extension. A rendered response carries it. |
| `App.OfferedNameDownloadable` | BookVision/app.py:125-168 | The download name offered after a successful export, which a rendered response carries by `App.ExportChoice`, passes the download guard whenever the sanitised base has no "..", no leading "/" and no trailing dot. |
| `App.OwnExportRefused` | BookVision/app.py:125-168 | As written, the guard refuses an export the program itself offers: for the sanitised base "my..report" the offered "my..report.pdf" is refused. Every offered name whose base keeps a ".." is refused. |
| `App.OfferedNamePassesCorrectedGuard` | BookVision/app.py:125-168 | Every offered download name whose sanitised base has no "/" passes the guard as evidently intended, ".." inside the base included. |

## Left out

- HTTP and Flask plumbing are not modelled:
  - the request object, `flash`, `redirect`, `render_template` and `abort`;
  - the error handlers;
  - `send_file` and `app.run`.
  A response is a `Redirect` with its reason, or a `Rendered` page with its
  four values.
- The early POST rejections (`app.py:64-85`), the POST branch with no usable upload (`app.py:156-158`: a flash and a redirect) and the GET branch (`app.py:160`) are not modelled. The model starts after the upload has been saved.
- Several file-system effects are not modelled, because they have no bearing on any returned value:
  - saving the upload;
  - removing it on the two redirects;
  - `os.makedirs`;
  - the existence test.
- A second download check is not modelled. It resolves the path to an absolute one and compares it with the results folder (`app.py:172-177`). It depends on the file system's current directory. The `isfile` test and the 404, 403 and 500 responses depend on the file system too.
- `secure_filename` and `os.path.splitext` are not modelled as code.
  - The upload's name is taken as already sanitised.
  - The sanitised output base is a parameter.
  - `App.OfferedNameDownloadable` states its guarantee under assumptions about that base.
- App.LowerAscii: lower-cases ASCII letters only, unlike Python's full Unicode `str.lower()`. A sanitised name holds only ASCII, so the two agree on every name `allowed_file` sees.
- The libraries' internals are parameters, not models:
  - PyMuPDF's text layer, rasterisation and PNG encoding;
  - OpenCV's decoding and Otsu binarisation;
  - PIL and Tesseract;
  - the transformer model;
  - TextBlob and VADER.
  Their outcomes, including exceptions, are inputs.
- OCR language, DPI and timeout enforcement are not modelled. The timeouts appear only as the values passed to each OCR call, and a timeout counts as an OCR failure.
- Logging is not modelled.
- IEEE-754 arithmetic is not modelled. Scores are Dafny reals, so the threshold tests and the averaging are exact. Rounding near ±0.05 is not captured.
- The summariser's own parameters are not modelled (`max_length`, `min_length`, sampling, the random seed). The answer for each chunk is given as an outcome, so two equal chunks get equal answers.
- Module-level loading of the summariser and the VADER analyser is not modelled as code. It is represented only by the two availability booleans.
- DOCX and PDF formatting is not modelled:
  - paragraph spacing (6 pt);
  - font sizes beyond what `PdfWriter.SetFont` records;
  - cell widths, line heights, alignment of the wrapped cells;
  - the page-break margin of 15 (the margin only; the break switch is recorded);
  - python-docx's handling of tabs and newlines inside runs;
  - fpdf's own output encoding.
  The unused size constant `PDF_SUBHEADING_SIZE` is not modelled either.
- The `except` fallbacks after `encode('latin-1', 'replace')` are not modelled: with the `replace` handler that call cannot raise.
- Export.SaveAsPdf: the written document records only the page opened by `add_page`. The pages fpdf's automatic page break adds while long bodies are placed are not modelled, so the number of pages in the file is not captured.
- Export.PdfWriter.PlaceCell: the automatic page break is not modelled; the writer's count covers `add_page` pages only.
- Export.PdfWriter.PlaceMultiCell: the automatic page break is not modelled; the writer's count covers `add_page` pages only.
- Export.SaveAsDocx and Export.SaveAsPdf do not model where an exception from the document library happens. Any exception is folded into the single `saves` outcome, and the model records the finished document only when it is saved. Nothing partial is written.

## Findings

| source | as written | input that shows it | evidently intended | confidence | as-written member | corrected member |
|---|---|---|---|---|---|---|
| BookVision/app.py:166 | `".." in filename` refuses every name holding two consecutive dots, including an export name the program offers itself (app.py:129-147), since `secure_filename` keeps an inner ".." of the base. | Upload "my..report.pdf" with convert=pdf: the page offers "my..report.pdf", and downloading it is refused with 400. | Refuse only a name that starts with "/" or has ".." as a path component. | not executed | `App.OwnExportRefused` | `App.TraversalGuardIntended`, `App.OfferedNamePassesCorrectedGuard` |
