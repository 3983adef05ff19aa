/** Summary generation: whitespace normalisation, fixed-size character chunks,
    one call of the summarisation model per chunk with failure isolation, and
    the sentinel texts. The model is a collaborator: its answer for a chunk is
    given as a function of the chunk (decoding is deterministic). */
module Summary {
  import opened PyStr

  const UnavailableText := "Summary generation service is currently unavailable."
  const NoContentText := "No content to summarize."
  const NoChunksText := "Could not process text for summarization."
  const NoSummaryText := "Could not generate a summary for the provided text."

  const MaxChunkSizeTokens := 1024
  /** Characters per chunk: four characters per token. */
  const ChunkSize := MaxChunkSizeTokens * 4

  /** What the model returns for one chunk: a result carrying a summary text, a
      result of any other shape, or an exception. */
  datatype ChunkOutcome = Summarised(summaryText: string) | Unexpected | Raises

  // ---------------------------------------------------------------------------
  // Normalisation

  /** `" ".join(text.split())`. */
  function Normalize(text: string): string {
    Join(" ", Split(text))
  }

  /** Every whitespace character is a plain space, neither first nor last, and
      followed by a non-whitespace character: words separated by single spaces. */
  predicate SingleSpaced(n: string) {
    forall i :: 0 <= i < |n| && IsSpace(n[i]) ==> n[i] == ' ' && 0 < i < |n| - 1 && !IsSpace(n[i + 1])
  }

  lemma {:induction false} JoinWordsSingleSpaced(ws: seq<string>)
    requires forall i :: 0 <= i < |ws| ==> IsWord(ws[i])
    ensures SingleSpaced(Join(" ", ws))
  {
    if |ws| == 1 {
      assert IsWord(ws[0]);
    } else if |ws| > 1 {
      var w, j := ws[0], Join(" ", ws[1..]);
      assert IsWord(w);
      JoinWordsSingleSpaced(ws[1..]);
      JoinOfWordsEdges(ws[1..]);
      var n := Join(" ", ws);
      assert n == w + " " + j;
      forall i | 0 <= i < |n| && IsSpace(n[i])
        ensures n[i] == ' ' && 0 < i < |n| - 1 && !IsSpace(n[i + 1])
      {
        if i == |w| {
          assert n[i + 1] == j[0];
        } else if i > |w| {
          assert n[i] == j[i - |w| - 1];
          assert n[i + 1] == j[i - |w|];
        }
      }
    }
  }

  /** `split()` finds no word exactly when the text is all whitespace. */
  lemma {:induction false} SplitEmptyIffAllSpace(s: string)
    ensures Split(s) == [] <==> AllSpace(s)
    decreases |s|
  {
    if s != [] && IsSpace(s[0]) {
      SplitEmptyIffAllSpace(s[1..]);
      if AllSpace(s[1..]) {
        forall i | 0 <= i < |s| ensures IsSpace(s[i]) {
          if i > 0 { assert s[i] == s[1..][i - 1]; }
        }
      }
    }
  }

  /** The normalised text has no leading or trailing whitespace, its only
      whitespace is single spaces between words, it is empty exactly when the
      input is blank, and normalising it again changes nothing. It has the
      same words as the input and keeps every non-whitespace character, in
      order: only the runs of whitespace change. */
  lemma NormalizeShape(text: string)
    ensures Split(Normalize(text)) == Split(text)
    ensures NonSpace(Normalize(text)) == NonSpace(text)
    ensures SingleSpaced(Normalize(text))
    ensures Normalize(text) == [] || (!IsSpace(Normalize(text)[0]) && !IsSpace(Normalize(text)[|Normalize(text)| - 1]))
    ensures Normalize(text) == [] <==> AllSpace(text)
    ensures Normalize(Normalize(text)) == Normalize(text)
  {
    var ws := Split(text);
    JoinWordsSingleSpaced(ws);
    SplitEmptyIffAllSpace(text);
    if ws != [] {
      JoinOfWordsEdges(ws);
    }
    SplitJoin(ws);
  }

  // ---------------------------------------------------------------------------
  // Chunking

  function Min(a: int, b: int): int { if a <= b then a else b }

  /** `len(range(0, n, ChunkSize))`. */
  function ChunkCount(n: nat): nat {
    (n + ChunkSize - 1) / ChunkSize
  }

  /** `[s[i:i + ChunkSize] for i in range(0, len(s), ChunkSize)]`; the `j`-th
      chunk starts at `j * ChunkSize`, and slicing past the end stops at the end. */
  function Chunks(s: string): (cs: seq<string>)
    ensures |cs| == 0 <==> |s| == 0
    ensures forall j :: 0 <= j < |cs| ==> 0 < |cs[j]| <= ChunkSize
    ensures forall j :: 0 <= j < |cs| - 1 ==> |cs[j]| == ChunkSize
  {
    seq(ChunkCount(|s|), j requires 0 <= j < ChunkCount(|s|) =>
      s[j * ChunkSize .. Min(j * ChunkSize + ChunkSize, |s|)])
  }

  /** A text longer than one chunk: its first chunk, then the chunks of the rest. */
  lemma ChunksTail(s: string)
    requires |s| > ChunkSize
    ensures Chunks(s) == [s[..ChunkSize]] + Chunks(s[ChunkSize..])
  {
    var a, b := Chunks(s), Chunks(s[ChunkSize..]);
    assert ChunkCount(|s|) == 1 + ChunkCount(|s| - ChunkSize);
    assert |a| == |b| + 1;
    assert a[0] == s[..ChunkSize];
    forall j | 0 <= j < |b| ensures a[j + 1] == b[j] {
      var t := s[ChunkSize..];
      var lo := j * ChunkSize;
      var hi := Min(lo + ChunkSize, |t|);
      assert b[j] == t[lo..hi];
      assert (j + 1) * ChunkSize == lo + ChunkSize;
      assert hi + ChunkSize == Min((j + 1) * ChunkSize + ChunkSize, |s|);
      assert a[j + 1] == s[lo + ChunkSize..hi + ChunkSize];
      assert t[lo..hi] == s[lo + ChunkSize..hi + ChunkSize];
    }
    assert a == [a[0]] + a[1..];
  }

  /** The chunks put back together are the text. */
  lemma {:induction false} ChunksConcat(s: string)
    ensures Join("", Chunks(s)) == s
    decreases |s|
  {
    if |s| > ChunkSize {
      ChunksTail(s);
      ChunksConcat(s[ChunkSize..]);
      var rest := Chunks(s[ChunkSize..]);
      assert (|rest| == 1 ==> Join("", rest) == rest[0]);
      assert s == s[..ChunkSize] + s[ChunkSize..];
    } else if |s| > 0 {
      assert ChunkCount(|s|) == 1;
      assert Chunks(s)[0] == s[0..|s|] == s;
      assert Chunks(s) == [s];
    }
  }

  /** Non-blank text gives at least one chunk, so the program's "no chunks"
      branch cannot be taken. */
  lemma NonBlankTextHasChunks(text: string)
    requires !AllSpace(text)
    ensures |Chunks(Normalize(text))| >= 1
  {
    NormalizeShape(text);
  }

  // ---------------------------------------------------------------------------
  // Assembly

  /** The placeholder of a chunk whose call raised; `index` counts from 0, the
      placeholder from 1. */
  function ErrorPart(index: nat): string {
    "[Error summarizing part " + NatToString(index + 1) + "]"
  }

  /** What a chunk adds to the list of summary parts. */
  function ChunkPart(outcome: ChunkOutcome, index: nat): seq<string> {
    match outcome
    case Summarised(t) => [t]
    case Unexpected => []
    case Raises => [ErrorPart(index)]
  }

  /** The summary parts collected over the chunks, in chunk order. */
  function Parts(chunks: seq<string>, summarizer: string -> ChunkOutcome): seq<string> {
    if chunks == [] then []
    else
      var n := |chunks| - 1;
      Parts(chunks[..n], summarizer) + ChunkPart(summarizer(chunks[n]), n)
  }

  predicate Stripped(s: string) {
    s != "" && !IsSpace(s[0]) && !IsSpace(s[|s| - 1])
  }

  /** The unavailable text's first and last characters. */
  lemma UnavailableTextEdges()
    ensures |UnavailableText| == 52 && UnavailableText[0] == 'S' && UnavailableText[51] == '.'
  {
    assert UnavailableText == "Summary generation service is " + "currently unavailable.";
  }

  lemma SentinelsStripped()
    ensures Stripped(UnavailableText) && Stripped(NoContentText)
    ensures Stripped(NoChunksText) && Stripped(NoSummaryText)
  {
    UnavailableTextEdges();
    assert NoContentText[0] == 'N' && NoContentText[|NoContentText| - 1] == '.';
    assert NoChunksText[0] == 'C' && NoChunksText[|NoChunksText| - 1] == '.';
    assert NoSummaryText[0] == 'C' && NoSummaryText[|NoSummaryText| - 1] == '.';
  }

  /** What summary generation returns: never empty, never with edge whitespace. */
  function Summarize(available: bool, text: string, summarizer: string -> ChunkOutcome): (r: string)
    ensures Stripped(r)
  {
    SentinelsStripped();
    if !available then UnavailableText
    else if AllSpace(text) then NoContentText
    else
      var chunks := Chunks(Normalize(text));
      if chunks == [] then NoChunksText
      else
        var finalSummary := Strip(Join("\n", Parts(chunks, summarizer)));
        if finalSummary != "" then finalSummary else NoSummaryText
  }

  /** The order of the sentinel checks: an unavailable model wins over blank
      text; blank text gives the no-content sentinel whatever the model would
      answer (it is never asked). */
  lemma SummarizeSentinels(available: bool, text: string, summarizer: string -> ChunkOutcome,
                           other: string -> ChunkOutcome)
    ensures !available ==> Summarize(available, text, summarizer) == UnavailableText
    ensures available && AllSpace(text) ==>
              Summarize(available, text, summarizer) == NoContentText == Summarize(available, text, other)
    ensures available && !AllSpace(text) ==>
              var s := Strip(Join("\n", Parts(Chunks(Normalize(text)), summarizer)));
              Summarize(available, text, summarizer) == if s != "" then s else NoSummaryText
  {
    if available && !AllSpace(text) {
      NonBlankTextHasChunks(text);
    }
  }

  /** The parts of the first chunks are a prefix of the parts of all chunks. */
  lemma {:induction false} PartsPrefix(chunks: seq<string>, summarizer: string -> ChunkOutcome, m: nat)
    requires m <= |chunks|
    ensures Parts(chunks[..m], summarizer) <= Parts(chunks, summarizer)
    decreases |chunks| - m
  {
    if m == |chunks| {
      assert chunks[..m] == chunks;
    } else {
      var init := chunks[..|chunks| - 1];
      assert init[..m] == chunks[..m];
      PartsPrefix(init, summarizer, m);
    }
  }

  /** Each chunk adds at most one part. */
  lemma {:induction false} PartsLength(chunks: seq<string>, summarizer: string -> ChunkOutcome)
    ensures |Parts(chunks, summarizer)| <= |chunks|
  {
    if chunks != [] {
      PartsLength(chunks[..|chunks| - 1], summarizer);
    }
  }

  /** Chunk `i` adds its part right after the parts of the chunks before it;
      one whose call raised adds exactly its placeholder. */
  lemma PartsOfChunk(chunks: seq<string>, summarizer: string -> ChunkOutcome, i: nat)
    requires i < |chunks|
    ensures Parts(chunks[..i + 1], summarizer) ==
            Parts(chunks[..i], summarizer) + ChunkPart(summarizer(chunks[i]), i)
    ensures summarizer(chunks[i]).Raises? ==> ErrorPart(i) in Parts(chunks, summarizer)
  {
    assert chunks[..i + 1][..i] == chunks[..i];
    PartsPrefix(chunks, summarizer, i + 1);
  }

  /** `strip()` removes only edge whitespace, so a substring that neither starts
      nor ends with whitespace survives it. */
  lemma StripKeepsSubstring(s: string, t: string)
    requires Contains(s, t) && |t| > 0 && !IsSpace(t[0]) && !IsSpace(t[|t| - 1])
    ensures Contains(Strip(s), t)
  {
    var k: int :| OccursAt(s, t, k);
    assert OccursAt(s, t, k);
    var a, b := StripBounds(s);
    OccurrenceInsideEdges(s, t, k, a, b);
    assert OccursAt(Strip(s), t, k - a);
  }

  /** An occurrence whose first and last characters are not whitespace lies
      between a whitespace prefix and a whitespace suffix, so the slice between
      them still holds it. */
  lemma OccurrenceInsideEdges(s: string, t: string, k: int, a: nat, b: nat)
    requires OccursAt(s, t, k) && |t| > 0 && !IsSpace(t[0]) && !IsSpace(t[|t| - 1])
    requires a <= b <= |s| && AllSpace(s[..a]) && AllSpace(s[b..])
    ensures a <= k && k + |t| <= b && OccursAt(s[a..b], t, k - a)
  {
    var e := k + |t| - 1;
    assert s[k] == t[0] && s[e] == t[|t| - 1];
    forall i | 0 <= i < a ensures IsSpace(s[i]) {
      assert s[..a][i] == s[i];
    }
    forall i | b <= i < |s| ensures IsSpace(s[i]) {
      assert s[b..][i - b] == s[i];
    }
    var m := s[a..b];
    forall i | 0 <= i < |t| ensures m[k - a + i] == t[i] {
      assert m[k - a + i] == s[k + i] == s[k..k + |t|][i];
    }
    assert m[k - a..k - a + |t|] == t;
  }

  /** A chunk whose model call raised leaves its placeholder in the final summary. */
  lemma RaisingChunkShowsPlaceholder(text: string, summarizer: string -> ChunkOutcome, i: nat)
    requires !AllSpace(text)
    requires i < |Chunks(Normalize(text))| && summarizer(Chunks(Normalize(text))[i]).Raises?
    ensures Contains(Summarize(true, text, summarizer), ErrorPart(i))
  {
    var chunks := Chunks(Normalize(text));
    var parts := Parts(chunks, summarizer);
    PartsOfChunk(chunks, summarizer, i);
    var p :| 0 <= p < |parts| && parts[p] == ErrorPart(i);
    JoinContainsPart("\n", parts, p);
    var marker := ErrorPart(i);
    assert marker[0] == '[' && marker[|marker| - 1] == ']';
    StripKeepsSubstring(Join("\n", parts), marker);
  }

  /** The loop over the chunks: one model call per chunk, in order, each
      call's failure caught and turned into that chunk's placeholder. */
  method SummarizeChunks(chunks: seq<string>, summarizer: string -> ChunkOutcome)
    returns (summaryParts: seq<string>, ghost calls: seq<string>)
    ensures summaryParts == Parts(chunks, summarizer)
    ensures calls == chunks
  {
    summaryParts, calls := [], [];
    for i := 0 to |chunks|
      invariant summaryParts == Parts(chunks[..i], summarizer)
      invariant calls == chunks[..i]
    {
      var result := summarizer(chunks[i]);
      PrefixSnoc(chunks, i);
      calls := calls + [chunks[i]];
      PartsOfChunk(chunks, summarizer, i);
      match result {
        case Summarised(t) => summaryParts := summaryParts + [t];
        case Unexpected =>
        case Raises => summaryParts := summaryParts + [ErrorPart(i)];
      }
    }
    assert chunks[..|chunks|] == chunks;
  }

  /** The program's summary generation: the sentinel checks, normalisation,
      chunking, the loop over the chunks and the final join and strip. `calls`
      records the chunks given to the model, in order. */
  method GenerateSummary(available: bool, text: string, summarizer: string -> ChunkOutcome)
    returns (summary: string, ghost calls: seq<string>)
    ensures summary == Summarize(available, text, summarizer)
    ensures calls == if !available || AllSpace(text) then [] else Chunks(Normalize(text))
  {
    calls := [];
    SummarizeSentinels(available, text, summarizer, summarizer);
    if !available {
      return UnavailableText, calls;
    }
    StripEmptyIffAllSpace(text);
    if Strip(text) == "" {
      return NoContentText, calls;
    }
    var normalizedText := Join(" ", Split(text));
    var charChunks := Chunks(normalizedText);
    if |charChunks| == 0 {
      return NoChunksText, calls;
    }
    var summaryParts;
    summaryParts, calls := SummarizeChunks(charChunks, summarizer);
    var finalSummary := Strip(Join("\n", summaryParts));
    summary := if finalSummary != "" then finalSummary else NoSummaryText;
  }
}
