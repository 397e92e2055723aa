/**
 The orchestration `text_summary(text, lang_code)` and the result step that
 feeds it the detected language. The two summarisation models are opaque
 functions from a chunk to its summary; which one runs depends only on the
 language code.
 */
module Summary {
  import opened Text
  import opened Chunker
  import Cleaner
  import Language

  /** The window `text_summary` passes to `chunk_text`. */
  const SummaryChunkWords := 250

  /** The text that gets chunked: cleaned on the Arabic path, untouched
      otherwise. */
  function Prepare(text: string, langCode: string): string {
    if langCode == "ar" then Cleaner.CleanArabicText(text) else text
  }

  /** The model that summarises the chunks for a language code. */
  function Summarizer(langCode: string, arabic: string -> string, english: string -> string): string -> string {
    if langCode == "ar" then arabic else english
  }

  /** The chunks handed to the model, in order. */
  function SummaryChunks(text: string, langCode: string): seq<string> {
    ChunkText(Prepare(text, langCode), SummaryChunkWords).value
  }

  /** What `text_summary` returns: the per-chunk summaries joined with single
      spaces, in chunk order. A prepared text with no words gives `""`;
      otherwise the result starts with the first chunk's summary and is as
      long as all the summaries plus one separating space between each two. */
  function Summarize(text: string, langCode: string, arabic: string -> string, english: string -> string): (r: string)
    ensures Blank(Prepare(text, langCode)) ==> r == ""
    ensures var outs := Map(Summarizer(langCode, arabic, english), SummaryChunks(text, langCode));
      outs != [] ==> outs[0] <= r && |r| == |Flatten(outs)| + |outs| - 1
  {
    Join(Map(Summarizer(langCode, arabic, english), SummaryChunks(text, langCode)))
  }

  /** The loop of `text_summary`: the model applied to each chunk, in chunk
      order, each output kept at its chunk's position. Returns the outputs
      and the chunks handed to the model, in order. */
  method SummarizeEach(chunks: seq<string>, model: string -> string)
    returns (summaries: seq<string>, handed: seq<string>)
    ensures handed == chunks
    ensures |summaries| == |chunks|
    ensures forall i :: 0 <= i < |chunks| ==> summaries[i] == model(chunks[i])
  {
    summaries := [];
    handed := [];
    for k := 0 to |chunks|
      invariant handed == chunks[..k]
      invariant |summaries| == k
      invariant forall i :: 0 <= i < k ==> summaries[i] == model(chunks[i])
    {
      handed := handed + [chunks[k]];
      summaries := summaries + [model(chunks[k])];
    }
    assert chunks[..|chunks|] == chunks;
  }

  /** `text_summary(text, lang_code)` step by step. Besides the summary it
      returns the chunks handed to the model, in order. */
  method TextSummary(text: string, langCode: string, arabic: string -> string, english: string -> string)
    returns (summary: string, handed: seq<string>)
    ensures handed == SummaryChunks(text, langCode)
    ensures |handed| == CeilQuotient(|Words(Prepare(text, langCode))|, SummaryChunkWords)
    ensures forall i :: 0 <= i < |handed| ==> 1 <= |Words(handed[i])| <= SummaryChunkWords
    ensures Flatten(Map(Words, handed)) == Words(Prepare(text, langCode))
    ensures summary == Summarize(text, langCode, arabic, english)
  {
    var prepared := Prepare(text, langCode);
    var model := Summarizer(langCode, arabic, english);
    var chunks := ChunkText(prepared, SummaryChunkWords).value;
    var summaries;
    summaries, handed := SummarizeEach(chunks, model);
    assert summaries == Map(model, chunks);
    summary := Join(summaries);
    ChunkCount(prepared, SummaryChunkWords);
    ChunkBound(prepared, SummaryChunkWords);
    ChunkReconstruct(prepared, SummaryChunkWords);
  }

  /** A blank text summarises to the empty string, on either path, with no
      chunk handed to the model. */
  lemma SummarizeBlank(text: string, langCode: string, arabic: string -> string, english: string -> string)
    requires Blank(text)
    ensures SummaryChunks(text, langCode) == []
    ensures Summarize(text, langCode, arabic, english) == ""
  {
    var prepared := Prepare(text, langCode);
    if langCode == "ar" {
      Cleaner.CleanWords(text);
      var filtered := Cleaner.Filter(text);
      assert Blank(filtered);
    }
    assert Words(prepared) == [];
    ChunkCount(prepared, SummaryChunkWords);
  }

  /** Reassembly order: the words of the summary are the words of the
      per-chunk summaries, chunk after chunk. */
  lemma SummaryWordOrder(text: string, langCode: string, arabic: string -> string, english: string -> string)
    ensures var outs := Map(Summarizer(langCode, arabic, english), SummaryChunks(text, langCode));
      Words(Summarize(text, langCode, arabic, english)) == Flatten(Map(Words, outs))
  {
    WordsOfJoin(Map(Summarizer(langCode, arabic, english), SummaryChunks(text, langCode)));
  }

  /** With a model that returns its chunk unchanged, the English path gives
      back `" ".join(text.split())`: nothing is lost, repeated or moved. */
  lemma SummarizeIdentityEnglish(text: string, langCode: string, arabic: string -> string, english: string -> string)
    requires langCode != "ar"
    requires forall s :: english(s) == s
    ensures Summarize(text, langCode, arabic, english) == Join(Words(text))
  {
    MapIdentity(english, SummaryChunks(text, langCode));
    ChunkJoin(text, SummaryChunkWords);
  }

  /** With a model that returns its chunk unchanged, the Arabic path gives
      back exactly the cleaned text. */
  lemma SummarizeIdentityArabic(text: string, arabic: string -> string, english: string -> string)
    requires forall s :: arabic(s) == s
    ensures Summarize(text, "ar", arabic, english) == Cleaner.CleanArabicText(text)
  {
    var cleaned := Cleaner.CleanArabicText(text);
    MapIdentity(arabic, SummaryChunks(text, "ar"));
    ChunkJoin(cleaned, SummaryChunkWords);
    JoinSplit(cleaned);
  }

  /** The result step: detect the language of the current text, then
      summarise it. A text with an Arabic-block character goes down the
      Arabic path, any other text down the English one, and a blank text
      summarises to `""`. */
  function SummarizeCurrentText(text: string, arabic: string -> string, english: string -> string): (r: string)
    ensures (exists i :: 0 <= i < |text| && InArabicBlock(text[i])) ==> r == Summarize(text, "ar", arabic, english)
    ensures (forall i :: 0 <= i < |text| ==> !InArabicBlock(text[i])) ==> r == Summarize(text, "en", arabic, english)
    ensures Blank(text) ==> r == ""
  {
    var code := Language.DetectLanguage(text);
    if Blank(text) then
      SummarizeBlank(text, code, arabic, english);
      Summarize(text, code, arabic, english)
    else
      Summarize(text, code, arabic, english)
  }

  /** End to end with pass-through models: a text with an Arabic-block
      character comes back cleaned, any other text comes back with its
      whitespace runs collapsed and its ends stripped. */
  lemma PipelineIdentity(text: string, arabic: string -> string, english: string -> string)
    requires forall s :: arabic(s) == s
    requires forall s :: english(s) == s
    ensures Language.ContainsArabic(text) ==> SummarizeCurrentText(text, arabic, english) == Cleaner.CleanArabicText(text)
    ensures !Language.ContainsArabic(text) ==> SummarizeCurrentText(text, arabic, english) == Join(Words(text))
  {
    if Language.ContainsArabic(text) {
      SummarizeIdentityArabic(text, arabic, english);
    } else {
      SummarizeIdentityEnglish(text, "en", arabic, english);
    }
  }
}
