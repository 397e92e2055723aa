# Text preparation of the Arabic/English summariser, in Dafny

The summariser is a Streamlit script. It takes a text, either typed in or
pulled out of a PDF. It decides whether the text is Arabic or English, cuts it
into windows of words, and has a pretrained model summarise each window. The
partial summaries are then joined into one result. This project models the
deterministic part of that script and proves properties of it. The models
themselves appear only as opaque functions from a chunk to its summary.

- `text.dfy`, module `Text`: whitespace, the Arabic block, and Python's
  `str.split()` (`Words`), `" ".join` (`Join`) and `str.strip()` (`Strip`).
  It also holds the round trips between splitting and joining.
- `chunker.dfy`, module `Chunker`: `chunk_text`, the word-window chunker.
- `cleaner.dfy`, module `Cleaner`: `clean_arabic_text`. The cleaner is the
  allow-list substitution (`Filter`), then the whitespace collapse
  (`Collapse`), then `strip()`.
- `language.dfy`, module `Language`: the test on the result step that picks
  `"ar"` when any character lies in U+0600..U+06FF, and `"en"` otherwise.
- `summary.dfy`, module `Summary`: `text_summary` and the result step that
  calls it with the detected language.

Whitespace is one predicate, `Text.IsWs`. It is shared by the regex class
`\s`, `str.split()` and `str.strip()`, as in CPython, where all three use the
same table. `IsWs` is written out as that table of code-point ranges. The
proofs rely on two facts about it: the plain space is whitespace, and no
character of the Arabic block U+0600..U+06FF is (`Text.ArabicIsNotWs`).

The script is simpler than such a summariser often is:

- One Arabic-block character anywhere makes the text Arabic.
- The Arabic path does not remove duplicate sentences.
- Both paths use the word-window chunker. There is no sentence-aware
  paragraph split.
- A failing model call is not caught and has no fallback.
- The partial summaries are joined with single spaces. Runs of periods are
  not collapsed and no statistics are computed.
- The English path gets no cleaning of its own. Its chunks still come out
  whitespace-normalised, because each chunk is `" ".join` of its words.

## Model

| member | source | states |
|---|---|---|
| Text.ArabicIsNotWs | summarizer-main/summerize.py:11-12 | no character of the Arabic block is in the whitespace table, so `\s` never matches inside Arabic text |
| Text.Join | summarizer-main/summerize.py:35 | joining no parts gives `""`; otherwise the result starts with the first part and is as long as all the parts plus one separating space between each two |
| Text.Strip | summarizer-main/summerize.py:13 | the result has no whitespace at either end, and it is a slice of the input with only whitespace before it and only whitespace after it |
| Text.Words | summarizer-main/summerize.py:32 | every element of `text.split()` is a non-empty run without whitespace, and the list is empty exactly when the text is empty or all whitespace |
| Text.WordsAppend | summarizer-main/summerize.py:32 | when the second string is empty or starts with whitespace, the words of the concatenation are the first string's words followed by the second's, so a word boundary splits `split()` in two |
| Text.WordsOfDropWs | summarizer-main/summerize.py:32 | leading whitespace does not change `split()` |
| Text.JoinAppend | summarizer-main/summerize.py:35 | the space-join of two non-empty lists is the join of the first, one space, and the join of the second |
| Text.SplitJoin | summarizer-main/summerize.py:32-35 | splitting the space-join of a list of proper words gives back exactly that list |
| Text.JoinSplit | summarizer-main/summerize.py:12-13 | space-joining the words of a string in normal form (single spaces only, no whitespace at the ends) gives back that string |
| Text.WordsOfJoin | summarizer-main/summerize.py:59 | the words of a space-join of strings are the words of each string, concatenated in order, whatever the strings are |
| Text.JoinIsNormal | summarizer-main/summerize.py:35 | the space-join of proper words is in normal form |
| Text.JoinFlatten | summarizer-main/summerize.py:34-35 | for non-empty groups, joining each group and then joining the results equals joining all the groups' words at once, so regrouping never reorders |
| Chunker.Windows | summarizer-main/summerize.py:34-35 | the windows concatenate back to the word list, each holds 1..n words, all but the last hold exactly n, and their number is the least count whose capacity covers the words |
| Chunker.ChunkText | summarizer-main/summerize.py:31-37 | a zero window raises the `range()` ValueError, a negative window gives no chunks, and a positive window succeeds with no chunks exactly when the text is blank |
| Chunker.ChunkBound | summarizer-main/summerize.py:34-35 | every chunk has between 1 and n words, and every chunk except the last has exactly n |
| Chunker.ChunkReconstruct | summarizer-main/summerize.py:32-36 | the chunks' word lists, concatenated in order, equal `text.split()`, so no word is lost, duplicated or reordered |
| Chunker.ChunkCount | summarizer-main/summerize.py:34 | the number of chunks is ceil(number of words / n) |
| Chunker.ChunkShape | summarizer-main/summerize.py:35 | no chunk is the empty string, and each chunk is in single-space normal form |
| Chunker.ChunkJoin | summarizer-main/summerize.py:32-36 | space-joining the chunks gives `" ".join(text.split())` |
| Cleaner.Filter | summarizer-main/summerize.py:11 | the length is preserved, every allowed character stays in place, every other character becomes one space, and every output character is allowed |
| Cleaner.Collapse | summarizer-main/summerize.py:12 | the output's only whitespace is single spaces that never touch, it is empty exactly when the input is, it starts with whitespace exactly when the input does, and it ends with whitespace exactly when the input does; with `Cleaner.CollapseKeepsWords` this fixes the output |
| Cleaner.CollapseAddsOnlySpaces | summarizer-main/summerize.py:12 | every character of the collapsed text is a space or occurs in the input |
| Cleaner.CollapseKeepsNonWs | summarizer-main/summerize.py:12 | every non-whitespace character of the input survives the collapse |
| Cleaner.CollapseKeepsWords | summarizer-main/summerize.py:12 | collapsing whitespace runs leaves `split()` unchanged |
| Cleaner.CleanArabicText | summarizer-main/summerize.py:10-13 | the result is in normal form, and each of its characters is in the Arabic block, an ASCII letter or digit, a space, or one of `. , ! ? ؛ ، -` |
| Cleaner.CleanIsJoinOfWords | summarizer-main/summerize.py:10-13 | cleaning equals the allow-list filter followed by `" ".join(....split())` |
| Cleaner.CleanWords | summarizer-main/summerize.py:10-13 | the words of the cleaned text are the words of the filtered text |
| Cleaner.CleanFixedPoint | summarizer-main/summerize.py:10-13 | the cleaner leaves a text unchanged exactly when the text is in normal form and made only of allowed characters |
| Cleaner.CleanIdempotent | summarizer-main/summerize.py:10-13 | cleaning twice gives the same result as cleaning once |
| Cleaner.CleanKeepsAllowed | summarizer-main/summerize.py:11-13 | every allowed non-whitespace character of the input appears in the output, and the output has no character except the space that is absent from the input |
| Language.ContainsArabic | summarizer-main/summerize.py:114 | the regex search succeeds exactly when some character lies in U+0600..U+06FF |
| Language.DetectLanguage | summarizer-main/summerize.py:114 | the code is `"ar"` exactly when some character is in the Arabic block, and `"en"` exactly when none is, so the empty text gives `"en"` |
| Language.DetectAfterClean | summarizer-main/summerize.py:10-13 | cleaning a text never changes its detected language |
| Summary.SummarizeEach | summarizer-main/summerize.py:49-58 | the outputs are the model applied to each chunk, in chunk order: there is one output per chunk, and the i-th is the model's summary of the i-th chunk |
| Summary.Summarize | summarizer-main/summerize.py:39-59 | a prepared text with no words summarises to `""`; otherwise the result starts with the first chunk's summary and is as long as all the chunk summaries plus one separating space between each two |
| Summary.TextSummary | summarizer-main/summerize.py:39-59 | the chunks handed to the model are the 250-word chunks of the prepared text (cleaned only for `"ar"`), in order, ceil(words/250) of them. Each chunk holds 1..250 words, the chunks together hold all the prepared words in order, and the result joins the per-chunk outputs with single spaces |
| Summary.SummarizeBlank | summarizer-main/summerize.py:39-59 | an empty or whitespace-only text hands no chunk to the model and summarises to `""` on either path |
| Summary.SummaryWordOrder | summarizer-main/summerize.py:49-59 | the summary's words are the per-chunk summaries' words, chunk after chunk |
| Summary.SummarizeIdentityEnglish | summarizer-main/summerize.py:44-59 | with a pass-through model, the non-Arabic path returns `" ".join(text.split())` |
| Summary.SummarizeIdentityArabic | summarizer-main/summerize.py:40-59 | with a pass-through model, the Arabic path returns exactly `clean_arabic_text(text)` |
| Summary.SummarizeCurrentText | summarizer-main/summerize.py:111-118 | a text with a character in U+0600..U+06FF is summarised on the Arabic path and any other text on the English path, and a blank text gives `""` |
| Summary.PipelineIdentity | summarizer-main/summerize.py:111-118 | with pass-through models, the result step returns the cleaned text for a text with an Arabic-block character, and the whitespace-normalised text otherwise |

## Left out

- Model loading and inference are left out: `snapshot_download`, the two `pipeline(...)` constructors and `@st.cache_resource`. They are network and foreign-library calls. Each model is an opaque `string -> string` parameter instead.
- The generation arguments `max_length=120`, `min_length=40` and `do_sample=False` are folded into the opaque model, and so is the lookup of `generated_text` or `summary_text` in its result. These arguments bound token counts inside the model, which is not visible here.
- Summary.TextSummary: a model call that raises is not modelled. The opaque model always returns a string, so the exception path of the loop is absent.
- PDF extraction with `pdfplumber` is left out, and so is the write of the upload to `doc_file.pdf`. Both are file I/O through a library that is not visible here.
- The Streamlit page, the sidebar choice, the buttons and the `session_state` step machine (`input`/`result`, `reset_to_input`) are left out. They are presentation code driven by framework state.
- Language.DetectLanguage: the `except` branch of the language test is not modelled. `re.search` on a `str` does not raise, so the fallback to `"en"` cannot be reached for text input.
- Python strings may hold lone surrogate code points, which Dafny's `char` cannot represent, so they are left out.
