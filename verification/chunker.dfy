/**
 The word-window chunker `chunk_text`: split the text on whitespace, cut the
 word list into consecutive windows of at most `max_chunk_words` words, and
 join each window with single spaces.
 */
module Chunker {
  import opened Text

  /** What `chunk_text` hands back: its chunk list, or the `ValueError` that
      `range()` raises when its step is zero. */
  datatype Outcome<T> = Ok(value: T) | ValueError(message: string)

  /** The message of the `ValueError` raised by `range(0, n, 0)`. */
  const ZeroStepMessage := "range() arg 3 must not be zero"

  /** The window size `chunk_text` uses when its caller gives none. */
  const DefaultMaxChunkWords := 400

  /** ceil(a / n). */
  function CeilQuotient(a: nat, n: nat): nat
    requires n > 0
  {
    (a + n - 1) / n
  }

  /** `k` windows of size `n`, all full but the last, hold exactly `a`
      items. */
  predicate Covers(k: nat, a: nat, n: nat) {
    if a == 0 then k == 0 else (k - 1) * n < a <= k * n
  }

  /** Multiples of a positive `n` are ordered as their factors are. */
  lemma MulLtCancel(d: int, e: int, n: nat)
    requires n > 0 && d * n < e * n
    ensures d < e
  {
  }

  /** One more window, of `k` items, in front of windows that cover the
      remaining `a - k` items: full unless it is the only one. */
  lemma CoversCons(m: nat, a: nat, k: nat, n: nat)
    requires n > 0 && 0 < k <= a && k <= n && (k < n ==> k == a)
    requires Covers(m, a - k, n)
    ensures Covers(m + 1, a, n)
  {
    assert (m + 1) * n == m * n + n;
  }

  /** `(a + n - 1) / n` is the number of windows of size `n` that cover `a`
      items exactly when the last one is the only one that may be short. */
  lemma CeilDiv(a: nat, n: nat, k: nat)
    requires n > 0 && Covers(k, a, n)
    ensures (a + n - 1) / n == k
  {
    var x := a + n - 1;
    var q := x / n;
    assert x == q * n + x % n && 0 <= x % n < n;
    assert (k + 1) * n == k * n + n && (q + 1) * n == q * n + n;
    if a > 0 {
      assert (k - 1) * n == k * n - n;
    }
    assert k * n <= x < (k + 1) * n;
    MulLtCancel(q, k + 1, n);
    MulLtCancel(k, q + 1, n);
  }

  /** There are ceil(|words| / n) windows. */
  lemma WindowCount(words: seq<string>, n: nat)
    requires n > 0
    ensures |Windows(words, n)| == CeilQuotient(|words|, n)
  {
    CeilDiv(|words|, n, |Windows(words, n)|);
  }

  /** The word list cut into windows `words[0:n]`, `words[n:2n]`, ...: what
      the loop over `range(0, len(words), n)` slices out. */
  function Windows(words: seq<string>, n: nat): (windows: seq<seq<string>>)
    requires n > 0
    ensures Flatten(windows) == words
    ensures forall i :: 0 <= i < |windows| ==> 0 < |windows[i]| <= n
    ensures forall i :: 0 <= i < |windows| - 1 ==> |windows[i]| == n
    ensures Covers(|windows|, |words|, n)
    ensures windows == [] <==> words == []
    decreases |words|
  {
    if |words| == 0 then []
    else
      var k := if |words| < n then |words| else n;
      var rest := Windows(words[k..], n);
      assert words == words[..k] + words[k..];
      assert ([words[..k]] + rest)[1..] == rest;
      CoversCons(|rest|, |words|, k, n);
      [words[..k]] + rest
  }

  /** `chunk_text(text, max_chunk_words)`. A zero window raises `ValueError`
      (from `range`); a negative one makes the range empty, so no chunks. */
  function ChunkText(text: string, maxChunkWords: int := DefaultMaxChunkWords): (r: Outcome<seq<string>>)
    ensures maxChunkWords == 0 <==> r == ValueError(ZeroStepMessage)
    ensures maxChunkWords < 0 ==> r == Ok([])
    ensures maxChunkWords > 0 ==> r.Ok? && (r.value == [] <==> Blank(text))
  {
    if maxChunkWords == 0 then ValueError(ZeroStepMessage)
    else if maxChunkWords < 0 then Ok([])
    else Ok(Map(Join, Windows(Words(text), maxChunkWords)))
  }

  /** Every chunk of a positive window is the space-join of its window. */
  lemma ChunkWindows(text: string, n: int)
    requires n > 0
    ensures var windows := Windows(Words(text), n);
      && ChunkText(text, n).value == Map(Join, windows)
      && forall i :: 0 <= i < |windows| ==> AllWords(windows[i]) && Words(Join(windows[i])) == windows[i]
  {
    var words := Words(text);
    var windows := Windows(words, n);
    forall i | 0 <= i < |windows|
      ensures AllWords(windows[i]) && Words(Join(windows[i])) == windows[i]
    {
      WindowWords(words, n, i);
      SplitJoin(windows[i]);
    }
  }

  /** The words of one window are words of the text. */
  lemma {:induction false} WindowWords(words: seq<string>, n: nat, i: nat)
    requires n > 0 && AllWords(words) && i < |Windows(words, n)|
    ensures AllWords(Windows(words, n)[i])
    decreases |words|
  {
    var k := if |words| < n then |words| else n;
    assert AllWords(words[k..]);
    if i > 0 {
      WindowWords(words[k..], n, i - 1);
    }
  }

  /** Size bound: every chunk holds between one and `n` words, and every
      chunk except the last holds exactly `n`. */
  lemma ChunkBound(text: string, n: int)
    requires n > 0
    ensures var chunks := ChunkText(text, n).value;
      && (forall i :: 0 <= i < |chunks| ==> 1 <= |Words(chunks[i])| <= n)
      && (forall i :: 0 <= i < |chunks| - 1 ==> |Words(chunks[i])| == n)
  {
    ChunkWindows(text, n);
  }

  /** Reconstruction: the chunks' word lists, concatenated in order, are
      exactly `text.split()`. */
  lemma ChunkReconstruct(text: string, n: int)
    requires n > 0
    ensures Flatten(Map(Words, ChunkText(text, n).value)) == Words(text)
  {
    ChunkWindows(text, n);
    var windows := Windows(Words(text), n);
    assert Map(Words, ChunkText(text, n).value) == windows;
  }

  /** Count: there are ceil(|words| / n) chunks. */
  lemma ChunkCount(text: string, n: int)
    requires n > 0
    ensures |ChunkText(text, n).value| == CeilQuotient(|Words(text)|, n)
  {
    var words := Words(text);
    var count := |Windows(words, n)|;
    var q := CeilQuotient(|words|, n);
    assert |ChunkText(text, n).value| == count;
    WindowCount(words, n);
    assert count == q;
  }

  /** No chunk is empty, and each is already in single-space normal form. */
  lemma ChunkShape(text: string, n: int)
    requires n > 0
    ensures var chunks := ChunkText(text, n).value;
      forall i :: 0 <= i < |chunks| ==> chunks[i] != "" && NormalForm(chunks[i])
  {
    ChunkWindows(text, n);
    var windows := Windows(Words(text), n);
    forall i | 0 <= i < |windows| ensures Join(windows[i]) != "" && NormalForm(Join(windows[i])) {
      JoinIsNormal(windows[i]);
    }
  }

  /** Re-joining the chunks with single spaces gives `" ".join(text.split())`:
      chunking loses, duplicates and reorders nothing. */
  lemma ChunkJoin(text: string, n: int)
    requires n > 0
    ensures Join(ChunkText(text, n).value) == Join(Words(text))
  {
    var windows := Windows(Words(text), n);
    JoinFlatten(windows);
  }
}
