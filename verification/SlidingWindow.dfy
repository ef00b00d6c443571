/** Overlapping windows of words (crates/vil_chunker/src/sliding.rs). */
module SlidingWindow {
  import opened Arithmetic
  import opened Tokens

  // ----- word spans -----

  /** Word k of the text lies at start..end, with no word cut at either side. */
  ghost predicate SpanOk(text: string, k: nat, span: (nat, nat)) {
    && span.0 < span.1 <= |text|
    && !IsSpace(text[span.0]) && !IsSpace(text[span.1 - 1])
    && CleanCut(text[..span.0], text[span.0..])
    && CleanCut(text[..span.1], text[span.1..])
    && |Words(text[..span.0])| == k
    && |Words(text[..span.1])| == k + 1
  }

  ghost predicate SpansOk(text: string, spans: seq<(nat, nat)>) {
    forall k: nat {:trigger SpanOk(text, k, spans[k])} :: k < |spans| ==> SpanOk(text, k, spans[k])
  }

  /** Between words: the spans found so far are the words before i. */
  ghost predicate Between(text: string, i: nat, spans: seq<(nat, nat)>) {
    && i <= |text|
    && (i == 0 || IsSpace(text[i - 1]))
    && |Words(text[..i])| == |spans|
  }

  /** Inside a word that starts at `start`. */
  ghost predicate Inside(text: string, start: nat, i: nat, spans: seq<(nat, nat)>) {
    && start < i <= |text|
    && BlankFree(text[start..i])
    && Between(text, start, spans)
  }

  lemma WordCloses(text: string, start: nat, i: nat, spans: seq<(nat, nat)>)
    requires Inside(text, start, i, spans) && (i == |text| || IsSpace(text[i]))
    ensures SpanOk(text, |spans|, (start, i))
    ensures |Words(text[..i])| == |spans| + 1
  {
    var word := text[start..i];
    assert text[..i] == text[..start] + word;
    assert word[0] == text[start] && word[|word| - 1] == text[i - 1];
    WordsSplit(text[..start], word);
    WordsOfWord(word);
  }

  lemma BlankStep(text: string, i: nat)
    requires i < |text| && IsSpace(text[i])
    ensures Words(text[..i + 1]) == Words(text[..i])
  {
    assert text[..i + 1] == text[..i] + [text[i]];
    WordsSplit(text[..i], [text[i]]);
    WordsOfBlank([text[i]]);
  }

  lemma SpansOkAppend(text: string, spans: seq<(nat, nat)>, span: (nat, nat))
    requires SpansOk(text, spans) && SpanOk(text, |spans|, span)
    ensures SpansOk(text, spans + [span])
  {
    var all := spans + [span];
    forall k: nat | k < |all| ensures SpanOk(text, k, all[k]) {
      if k < |spans| { assert SpanOk(text, k, spans[k]); }
    }
  }

  /** One step of the scan over the characters. */
  method ScanChar(text: string, i: nat, inWord0: bool, start0: nat, before: seq<(nat, nat)>)
    returns (inWord: bool, start: nat, spans: seq<(nat, nat)>)
    requires i < |text| && SpansOk(text, before)
    requires if inWord0 then Inside(text, start0, i, before) else Between(text, i, before)
    ensures SpansOk(text, spans)
    ensures if inWord then Inside(text, start, i + 1, spans) else Between(text, i + 1, spans)
  {
    inWord, start, spans := inWord0, start0, before;
    if IsSpace(text[i]) {
      BlankStep(text, i);
      if inWord {
        WordCloses(text, start, i, spans);
        SpansOkAppend(text, spans, (start, i));
        spans := spans + [(start, i)];
        inWord := false;
      }
    } else if !inWord {
      start := i;
      inWord := true;
    } else {
      assert text[start..i + 1] == text[start..i] + [text[i]];
    }
  }

  /** The spans of the words of the text: exactly one per word, in order. */
  method WordSpans(text: string) returns (spans: seq<(nat, nat)>)
    ensures SpansOk(text, spans) && |spans| == |Words(text)|
  {
    spans := [];
    var inWord, start := false, 0;
    for i := 0 to |text|
      invariant SpansOk(text, spans)
      invariant if inWord then Inside(text, start, i, spans) else Between(text, i, spans)
    {
      inWord, start, spans := ScanChar(text, i, inWord, start, spans);
    }
    assert text[..|text|] == text;
    if inWord {
      WordCloses(text, start, |text|, spans);
      SpansOkAppend(text, spans, (start, |text|));
      spans := spans + [(start, |text|)];
    }
  }

  /** The text between the starts and ends of spans a..b-1 holds exactly words a..b-1. */
  lemma SliceWords(text: string, spans: seq<(nat, nat)>, a: nat, b: nat)
    requires SpansOk(text, spans) && |spans| == |Words(text)| && a < b <= |spans|
    ensures spans[a].0 <= spans[b - 1].1 <= |text|
    ensures Words(text[spans[a].0..spans[b - 1].1]) == Words(text)[a..b]
  {
    assert SpanOk(text, a, spans[a]) && SpanOk(text, b - 1, spans[b - 1]);
    var s, e := spans[a].0, spans[b - 1].1;
    SpanOrder(text, spans, a, b);
    CutTwice(text, s, e);
    MiddlePart(Words(text), Words(text[..s]), Words(text[s..e]), Words(text[e..]));
  }

  /** Two clean cuts split the words of a text in three. */
  lemma CutTwice(text: string, s: nat, e: nat)
    requires s < e <= |text| && CleanCut(text[..s], text[s..]) && CleanCut(text[..e], text[e..])
    ensures Words(text[..e]) == Words(text[..s]) + Words(text[s..e])
    ensures Words(text) == Words(text[..s]) + Words(text[s..e]) + Words(text[e..])
  {
    Slices(text, s, e);
    ThreeParts(text[..s], text[s..e], text[e..]);
  }

  lemma Slices(text: string, s: nat, e: nat)
    requires s < e <= |text|
    ensures text[..e] == text[..s] + text[s..e]
    ensures text[s..] == text[s..e] + text[e..]
    ensures text == text[..s] + text[s..e] + text[e..]
  {
  }

  lemma ThreeParts(pre: string, mid: string, post: string)
    requires mid != "" && CleanCut(pre, mid + post) && CleanCut(pre + mid, post)
    ensures Words(pre + mid) == Words(pre) + Words(mid)
    ensures Words(pre + mid + post) == Words(pre) + Words(mid) + Words(post)
  {
    CutInside(pre, mid, post);
    WordsSplit(pre, mid);
    WordsSplit(pre + mid, post);
  }

  /** The slice from word a to word b - 1 starts behind the words before it and has no blank at either end. */
  lemma SpansBound(text: string, spans: seq<(nat, nat)>, a: nat, b: nat, content: string)
    requires SpansOk(text, spans) && |spans| == |Words(text)| && a < b <= |spans|
    requires spans[a].0 < spans[b - 1].1 <= |text| && content == text[spans[a].0..spans[b - 1].1]
    ensures Trimmed(content) && |Words(text[..spans[a].0])| == a && Words(content) == Words(text)[a..b]
  {
    SliceWords(text, spans, a, b);
    SpanEnds(text, spans, a);
    SpanEnds(text, spans, b - 1);
    TrimmedSlice(text, spans[a].0, spans[b - 1].1, content);
  }

  lemma SpanEnds(text: string, spans: seq<(nat, nat)>, k: nat)
    requires SpansOk(text, spans) && k < |spans|
    ensures spans[k].0 < spans[k].1 <= |text| && |Words(text[..spans[k].0])| == k
    ensures !IsSpace(text[spans[k].0]) && !IsSpace(text[spans[k].1 - 1])
  {
    assert SpanOk(text, k, spans[k]);
  }

  lemma TrimmedSlice(text: string, s: nat, e: nat, content: string)
    requires s < e <= |text| && content == text[s..e] && !IsSpace(text[s]) && !IsSpace(text[e - 1])
    ensures Trimmed(content)
  {
  }

  lemma MiddlePart(all: seq<string>, pre: seq<string>, mid: seq<string>, post: seq<string>)
    requires all == pre + mid + post
    ensures all[|pre|..|pre| + |mid|] == mid
  {
  }

  lemma CutInside(pre: string, mid: string, post: string)
    requires CleanCut(pre, mid + post)
    ensures mid != "" ==> CleanCut(pre, mid)
  {
  }

  lemma SpanOrder(text: string, spans: seq<(nat, nat)>, a: nat, b: nat)
    requires SpansOk(text, spans) && a < b <= |spans|
    ensures spans[a].0 < spans[b - 1].1 <= |text|
  {
    assert SpanOk(text, a, spans[a]) && SpanOk(text, b - 1, spans[b - 1]);
    if spans[b - 1].1 <= spans[a].0 { WordCountGrows(text, spans[b - 1].1, spans[a].0); }
  }

  /** A longer prefix of the text has no fewer words, when the shorter one cuts no word. */
  lemma WordCountGrows(text: string, e: nat, s: nat)
    requires e <= s <= |text| && CleanCut(text[..e], text[e..])
    ensures |Words(text[..s])| >= |Words(text[..e])|
  {
    var front, mid := text[..e], text[e..s];
    assert text[..s] == front + mid;
    assert text[e..] == mid + text[s..];
    if mid == "" {
      assert text[..s] == front;
    } else {
      WordsSplit(front, mid);
    }
  }

  // ----- windows -----

  /** First word of window k. */
  function WindowStart(k: nat, step: nat): nat {
    if k == 0 then 0 else WindowStart(k - 1, step) + step
  }

  lemma {:induction false} WindowStartIsProduct(k: nat, step: nat)
    ensures WindowStart(k, step) == k * step
  {
    if k > 0 {
      WindowStartIsProduct(k - 1, step);
      assert (k - 1) * step + step == k * step;
    }
  }

  function WindowEnd(k: nat, step: nat, window: nat, n: nat): nat {
    if WindowStart(k, step) + window < n then WindowStart(k, step) + window else n
  }

  /** Window k as a chunk: the exact slice of the text from its first word to its last, found after the words
      before them, with 1.3 tokens a word, rounded up. */
  ghost predicate WindowChunk(text: string, window: nat, step: nat, k: nat, c: TextChunk) {
    var words := Words(text);
    var a, b := WindowStart(k, step), WindowEnd(k, step, window, |words|);
    && a < b
    && c.start < c.end <= |text|
    && c.content == text[c.start..c.end]
    && Trimmed(c.content)
    && |Words(text[..c.start])| == a
    && Words(c.content) == words[a..b]
    && 13 * |Words(c.content)| <= 10 * c.tokenCount < 13 * |Words(c.content)| + 10
  }

  /** Window k holds the words from k steps on, as many as the window takes or the text has left. */
  lemma WindowWords(text: string, window: nat, step: nat, k: nat, c: TextChunk)
    requires WindowChunk(text, window, step, k, c)
    ensures 0 <= k * step < |Words(text)|
    ensures var words, from := Words(text), k * step;
      Words(c.content) == if from + window < |words| then words[from..from + window] else words[from..]
  {
    WindowStartIsProduct(k, step);
  }

  ghost predicate WindowChunks(text: string, window: nat, step: nat, chunks: seq<TextChunk>) {
    forall k: nat {:trigger WindowChunk(text, window, step, k, chunks[k])} :: k < |chunks| ==>
      WindowChunk(text, window, step, k, chunks[k])
  }

  /** The windows reach the last word, and none but the last does. */
  ghost predicate Complete(n: nat, window: nat, step: nat, m: nat) {
    if n == 0 then m == 0
    else m > 0 && WindowStart(m - 1, step) < n <= WindowStart(m - 1, step) + window &&
         (m > 1 ==> WindowStart(m - 2, step) + window < n)
  }

  /** The part of a window that earlier windows have not covered. */
  function Fresh(chunk: TextChunk, first: bool, overlap: nat): seq<string> {
    var words := Words(chunk.content);
    if first then words else if overlap <= |words| then words[overlap..] else []
  }

  function Stitch(chunks: seq<TextChunk>, overlap: nat): seq<string> {
    if chunks == [] then [] else
    Stitch(chunks[..|chunks| - 1], overlap) + Fresh(chunks[|chunks| - 1], |chunks| == 1, overlap)
  }

  /** The first chunk's words followed by every later chunk's words minus the overlap are the words covered so far. */
  lemma {:induction false} StitchedWords(text: string, window: nat, overlap: nat, chunks: seq<TextChunk>)
    requires overlap < window && WindowChunks(text, window, window - overlap, chunks) && chunks != []
    requires |chunks| > 1 ==> WindowStart(|chunks| - 2, window - overlap) + window < |Words(text)|
    ensures WindowEnd(|chunks| - 1, window - overlap, window, |Words(text)|) <= |Words(text)|
    ensures Stitch(chunks, overlap) == Words(text)[..WindowEnd(|chunks| - 1, window - overlap, window, |Words(text)|)]
    decreases |chunks|
  {
    var m, step, n := |chunks| - 1, window - overlap, |Words(text)|;
    var front, last := chunks[..m], chunks[m];
    assert WindowChunk(text, window, step, m, last);
    if m > 0 {
      FrontWindows(text, window, step, chunks);
      if m > 1 { assert WindowStart(m - 2, step) <= WindowStart(m - 1, step); }
      StitchedWords(text, window, overlap, front);
      StitchLast(text, window, overlap, chunks, WindowEnd(m - 1, step, window, n), WindowEnd(m, step, window, n));
    }
  }

  lemma StitchLast(text: string, window: nat, overlap: nat, chunks: seq<TextChunk>, e: nat, b: nat)
    requires overlap < window && |chunks| > 1
    requires WindowChunk(text, window, window - overlap, |chunks| - 1, chunks[|chunks| - 1])
    requires b == WindowEnd(|chunks| - 1, window - overlap, window, |Words(text)|)
    requires e == WindowStart(|chunks| - 1, window - overlap) + overlap <= b <= |Words(text)|
    requires Stitch(chunks[..|chunks| - 1], overlap) == Words(text)[..e]
    ensures Stitch(chunks, overlap) == Words(text)[..b]
  {
    var last, a := chunks[|chunks| - 1], WindowStart(|chunks| - 1, window - overlap);
    assert Fresh(last, false, overlap) == Words(text)[a..b][overlap..];
    ExtendCover(Words(text), a, b, overlap, e);
  }

  lemma ExtendCover(words: seq<string>, a: nat, b: nat, overlap: nat, e: nat)
    requires e == a + overlap <= b <= |words|
    ensures words[..e] + words[a..b][overlap..] == words[..b]
  {
    assert words[a..b][overlap..] == words[e..b];
  }

  lemma FrontWindows(text: string, window: nat, step: nat, chunks: seq<TextChunk>)
    requires WindowChunks(text, window, step, chunks) && chunks != []
    ensures WindowChunks(text, window, step, chunks[..|chunks| - 1])
  {
    var front := chunks[..|chunks| - 1];
    forall k: nat | k < |front| ensures WindowChunk(text, window, step, k, front[k]) {
      assert WindowChunk(text, window, step, k, chunks[k]);
    }
  }

  function CeilDiv(x: nat, y: nat): nat
    requires y > 0
  {
    (x + y - 1) / y
  }

  /** One window, and one more for every started step beyond it. */
  function WindowCount(n: nat, window: nat, step: nat): nat
    requires step > 0
  {
    if n == 0 then 0 else 1 + CeilDiv(if n > window then n - window else 0, step)
  }

  lemma CeilDivUnique(x: nat, y: nat, q: nat)
    requires y > 0 && x <= q * y && (q > 0 ==> (q - 1) * y < x)
    ensures CeilDiv(x, y) == q
  {
    var z := x + y - 1;
    assert q > 0 ==> (q - 1) * y == q * y - y;
    QuotientUnique(z, y, q);
  }

  lemma CompleteCount(n: nat, window: nat, step: nat, m: nat)
    requires step > 0 && Complete(n, window, step, m)
    ensures m == WindowCount(n, window, step)
  {
    if n > 0 {
      WindowStartIsProduct(m - 1, step);
      if m > 1 {
        WindowStartIsProduct(m - 2, step);
        assert ((m - 1) - 1) * step == (m - 2) * step;
        assert n > window;
      }
      var x := if n > window then n - window else 0;
      CeilDivUnique(x, step, m - 1);
    }
  }

  /** The windows are complete with the first one that reaches the last word. */
  lemma LastWindow(text: string, window: nat, overlap: nat, chunks: seq<TextChunk>)
    requires overlap < window && WindowChunks(text, window, window - overlap, chunks) && chunks != []
    requires WindowStart(|chunks| - 1, window - overlap) < |Words(text)|
    requires |Words(text)| <= WindowStart(|chunks| - 1, window - overlap) + window
    requires |chunks| > 1 ==> WindowStart(|chunks| - 2, window - overlap) + window < |Words(text)|
    ensures |chunks| == WindowCount(|Words(text)|, window, window - overlap)
    ensures Stitch(chunks, overlap) == Words(text)
  {
    CompleteCount(|Words(text)|, window, window - overlap, |chunks|);
    StitchedWords(text, window, overlap, chunks);
    assert Words(text)[..|Words(text)|] == Words(text);
  }

  class SlidingWindowChunker {
    const windowSize: nat
    const overlap: nat

    ghost predicate Valid() {
      overlap < windowSize
    }

    constructor (windowSize: nat, overlap: nat)
      requires 0 < windowSize && overlap < windowSize
      ensures Valid() && this.windowSize == windowSize && this.overlap == overlap
    {
      this.windowSize, this.overlap := windowSize, overlap;
    }

    /** The window that starts at word pos. */
    method TakeWindow(text: string, spans: seq<(nat, nat)>, pos: nat, ghost k: nat) returns (chunk: TextChunk, end: nat)
      requires Valid() && SpansOk(text, spans) && |spans| == |Words(text)| && pos < |spans|
      requires pos == WindowStart(k, windowSize - overlap)
      ensures WindowChunk(text, windowSize, windowSize - overlap, k, chunk)
      ensures end == WindowEnd(k, windowSize - overlap, windowSize, |spans|)
    {
      end := if pos + windowSize < |spans| then pos + windowSize else |spans|;
      SpanOrder(text, spans, pos, end);
      var byteStart, byteEnd := spans[pos].0, spans[end - 1].1;
      var content := text[byteStart..byteEnd];
      chunk := TextChunk(content, byteStart, byteEnd, EstimateTokens(content));
      EstimateIsCeiling(|Words(content)|, 0);
      SpansBound(text, spans, pos, end, content);
    }

    /** Windows cover the text: stitched together without their overlaps they give back all its words, each is an
        exact slice of the text, and there are just enough of them. */
    method Chunk(text: string) returns (chunks: seq<TextChunk>)
      requires Valid()
      ensures WindowChunks(text, windowSize, windowSize - overlap, chunks)
      ensures |chunks| == WindowCount(|Words(text)|, windowSize, windowSize - overlap)
      ensures Stitch(chunks, overlap) == Words(text)
    {
      chunks := [];
      if text == "" {
        return;
      }
      var spans := WordSpans(text);
      if spans == [] {
        return;
      }
      chunks := Windows(text, spans);
    }

    /** The loop over the windows. */
    method Windows(text: string, spans: seq<(nat, nat)>) returns (chunks: seq<TextChunk>)
      requires Valid() && SpansOk(text, spans) && |spans| == |Words(text)| && spans != []
      ensures WindowChunks(text, windowSize, windowSize - overlap, chunks)
      ensures |chunks| == WindowCount(|Words(text)|, windowSize, windowSize - overlap)
      ensures Stitch(chunks, overlap) == Words(text)
    {
      chunks := [];
      var step := windowSize - overlap;
      var pos := 0;
      while pos < |spans|
        invariant pos == WindowStart(|chunks|, step)
        invariant WindowChunks(text, windowSize, step, chunks)
        invariant |chunks| > 0 ==> WindowStart(|chunks| - 1, step) + windowSize < |spans|
        decreases |spans| - pos
      {
        var end;
        chunks, end := NextWindow(text, spans, pos, chunks);
        if end >= |spans| {
          LastWindow(text, windowSize, overlap, chunks);
          return;
        }
        pos := pos + step;
      }
      assert false;
    }

    /** Appends the window that starts at word pos. */
    method NextWindow(text: string, spans: seq<(nat, nat)>, pos: nat, before: seq<TextChunk>)
      returns (chunks: seq<TextChunk>, end: nat)
      requires Valid() && SpansOk(text, spans) && |spans| == |Words(text)| && pos < |spans|
      requires pos == WindowStart(|before|, windowSize - overlap)
      requires WindowChunks(text, windowSize, windowSize - overlap, before)
      ensures |chunks| == |before| + 1 && WindowChunks(text, windowSize, windowSize - overlap, chunks)
      ensures end == WindowEnd(|before|, windowSize - overlap, windowSize, |spans|)
    {
      var chunk;
      chunk, end := TakeWindow(text, spans, pos, |before|);
      chunks := AppendWindow(text, windowSize - overlap, before, chunk);
    }

    method AppendWindow(text: string, step: nat, before: seq<TextChunk>, chunk: TextChunk)
      returns (chunks: seq<TextChunk>)
      requires WindowChunks(text, windowSize, step, before) && WindowChunk(text, windowSize, step, |before|, chunk)
      ensures chunks == before + [chunk] && WindowChunks(text, windowSize, step, chunks)
    {
      chunks := before + [chunk];
      forall k: nat | k < |chunks| ensures WindowChunk(text, windowSize, step, k, chunks[k]) {
        if k < |before| { assert WindowChunk(text, windowSize, step, k, before[k]); }
      }
    }
  }
}
