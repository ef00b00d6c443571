/** Splitting text into sentences and grouping them greedily (crates/vil_chunker/src/semantic.rs). */
module SentenceChunker {
  import opened Seqs
  import opened Tokens

  /** Start and end of a sentence in the text, and the sentence itself. */
  datatype Sentence = Sentence(start: nat, end: nat, text: string)

  // ----- sentences -----

  /** Position i ends a sentence: closing punctuation before a blank or at the end of the text. */
  predicate Boundary(text: string, i: nat)
    requires i < |text|
  {
    (text[i] == '.' || text[i] == '!' || text[i] == '?') && (i + 1 >= |text| || IsSpace(text[i + 1]))
  }

  /** No position in a..b-1 ends a sentence. */
  predicate NoBoundary(text: string, a: nat, b: nat)
    requires b <= |text|
  {
    forall i :: a <= i < b ==> !Boundary(text, i)
  }

  /** A sentence is the trimmed text between two cuts: it has no boundary before its last character, and ends at
      one or at the end of the text. */
  predicate SentenceOk(text: string, s: Sentence) {
    && s.start < s.end <= |text|
    && s.text == Trim(text[s.start..s.end])
    && Trimmed(s.text)
    && NoBoundary(text, s.start, s.end - 1)
    && (Boundary(text, s.end - 1) || s.end == |text|)
  }

  predicate SentencesOk(text: string, sentences: seq<Sentence>) {
    forall k :: 0 <= k < |sentences| ==> SentenceOk(text, sentences[k])
  }

  predicate BlankBetween(text: string, a: nat, b: nat)
    requires b <= |text|
  {
    forall i :: a <= i < b ==> IsSpace(text[i])
  }

  /** A sentence that ends at e is followed by the one that starts at the next character that is not blank. */
  predicate NextStart(text: string, e: nat, start: nat) {
    && e <= start <= |text|
    && BlankBetween(text, e, start)
    && (start < |text| ==> !IsSpace(text[start]))
  }

  /** Where the sentence after these starts: at 0, blanks included, or after the blanks behind the last one. */
  predicate StartsAfter(text: string, before: seq<Sentence>, start: nat) {
    if before == [] then start == 0 else NextStart(text, before[|before| - 1].end, start)
  }

  predicate Tiled(text: string, sentences: seq<Sentence>) {
    forall k: nat {:trigger StartOk(text, sentences, k)} :: k < |sentences| ==> StartOk(text, sentences, k)
  }

  predicate StartOk(text: string, sentences: seq<Sentence>, k: nat)
    requires k < |sentences|
  {
    StartsAfter(text, sentences[..k], sentences[k].start)
  }

  /** Nothing but blanks is left behind these sentences. */
  predicate Exhausted(text: string, sentences: seq<Sentence>) {
    if sentences == [] then BlankBetween(text, 0, |text|) else NextStart(text, sentences[|sentences| - 1].end, |text|)
  }

  /** These are the sentences of the text, in order. */
  predicate SentencesOf(text: string, sentences: seq<Sentence>) {
    SentencesOk(text, sentences) && Tiled(text, sentences) && Exhausted(text, sentences)
  }

  /** A sentence ends at the first '.', '!' or '?' in front of a blank, or with the text. */
  lemma SentenceEndsAtMark(text: string, sentences: seq<Sentence>, k: nat)
    requires SentencesOf(text, sentences) && k < |sentences|
    ensures sentences[k].start < sentences[k].end <= |text|
    ensures sentences[k].end < |text| ==> text[sentences[k].end - 1] in ".!?" && IsSpace(text[sentences[k].end])
    ensures forall i {:trigger text[i]} ::
      sentences[k].start <= i < sentences[k].end - 1 && text[i] in ".!?" ==> !IsSpace(text[i + 1])
  {
    var s := sentences[k];
    assert SentenceOk(text, s);
    forall i {:trigger text[i]} | s.start <= i < s.end - 1 && text[i] in ".!?" ensures !IsSpace(text[i + 1]) {
      assert !Boundary(text, i);
    }
  }

  /** The definition leaves no choice: a text has one list of sentences. */
  lemma SentencesUnique(text: string, s: seq<Sentence>, t: seq<Sentence>)
    requires SentencesOf(text, s) && SentencesOf(text, t)
    ensures s == t
  {
    var n := if |s| <= |t| then |s| else |t|;
    PrefixAgrees(text, s, t, n);
    assert s[..|s|] == s && t[..|t|] == t;
    if n < |t| { NoneBehind(text, s, t); }
    if n < |s| { NoneBehind(text, t, s); }
  }

  lemma {:induction false} PrefixAgrees(text: string, s: seq<Sentence>, t: seq<Sentence>, n: nat)
    requires SentencesOf(text, s) && SentencesOf(text, t) && n <= |s| && n <= |t|
    ensures s[..n] == t[..n]
  {
    if n > 0 {
      var k := n - 1;
      PrefixAgrees(text, s, t, k);
      SameAt(text, s, t, k);
      TakeOneMore(s, k);
      TakeOneMore(t, k);
    }
  }

  lemma SameAt(text: string, s: seq<Sentence>, t: seq<Sentence>, k: nat)
    requires SentencesOf(text, s) && SentencesOf(text, t) && k < |s| && k < |t| && s[..k] == t[..k]
    ensures s[k] == t[k]
  {
    assert StartOk(text, s, k) && StartOk(text, t, k);
    SameSentence(text, s[..k], s[k], t[k]);
  }

  lemma SameSentence(text: string, before: seq<Sentence>, s: Sentence, t: Sentence)
    requires SentenceOk(text, s) && SentenceOk(text, t)
    requires StartsAfter(text, before, s.start) && StartsAfter(text, before, t.start)
    ensures s == t
  {
  }

  /** No list of sentences of the text goes on where another one ends. */
  lemma NoneBehind(text: string, s: seq<Sentence>, t: seq<Sentence>)
    requires SentencesOf(text, s) && SentencesOf(text, t) && |s| <= |t| && t[..|s|] == s
    ensures |s| == |t|
  {
    if |s| < |t| { NotBlankBehind(text, t, |s|); }
  }

  lemma NotBlankBehind(text: string, t: seq<Sentence>, k: nat)
    requires SentencesOf(text, t) && k < |t|
    ensures t[k].start < |text| && StartsAfter(text, t[..k], t[k].start) && !BlankBetween(text, t[k].start, |text|)
  {
    var next := t[k];
    assert SentenceOk(text, next) && StartOk(text, t, k);
    TrimToNothing(text[next.start..next.end]);
    BlankSlice(text, next.start, next.end);
  }

  lemma BlankSlice(text: string, a: nat, b: nat)
    requires a <= b <= |text|
    ensures Blank(text[a..b]) <==> BlankBetween(text, a, b)
  {
    if Blank(text[a..b]) {
      forall i | a <= i < b ensures IsSpace(text[i]) { assert text[a..b][i - a] == text[i]; }
    }
  }

  lemma TiledAppend(text: string, before: seq<Sentence>, s: Sentence)
    requires Tiled(text, before) && StartsAfter(text, before, s.start)
    ensures Tiled(text, before + [s])
  {
    var all := before + [s];
    forall k: nat | k < |all| ensures StartOk(text, all, k) {
      if k < |before| {
        assert StartOk(text, before, k);
        assert all[..k] == before[..k] && all[k] == before[k];
      } else {
        assert all[..k] == before;
      }
    }
  }

  function WordsOf(sentences: seq<Sentence>): seq<string> {
    if sentences == [] then [] else WordsOf(sentences[..|sentences| - 1]) + Words(sentences[|sentences| - 1].text)
  }

  lemma WordsOfAppend(sentences: seq<Sentence>, s: Sentence)
    ensures WordsOf(sentences + [s]) == WordsOf(sentences) + Words(s.text)
  {
    assert (sentences + [s])[..|sentences|] == sentences;
  }

  /** Skips the blanks that start at i. */
  method SkipBlanks(text: string, from: nat) returns (i: nat)
    requires from <= |text|
    ensures NextStart(text, from, i) && Words(text[i..]) == Words(text[from..])
  {
    i := from;
    while i < |text| && IsSpace(text[i])
      invariant from <= i <= |text| && BlankBetween(text, from, i) && Words(text[i..]) == Words(text[from..])
    {
      assert text[i..][1..] == text[i + 1..];
      i := i + 1;
    }
  }

  lemma PieceIsSentence(text: string, start: nat, end: nat)
    requires start < end <= |text| && NoBoundary(text, start, end - 1)
    requires Boundary(text, end - 1) || end == |text|
    requires Trim(text[start..end]) != ""
    ensures SentenceOk(text, Sentence(start, end, Trim(text[start..end])))
  {
    TrimWords(text[start..end]);
  }

  lemma SentencesOkAppend(text: string, sentences: seq<Sentence>, s: Sentence)
    requires SentencesOk(text, sentences) && SentenceOk(text, s)
    ensures SentencesOk(text, sentences + [s])
  {
  }

  /** The trimmed piece text[start..end] as a sentence, unless it is blank. */
  method TakeSentence(text: string, start: nat, end: nat, before: seq<Sentence>) returns (sentences: seq<Sentence>)
    requires start < end <= |text| && NoBoundary(text, start, end - 1)
    requires Boundary(text, end - 1) || end == |text|
    requires SentencesOk(text, before) && Tiled(text, before) && StartsAfter(text, before, start)
    ensures SentencesOk(text, sentences) && Tiled(text, sentences)
    ensures WordsOf(sentences) == WordsOf(before) + Words(text[start..end])
    ensures if BlankBetween(text, start, end) then sentences == before
            else sentences != [] && sentences[|sentences| - 1].end == end
  {
    var sentence := Trim(text[start..end]);
    TrimWords(text[start..end]);
    TrimToNothing(text[start..end]);
    BlankSlice(text, start, end);
    if sentence == "" {
      return before;
    }
    var s := Sentence(start, end, sentence);
    PieceIsSentence(text, start, end);
    SentencesOkAppend(text, before, s);
    TiledAppend(text, before, s);
    WordsOfAppend(before, s);
    return before + [s];
  }

  lemma WordsAtBoundary(text: string, start: nat, end: nat)
    requires start < end <= |text| && (end == |text| || IsSpace(text[end]))
    ensures Words(text[start..]) == Words(text[start..end]) + Words(text[end..])
  {
    assert text[start..] == text[start..end] + text[end..];
    WordsSplit(text[start..end], text[end..]);
  }

  /** The text before `start` is split, and no sentence ends from there to i. */
  ghost predicate SplitUpTo(text: string, sentences: seq<Sentence>, start: nat, i: nat) {
    && start <= i <= |text|
    && NoBoundary(text, start, i)
    && SentencesOk(text, sentences) && Tiled(text, sentences) && StartsAfter(text, sentences, start)
    && WordsOf(sentences) + Words(text[start..]) == Words(text)
  }

  /** Closes the sentence that ends at position i, and skips the blanks after it. */
  method CloseSentence(text: string, start: nat, i: nat, before: seq<Sentence>)
    returns (sentences: seq<Sentence>, next: nat)
    requires i < |text| && Boundary(text, i) && SplitUpTo(text, before, start, i)
    ensures i < next && SplitUpTo(text, sentences, next, next)
  {
    var end := i + 1;
    WordsAtBoundary(text, start, end);
    assert !IsSpace(text[i]);
    sentences := TakeSentence(text, start, end, before);
    next := SkipBlanks(text, end);
    Regroup(Words(text), WordsOf(before), Words(text[start..end]), Words(text[end..]));
  }

  lemma Regroup(all: seq<string>, a: seq<string>, b: seq<string>, c: seq<string>)
    requires all == a + (b + c)
    ensures all == (a + b) + c
  {
  }

  lemma SplitAtStart(text: string)
    ensures SplitUpTo(text, [], 0, 0)
  {
    assert text[0..] == text;
    assert WordsOf([]) == [];
  }

  lemma SplitMovesOn(text: string, sentences: seq<Sentence>, start: nat, i: nat)
    requires i < |text| && !Boundary(text, i) && SplitUpTo(text, sentences, start, i)
    ensures SplitUpTo(text, sentences, start, i + 1)
  {
  }

  method SplitSentences(text: string) returns (sentences: seq<Sentence>)
    ensures SentencesOf(text, sentences)
    ensures WordsOf(sentences) == Words(text)
  {
    sentences := [];
    var start, i := 0, 0;
    SplitAtStart(text);
    while i < |text|
      invariant SplitUpTo(text, sentences, start, i)
      decreases |text| - i
    {
      if Boundary(text, i) {
        sentences, i := CloseSentence(text, start, i, sentences);
        start := i;
      } else {
        SplitMovesOn(text, sentences, start, i);
        i := i + 1;
      }
    }
    sentences := TakeRest(text, start, sentences);
  }

  /** What follows the last boundary, as a sentence unless it is blank. */
  method TakeRest(text: string, start: nat, before: seq<Sentence>) returns (sentences: seq<Sentence>)
    requires SplitUpTo(text, before, start, |text|)
    ensures SentencesOf(text, sentences) && WordsOf(sentences) == Words(text)
  {
    sentences := before;
    if start < |text| {
      assert text[start..|text|] == text[start..];
      sentences := TakeSentence(text, start, |text|, before);
    }
  }

  // ----- greedy grouping, in the abstract -----

  function Total(weights: seq<nat>): nat {
    if weights == [] then 0 else Total(weights[..|weights| - 1]) + weights[|weights| - 1]
  }

  lemma {:induction false} TotalConcat(a: seq<nat>, b: seq<nat>)
    ensures Total(a + b) == Total(a) + Total(b)
    decreases |b|
  {
    if b == [] {
      assert a + b == a;
    } else {
      TotalConcat(a, b[..|b| - 1]);
      assert (a + b)[..|a + b| - 1] == a + b[..|b| - 1];
    }
  }

  /** Sentences a..b-1 may share a chunk: at 1.3 tokens a word they stay within the budget, or there is only one. */
  predicate Fits(weights: seq<nat>, budget: nat, a: nat, b: nat)
    requires a <= b <= |weights|
  {
    b <= a + 1 || 13 * Total(weights[a..b]) <= 10 * budget
  }

  /** Part of a group that fits, fits. */
  lemma FitsInside(weights: seq<nat>, budget: nat, a: nat, b: nat, c: nat, d: nat)
    requires a <= c <= d <= b <= |weights| && Fits(weights, budget, a, b)
    ensures Fits(weights, budget, c, d)
  {
    assert weights[a..b] == weights[a..c] + (weights[c..d] + weights[d..b]);
    TotalConcat(weights[a..c], weights[c..d] + weights[d..b]);
    TotalConcat(weights[c..d], weights[d..b]);
  }

  /** cuts splits n sentences into consecutive non-empty groups. */
  ghost predicate Grouping(cuts: seq<nat>, n: nat) {
    && |cuts| > 0 && cuts[0] == 0 && cuts[|cuts| - 1] == n
    && forall k :: 0 < k < |cuts| ==> cuts[k - 1] < cuts[k]
  }

  lemma {:induction false} GroupingBelow(cuts: seq<nat>, n: nat, k: nat)
    requires Grouping(cuts, n) && k < |cuts|
    ensures cuts[k] <= n && (k < |cuts| - 1 ==> cuts[k] < n)
    decreases |cuts| - k
  {
    if k < |cuts| - 1 { GroupingBelow(cuts, n, k + 1); }
  }

  /** Every group fits. */
  ghost predicate Admissible(weights: seq<nat>, budget: nat, cuts: seq<nat>) {
    && Grouping(cuts, |weights|)
    && forall k: nat {:trigger GroupFits(weights, budget, cuts, k)} :: 0 < k < |cuts| ==>
      GroupFits(weights, budget, cuts, k)
  }

  ghost predicate GroupFits(weights: seq<nat>, budget: nat, cuts: seq<nat>, k: nat)
    requires 0 < k < |cuts|
  {
    cuts[k - 1] <= cuts[k] <= |weights| && Fits(weights, budget, cuts[k - 1], cuts[k])
  }

  /** No group but the last could have taken one sentence more. */
  ghost predicate GroupFull(weights: seq<nat>, budget: nat, cuts: seq<nat>, k: nat)
    requires 0 < k < |cuts|
  {
    cuts[k - 1] <= cuts[k] < |weights| && !Fits(weights, budget, cuts[k - 1], cuts[k] + 1)
  }

  ghost predicate Greedy(weights: seq<nat>, budget: nat, cuts: seq<nat>) {
    && Admissible(weights, budget, cuts)
    && forall k: nat {:trigger GroupFull(weights, budget, cuts, k)} :: 0 < k < |cuts| - 1 ==>
      GroupFull(weights, budget, cuts, k)
  }

  /** Greedy cuts stay ahead of any other. */
  lemma {:induction false} GreedyStaysAhead(weights: seq<nat>, budget: nat, cuts: seq<nat>, other: seq<nat>, k: nat)
    requires Greedy(weights, budget, cuts) && Admissible(weights, budget, other)
    requires k < |cuts| - 1 && k < |other|
    ensures other[k] <= cuts[k]
    decreases k
  {
    if k > 0 {
      GreedyStaysAhead(weights, budget, cuts, other, k - 1);
      assert GroupFull(weights, budget, cuts, k);
      assert GroupFits(weights, budget, other, k);
      if other[k] > cuts[k] {
        FitsInside(weights, budget, other[k - 1], other[k], cuts[k - 1], cuts[k] + 1);
      }
    }
  }

  /** Greedy grouping uses the fewest groups. */
  lemma GreedyIsOptimal(weights: seq<nat>, budget: nat, cuts: seq<nat>, other: seq<nat>)
    requires Greedy(weights, budget, cuts) && Admissible(weights, budget, other)
    ensures |cuts| <= |other|
  {
    if |other| < |cuts| {
      var k := |other| - 1;
      GreedyStaysAhead(weights, budget, cuts, other, k);
      GroupingBelow(cuts, |weights|, k);
    }
  }

  // ----- the chunker -----

  /** The sentences joined by single blanks. */
  function Join(sentences: seq<Sentence>): string {
    if sentences == [] then ""
    else if |sentences| == 1 then sentences[0].text
    else Join(sentences[..|sentences| - 1]) + " " + sentences[|sentences| - 1].text
  }

  predicate AllTrimmed(sentences: seq<Sentence>) {
    forall k :: 0 <= k < |sentences| ==> Trimmed(sentences[k].text)
  }

  lemma JoinAppend(sentences: seq<Sentence>, s: Sentence)
    requires sentences != []
    ensures Join(sentences + [s]) == Join(sentences) + " " + s.text
  {
    assert (sentences + [s])[..|sentences|] == sentences;
  }

  /** A joined group is trimmed and holds the words of its sentences. */
  lemma {:induction false} JoinWords(sentences: seq<Sentence>)
    requires AllTrimmed(sentences) && sentences != []
    ensures Trimmed(Join(sentences)) && Words(Join(sentences)) == WordsOf(sentences)
    decreases |sentences|
  {
    var m := |sentences| - 1;
    var front, last := sentences[..m], sentences[m];
    assert sentences == front + [last];
    WordsOfAppend(front, last);
    if m > 0 {
      JoinWords(front);
      JoinAppend(front, last);
      AppendWords(Join(front), last.text);
    }
  }

  lemma AllTrimmedSlice(sentences: seq<Sentence>, a: nat, b: nat)
    requires AllTrimmed(sentences) && a <= b <= |sentences|
    ensures AllTrimmed(sentences[a..b])
  {
  }

  lemma AppendWords(buf: string, text: string)
    requires Trimmed(buf) && Trimmed(text)
    ensures Trimmed(buf + " " + text) && Words(buf + " " + text) == Words(buf) + Words(text)
  {
    var front, all := buf + " ", buf + " " + text;
    assert all[0] == buf[0] && all[|all| - 1] == text[|text| - 1];
    BlankEndsWords(buf, front);
    WordsSplit(front, text);
  }

  lemma BlankEndsWords(buf: string, front: string)
    requires front == buf + " "
    ensures front != "" && IsSpace(front[|front| - 1]) && Words(front) == Words(buf)
  {
    WordsSplit(buf, " ");
    WordsOfBlank(" ");
  }

  function Weights(sentences: seq<Sentence>): (w: seq<nat>)
    ensures |w| == |sentences| && forall k :: 0 <= k < |w| ==> w[k] == |Words(sentences[k].text)|
  {
    seq(|sentences|, k requires 0 <= k < |sentences| => |Words(sentences[k].text)|)
  }

  lemma {:induction false} TotalWeight(sentences: seq<Sentence>)
    ensures Total(Weights(sentences)) == |WordsOf(sentences)|
    decreases |sentences|
  {
    if sentences != [] {
      var front := sentences[..|sentences| - 1];
      TotalWeight(front);
      assert Weights(sentences)[..|front|] == Weights(front);
    }
  }

  lemma WeightOfGroup(sentences: seq<Sentence>, a: nat, b: nat)
    requires a <= b <= |sentences|
    ensures Total(Weights(sentences)[a..b]) == |WordsOf(sentences[a..b])|
  {
    TotalWeight(sentences[a..b]);
    assert Weights(sentences)[a..b] == Weights(sentences[a..b]);
  }

  /** Chunk c carries exactly the sentences a..b-1, and counts 1.3 tokens a word, rounded up. */
  ghost predicate ChunkOf(sentences: seq<Sentence>, a: nat, b: nat, c: TextChunk) {
    && a < b <= |sentences|
    && c.content == Join(sentences[a..b])
    && c.start == sentences[a].start
    && c.end == c.start + |c.content|
    && 13 * |Words(c.content)| <= 10 * c.tokenCount < 13 * |Words(c.content)| + 10
  }

  /** The chunks are the groups between the cuts, in order. */
  ghost predicate ChunksOf(sentences: seq<Sentence>, cuts: seq<nat>, chunks: seq<TextChunk>) {
    && |cuts| == |chunks| + 1
    && forall k :: 0 <= k < |chunks| ==> ChunkOf(sentences, cuts[k], cuts[k + 1], chunks[k])
  }

  /** Cuts made so far: 0 first, ascending, every finished group fitting and full. */
  ghost predicate GreedySoFar(weights: seq<nat>, budget: nat, cuts: seq<nat>, n: nat) {
    && |cuts| > 0 && cuts[0] == 0 && n <= |weights|
    && (forall k :: 0 < k < |cuts| ==> cuts[k - 1] < cuts[k])
    && cuts[|cuts| - 1] <= n
    && (forall k: nat {:trigger GroupFits(weights, budget, cuts, k)} :: 0 < k < |cuts| ==>
      GroupFits(weights, budget, cuts, k))
    && (forall k: nat {:trigger GroupFull(weights, budget, cuts, k)} :: 0 < k < |cuts| ==>
      GroupFull(weights, budget, cuts, k))
  }

  lemma CutExtends(weights: seq<nat>, budget: nat, cuts: seq<nat>, n: nat)
    requires GreedySoFar(weights, budget, cuts, n) && n < |weights| && cuts[|cuts| - 1] < n
    requires Fits(weights, budget, cuts[|cuts| - 1], n) && !Fits(weights, budget, cuts[|cuts| - 1], n + 1)
    ensures GreedySoFar(weights, budget, cuts + [n], n)
  {
    var all := cuts + [n];
    forall k: nat | 0 < k < |all| ensures GroupFits(weights, budget, all, k) && GroupFull(weights, budget, all, k) {
      if k < |cuts| {
        assert GroupFits(weights, budget, cuts, k) && GroupFull(weights, budget, cuts, k);
      }
    }
  }

  lemma LastCut(weights: seq<nat>, budget: nat, cuts: seq<nat>)
    requires GreedySoFar(weights, budget, cuts, |weights|) && cuts[|cuts| - 1] < |weights|
    requires Fits(weights, budget, cuts[|cuts| - 1], |weights|)
    ensures Greedy(weights, budget, cuts + [|weights|])
  {
    var all := cuts + [|weights|];
    forall k: nat | 0 < k < |all| ensures GroupFits(weights, budget, all, k) {
      if k < |cuts| { assert GroupFits(weights, budget, cuts, k); }
    }
    forall k: nat | 0 < k < |all| - 1 ensures GroupFull(weights, budget, all, k) {
      assert GroupFull(weights, budget, cuts, k);
    }
  }

  method Flush(ghost sentences: seq<Sentence>, ghost a: nat, ghost b: nat, buf: string, before: seq<TextChunk>,
               chunkStart: nat)
    returns (chunks: seq<TextChunk>)
    requires AllTrimmed(sentences) && a < b <= |sentences|
    requires buf == Join(sentences[a..b]) && chunkStart == sentences[a].start
    ensures |chunks| == |before| + 1 && chunks[..|before|] == before
    ensures ChunkOf(sentences, a, b, chunks[|before|])
  {
    JoinWords(sentences[a..b]);
    TrimmedIsFixed(buf);
    var trimmed := Trim(buf);
    var tokenCount := EstimateTokens(trimmed);
    EstimateIsCeiling(|Words(trimmed)|, 0);
    chunks := before + [TextChunk(trimmed, chunkStart, chunkStart + |trimmed|, tokenCount)];
  }

  /** The buffer is the group a..i-1, empty only at the very start. */
  ghost predicate Buffers(sentences: seq<Sentence>, a: nat, i: nat, buf: string, chunkStart: nat) {
    && a <= i <= |sentences|
    && buf == Join(sentences[a..i])
    && (buf == "" <==> a == i)
    && (a < i ==> chunkStart == sentences[a].start)
  }

  lemma BufferAppend(sentences: seq<Sentence>, a: nat, i: nat, buf: string, chunkStart: nat, grown: string)
    requires AllTrimmed(sentences) && Buffers(sentences, a, i, buf, chunkStart) && a < i < |sentences|
    requires grown == buf + " " + sentences[i].text
    ensures Buffers(sentences, a, i + 1, grown, chunkStart)
    ensures TrimEnd(buf) == buf
    ensures |Words(grown)| == Total(Weights(sentences)[a..i + 1])
  {
    var group, longer := sentences[a..i], sentences[a..i + 1];
    assert longer == group + [sentences[i]];
    AllTrimmedSlice(sentences, a, i);
    AllTrimmedSlice(sentences, a, i + 1);
    GrowGroup(group, sentences[i], longer);
    GroupWeight(sentences, a, i + 1, grown);
  }

  lemma GroupWeight(sentences: seq<Sentence>, a: nat, b: nat, joined: string)
    requires AllTrimmed(sentences) && a < b <= |sentences| && joined == Join(sentences[a..b])
    ensures |Words(joined)| == Total(Weights(sentences)[a..b])
  {
    AllTrimmedSlice(sentences, a, b);
    JoinWords(sentences[a..b]);
    WeightOfGroup(sentences, a, b);
  }

  lemma GrowGroup(group: seq<Sentence>, s: Sentence, longer: seq<Sentence>)
    requires group != [] && longer == group + [s] && AllTrimmed(group) && AllTrimmed(longer)
    ensures TrimEnd(Join(group)) == Join(group)
    ensures Join(longer) == Join(group) + " " + s.text
    ensures |Words(Join(longer))| == |WordsOf(longer)|
  {
    JoinWords(group);
    TrimmedIsFixed(Join(group));
    JoinAppend(group, s);
    JoinWords(longer);
  }

  lemma BufferRestart(sentences: seq<Sentence>, i: nat)
    requires AllTrimmed(sentences) && i < |sentences|
    ensures Buffers(sentences, i, i + 1, sentences[i].text, sentences[i].start)
  {
    assert sentences[i..i + 1] == [sentences[i]];
  }

  /** Whether adding sentence i to the buffer exceeds the budget. */
  method WouldOverflow(sentences: seq<Sentence>, ghost a: nat, i: nat, buf: string, ghost chunkStart: nat,
                       maxTokens: nat)
    returns (over: bool)
    requires AllTrimmed(sentences) && i < |sentences| && Buffers(sentences, a, i, buf, chunkStart)
    ensures over <==> a < i && !Fits(Weights(sentences), maxTokens, a, i + 1)
  {
    var sentence := sentences[i].text;
    var merged := if buf == "" then sentence else TrimEnd(buf) + " " + sentence;
    if a < i { BufferAppend(sentences, a, i, buf, chunkStart, buf + " " + sentence); }
    over := EstimateTokens(merged) > maxTokens && buf != "";
    EstimateIsCeiling(|Words(merged)|, maxTokens);
  }

  /** Adds sentence i to the buffer. */
  method Push(sentences: seq<Sentence>, ghost a: nat, i: nat, buf0: string, chunkStart0: nat)
    returns (buf: string, chunkStart: nat)
    requires AllTrimmed(sentences) && i < |sentences| && Buffers(sentences, a, i, buf0, chunkStart0)
    ensures Buffers(sentences, a, i + 1, buf, chunkStart)
  {
    if buf0 == "" {
      buf := sentences[i].text;
      chunkStart := sentences[i].start;
      BufferRestart(sentences, i);
    } else {
      chunkStart := chunkStart0;
      buf := buf0 + " " + sentences[i].text;
      BufferAppend(sentences, a, i, buf0, chunkStart0, buf);
    }
  }

  lemma ChunksOfAppend(sentences: seq<Sentence>, cuts: seq<nat>, before: seq<TextChunk>, chunks: seq<TextChunk>, b: nat)
    requires ChunksOf(sentences, cuts, before) && |cuts| > 0
    requires |chunks| == |before| + 1 && chunks[..|before|] == before
    requires ChunkOf(sentences, cuts[|cuts| - 1], b, chunks[|before|])
    ensures ChunksOf(sentences, cuts + [b], chunks)
  {
    var all := cuts + [b];
    forall k | 0 <= k < |chunks| ensures ChunkOf(sentences, all[k], all[k + 1], chunks[k]) {
      if k < |before| { assert chunks[k] == before[k]; }
    }
  }

  /** The first i sentences are grouped: finished chunks up to the last cut, the rest in the buffer. */
  ghost predicate Grouped(sentences: seq<Sentence>, budget: nat, i: nat, cuts: seq<nat>, chunks: seq<TextChunk>,
                          buf: string, chunkStart: nat) {
    && i <= |sentences|
    && GreedySoFar(Weights(sentences), budget, cuts, i)
    && ChunksOf(sentences, cuts, chunks)
    && Buffers(sentences, cuts[|cuts| - 1], i, buf, chunkStart)
    && Fits(Weights(sentences), budget, cuts[|cuts| - 1], i)
  }

  /** Flushes the buffer when sentence i no longer fits. */
  method MakeRoom(sentences: seq<Sentence>, i: nat, buf0: string, chunkStart0: nat, maxTokens: nat,
                  before: seq<TextChunk>, ghost cuts0: seq<nat>)
    returns (chunks: seq<TextChunk>, buf: string, chunkStart: nat, ghost cuts: seq<nat>)
    requires AllTrimmed(sentences) && i < |sentences|
    requires Grouped(sentences, maxTokens, i, cuts0, before, buf0, chunkStart0)
    ensures Grouped(sentences, maxTokens, i, cuts, chunks, buf, chunkStart)
    ensures Fits(Weights(sentences), maxTokens, cuts[|cuts| - 1], i + 1)
  {
    ghost var a := cuts0[|cuts0| - 1];
    chunks, buf, chunkStart, cuts := before, buf0, chunkStart0, cuts0;
    var over := WouldOverflow(sentences, a, i, buf, chunkStart, maxTokens);
    if over {
      chunks := Flush(sentences, a, i, buf, chunks, chunkStart);
      CutExtends(Weights(sentences), maxTokens, cuts, i);
      ChunksOfAppend(sentences, cuts0, before, chunks, i);
      cuts := cuts0 + [i];
      buf := "";
      chunkStart := sentences[i].start;
      assert sentences[i..i] == [];
    }
  }

  /** Takes sentence i in. */
  method AddSentence(sentences: seq<Sentence>, i: nat, buf0: string, chunkStart0: nat, maxTokens: nat,
                     before: seq<TextChunk>, ghost cuts0: seq<nat>)
    returns (chunks: seq<TextChunk>, buf: string, chunkStart: nat, ghost cuts: seq<nat>)
    requires AllTrimmed(sentences) && i < |sentences|
    requires Grouped(sentences, maxTokens, i, cuts0, before, buf0, chunkStart0)
    ensures Grouped(sentences, maxTokens, i + 1, cuts, chunks, buf, chunkStart)
  {
    chunks, buf, chunkStart, cuts := MakeRoom(sentences, i, buf0, chunkStart0, maxTokens, before, cuts0);
    buf, chunkStart := Push(sentences, cuts[|cuts| - 1], i, buf, chunkStart);
    GreedySoFarGrows(Weights(sentences), maxTokens, cuts, i);
  }

  /** Flushes what is left after the last sentence. */
  method FlushRest(sentences: seq<Sentence>, buf: string, chunkStart: nat, maxTokens: nat,
                   before: seq<TextChunk>, ghost cuts0: seq<nat>)
    returns (chunks: seq<TextChunk>, ghost cuts: seq<nat>)
    requires AllTrimmed(sentences)
    requires Grouped(sentences, maxTokens, |sentences|, cuts0, before, buf, chunkStart)
    ensures Greedy(Weights(sentences), maxTokens, cuts) && ChunksOf(sentences, cuts, chunks)
  {
    chunks, cuts := before, cuts0;
    if buf != "" {
      chunks := Flush(sentences, cuts0[|cuts0| - 1], |sentences|, buf, before, chunkStart);
      LastCut(Weights(sentences), maxTokens, cuts0);
      ChunksOfAppend(sentences, cuts0, before, chunks, |sentences|);
      cuts := cuts0 + [|sentences|];
    } else {
      NothingLeft(Weights(sentences), maxTokens, cuts0);
    }
  }

  lemma NothingLeft(weights: seq<nat>, budget: nat, cuts: seq<nat>)
    requires GreedySoFar(weights, budget, cuts, |weights|) && cuts[|cuts| - 1] == |weights|
    ensures Greedy(weights, budget, cuts)
  {
  }

  lemma GroupedAtStart(sentences: seq<Sentence>, budget: nat)
    ensures Grouped(sentences, budget, 0, [0], [], "", 0)
  {
    assert sentences[0..0] == [];
  }

  /** The chunks are a greedy grouping of the sentences. */
  ghost predicate GreedyChunks(sentences: seq<Sentence>, budget: nat, chunks: seq<TextChunk>) {
    exists cuts :: Greedy(Weights(sentences), budget, cuts) && ChunksOf(sentences, cuts, chunks)
  }

  /** Groups sentences greedily under the budget. */
  method GroupSentences(sentences: seq<Sentence>, maxTokens: nat) returns (chunks: seq<TextChunk>)
    requires AllTrimmed(sentences)
    ensures GreedyChunks(sentences, maxTokens, chunks)
  {
    ghost var cuts: seq<nat>;
    chunks := [];
    var buf, chunkStart := "", 0;
    cuts := [0];
    GroupedAtStart(sentences, maxTokens);
    for i := 0 to |sentences|
      invariant Grouped(sentences, maxTokens, i, cuts, chunks, buf, chunkStart)
    {
      chunks, buf, chunkStart, cuts := AddSentence(sentences, i, buf, chunkStart, maxTokens, chunks, cuts);
    }
    chunks, cuts := FlushRest(sentences, buf, chunkStart, maxTokens, chunks, cuts);
  }

  lemma GreedySoFarGrows(weights: seq<nat>, budget: nat, cuts: seq<nat>, n: nat)
    requires GreedySoFar(weights, budget, cuts, n) && n < |weights|
    ensures GreedySoFar(weights, budget, cuts, n + 1)
  {
  }

  /** The words of all chunks, one chunk after the other. */
  function ChunkWords(chunks: seq<TextChunk>): seq<string> {
    if chunks == [] then [] else ChunkWords(chunks[..|chunks| - 1]) + Words(chunks[|chunks| - 1].content)
  }

  lemma ConcatShape(a: seq<Sentence>, b: seq<Sentence>, front: seq<Sentence>, last: Sentence)
    requires b != [] && front == b[..|b| - 1] && last == b[|b| - 1]
    ensures b == front + [last] && a + b == (a + front) + [last]
  {
  }

  lemma {:induction false} WordsOfConcat(a: seq<Sentence>, b: seq<Sentence>)
    ensures WordsOf(a + b) == WordsOf(a) + WordsOf(b)
    decreases |b|
  {
    if b == [] {
      assert a + b == a;
    } else {
      var front, last := b[..|b| - 1], b[|b| - 1];
      WordsOfConcat(a, front);
      ConcatShape(a, b, front, last);
      WordsOfAppend(a + front, last);
      WordsOfAppend(front, last);
      Reassociate(WordsOf(a), WordsOf(front), Words(last.text));
    }
  }

  lemma ChunksOfFront(sentences: seq<Sentence>, cuts: seq<nat>, chunks: seq<TextChunk>)
    requires ChunksOf(sentences, cuts, chunks) && chunks != []
    ensures ChunksOf(sentences, cuts[..|chunks|], chunks[..|chunks| - 1])
  {
    forall k | 0 <= k < |chunks| - 1
      ensures ChunkOf(sentences, cuts[..|chunks|][k], cuts[..|chunks|][k + 1], chunks[..|chunks| - 1][k])
    {
      assert ChunkOf(sentences, cuts[k], cuts[k + 1], chunks[k]);
    }
  }

  lemma GroupKeepsWords(sentences: seq<Sentence>, a: nat, b: nat, c: TextChunk)
    requires AllTrimmed(sentences) && ChunkOf(sentences, a, b, c)
    ensures WordsOf(sentences[..b]) == WordsOf(sentences[..a]) + Words(c.content)
  {
    var before, group := sentences[..a], sentences[a..b];
    assert sentences[..b] == before + group;
    AllTrimmedSlice(sentences, a, b);
    JoinWords(group);
    WordsOfConcat(before, group);
  }

  lemma ChunkWordsUnfold(chunks: seq<TextChunk>, front: seq<TextChunk>, last: TextChunk)
    requires chunks != [] && front == chunks[..|chunks| - 1] && last == chunks[|chunks| - 1]
    ensures ChunkWords(chunks) == ChunkWords(front) + Words(last.content)
  {
  }

  lemma {:induction false} ChunksKeepWords(sentences: seq<Sentence>, cuts: seq<nat>, chunks: seq<TextChunk>)
    requires AllTrimmed(sentences) && |cuts| > 0 && cuts[0] == 0 && cuts[|cuts| - 1] <= |sentences|
    requires ChunksOf(sentences, cuts, chunks)
    ensures ChunkWords(chunks) == WordsOf(sentences[..cuts[|cuts| - 1]])
    decreases |chunks|
  {
    if chunks == [] {
      assert sentences[..0] == [];
    } else {
      var m := |chunks| - 1;
      var a, b := cuts[m], cuts[m + 1];
      assert ChunkOf(sentences, a, b, chunks[m]);
      ChunksOfFront(sentences, cuts, chunks);
      var frontCuts, front := cuts[..m + 1], chunks[..m];
      assert frontCuts[0] == 0 && frontCuts[|frontCuts| - 1] == a;
      ChunksKeepWords(sentences, frontCuts, front);
      GroupKeepsWords(sentences, a, b, chunks[m]);
      ChunkWordsUnfold(chunks, front, chunks[m]);
    }
  }

  /** At 1.3 tokens a word the chunk stays within the budget, or it holds one sentence. */
  ghost predicate WithinBudgetOrSingle(sentences: seq<Sentence>, maxTokens: nat, c: TextChunk) {
    13 * |Words(c.content)| <= 10 * maxTokens || exists k :: 0 <= k < |sentences| && c.content == sentences[k].text
  }

  lemma ChunkWithinBudget(sentences: seq<Sentence>, maxTokens: nat, a: nat, b: nat, c: TextChunk)
    requires AllTrimmed(sentences) && ChunkOf(sentences, a, b, c) && Fits(Weights(sentences), maxTokens, a, b)
    ensures WithinBudgetOrSingle(sentences, maxTokens, c)
  {
    JoinWords(sentences[a..b]);
    WeightOfGroup(sentences, a, b);
    if b == a + 1 { assert c.content == sentences[a].text; }
  }

  class Chunker {
    const maxTokens: nat

    constructor (maxTokens: nat)
      ensures this.maxTokens == maxTokens
    {
      this.maxTokens := maxTokens;
    }

    /** Chunks a text: no word is lost, added or moved; a chunk over the budget is a single sentence; and no other
        way of grouping the same sentences in order within the budget needs fewer chunks. */
    method Chunk(text: string) returns (chunks: seq<TextChunk>, ghost sentences: seq<Sentence>)
      ensures SentencesOf(text, sentences)
      ensures ChunkWords(chunks) == Words(text)
      ensures forall k :: 0 <= k < |chunks| ==> WithinBudgetOrSingle(sentences, maxTokens, chunks[k])
      ensures GreedyChunks(sentences, maxTokens, chunks)
      ensures forall other :: Admissible(Weights(sentences), maxTokens, other) ==> |chunks| <= |other| - 1
    {
      if text == "" {
        chunks, sentences := [], [];
        assert Greedy(Weights(sentences), maxTokens, [0]) && ChunksOf(sentences, [0], chunks);
        return;
      }
      var split := SplitSentences(text);
      sentences := split;
      assert AllTrimmed(sentences);
      chunks := GroupSentences(split, maxTokens);
      ghost var cuts :| Greedy(Weights(sentences), maxTokens, cuts) && ChunksOf(sentences, cuts, chunks);
      ChunksKeepWords(sentences, cuts, chunks);
      assert sentences[..|sentences|] == sentences;
      forall k | 0 <= k < |chunks| ensures WithinBudgetOrSingle(sentences, maxTokens, chunks[k]) {
        assert ChunkOf(sentences, cuts[k], cuts[k + 1], chunks[k]);
        assert GroupFits(Weights(sentences), maxTokens, cuts, k + 1);
        ChunkWithinBudget(sentences, maxTokens, cuts[k], cuts[k + 1], chunks[k]);
      }
      forall other | Admissible(Weights(sentences), maxTokens, other) ensures |chunks| <= |other| - 1 {
        GreedyIsOptimal(Weights(sentences), maxTokens, cuts, other);
      }
    }
  }
}
