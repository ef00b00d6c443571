/** When a sentence chunk is the slice of the text that its start and end name
    (crates/vil_chunker/src/semantic.rs:40-51). */
module SentenceSlices {
  import opened Tokens
  import opened SentenceChunker

  /** The text at `start` reads `content`. */
  predicate Reads(text: string, start: nat, content: string) {
    start + |content| <= |text| && forall i :: 0 <= i < |content| ==> text[start + i] == content[i]
  }

  lemma ReadsIsSlice(text: string, start: nat, content: string)
    ensures Reads(text, start, content) <==> start + |content| <= |text| && text[start..start + |content|] == content
  {
    if start + |content| <= |text| {
      var slice := text[start..start + |content|];
      assert forall i :: 0 <= i < |content| ==> slice[i] == text[start + i];
    }
  }

  /** One blank, the character ' ', separates sentence k from the next one. */
  predicate SingleBlank(text: string, sentences: seq<Sentence>, k: nat)
    requires k + 1 < |sentences|
  {
    var e := sentences[k].end;
    e < |text| && text[e] == ' ' && sentences[k + 1].start == e + 1
  }

  /** Sentences a..b-1 start at a character that is not blank and are separated by single blanks. */
  predicate Plain(text: string, sentences: seq<Sentence>, a: nat, b: nat)
    requires a < b <= |sentences|
  {
    && sentences[a].start < |text| && !IsSpace(text[sentences[a].start])
    && forall k: nat {:trigger SingleBlank(text, sentences, k)} :: a <= k && k + 1 < b ==>
      SingleBlank(text, sentences, k)
  }

  lemma FirstRead(text: string, start: nat, content: string)
    requires content != "" && Reads(text, start, content)
    ensures start < |text| && text[start] == content[0]
  {
    assert text[start + 0] == content[0];
  }

  lemma ReadsJoined(text: string, start: nat, front: string, last: string)
    ensures Reads(text, start, front + " " + last) <==>
      Reads(text, start, front) && start + |front| < |text| && text[start + |front|] == ' ' &&
      Reads(text, start + |front| + 1, last)
  {
    var all, m := front + " " + last, |front|;
    assert all[m] == ' ';
    if Reads(text, start, all) {
      forall i | 0 <= i < m ensures text[start + i] == front[i] { assert all[i] == front[i]; }
      forall i | 0 <= i < |last| ensures text[start + m + 1 + i] == last[i] {
        assert all[m + 1 + i] == last[i] && text[start + (m + 1 + i)] == all[m + 1 + i];
      }
      assert text[start + m] == all[m];
    }
    if Reads(text, start, front) && start + m < |text| && text[start + m] == ' ' && Reads(text, start + m + 1, last) {
      forall i | 0 <= i < |all| ensures text[start + i] == all[i] {
        if i > m { assert all[i] == last[i - m - 1] && text[start + m + 1 + (i - m - 1)] == last[i - m - 1]; }
      }
    }
  }

  // ----- one sentence -----

  /** A sentence that starts at a character that is not blank reads its own text there. */
  lemma SentenceReads(text: string, s: Sentence)
    requires SentenceOk(text, s)
    ensures Reads(text, s.start, s.text) <==> !IsSpace(text[s.start])
    ensures Reads(text, s.start, s.text) && !IsSpace(text[s.end - 1]) ==> s.start + |s.text| == s.end
  {
    var piece := text[s.start..s.end];
    assert piece[0] == text[s.start] && piece[|piece| - 1] == text[s.end - 1];
    if Reads(text, s.start, s.text) { FirstRead(text, s.start, s.text); }
    if !IsSpace(text[s.start]) {
      TrimEndIsPrefix(piece);
      assert forall i :: 0 <= i < |s.text| ==> piece[i] == text[s.start + i];
    }
  }

  lemma {:induction false} TrimEndIsPrefix(s: string)
    ensures TrimEnd(s) <= s && (s == "" || !IsSpace(s[|s| - 1]) ==> TrimEnd(s) == s)
    decreases |s|
  {
    if s != "" && IsSpace(s[|s| - 1]) { TrimEndIsPrefix(s[..|s| - 1]); }
  }

  /** What reading needs to know of sentence k: its text is at its start unless that is blank, and a sentence with
      one behind it ends at its end, in front of a blank. */
  ghost predicate LegibleAt(text: string, sentences: seq<Sentence>, k: nat)
    requires k < |sentences|
  {
    var s := sentences[k];
    && s.start < s.end <= |text|
    && s.text != "" && !IsSpace(s.text[0])
    && (Reads(text, s.start, s.text) <==> !IsSpace(text[s.start]))
    && (k + 1 < |sentences| ==>
        && s.end < |text|
        && (!IsSpace(text[s.start]) ==> s.start + |s.text| == s.end)
        && NextStart(text, s.end, sentences[k + 1].start) && sentences[k + 1].start < |text|)
  }

  ghost predicate Legible(text: string, sentences: seq<Sentence>) {
    forall k: nat {:trigger LegibleAt(text, sentences, k)} :: k < |sentences| ==> LegibleAt(text, sentences, k)
  }

  lemma SentencesAreLegible(text: string, sentences: seq<Sentence>)
    requires SentencesOf(text, sentences)
    ensures Legible(text, sentences)
  {
    forall k: nat | k < |sentences| ensures LegibleAt(text, sentences, k) {
      assert SentenceOk(text, sentences[k]);
      SentenceReads(text, sentences[k]);
      if k + 1 < |sentences| {
        assert SentenceOk(text, sentences[k + 1]);
        assert StartOk(text, sentences, k + 1);
        assert sentences[..k + 1][k] == sentences[k];
      }
    }
  }

  // ----- a group of sentences -----

  /** The group a..b-1 reads its joined text exactly when it is plain; then it ends where its last sentence ends,
      if that is not the last of the text. */
  ghost predicate ReadsWhenPlain(text: string, sentences: seq<Sentence>, a: nat, b: nat, joined: string)
    requires a < b <= |sentences|
  {
    && (Reads(text, sentences[a].start, joined) <==> Plain(text, sentences, a, b))
    && (Plain(text, sentences, a, b) && b < |sentences| ==> sentences[a].start + |joined| == sentences[b - 1].end)
  }

  lemma {:induction false} GroupReads(text: string, sentences: seq<Sentence>, a: nat, b: nat, joined: string)
    requires Legible(text, sentences) && a < b <= |sentences| && joined == Join(sentences[a..b])
    ensures ReadsWhenPlain(text, sentences, a, b, joined)
    decreases b - a
  {
    if b == a + 1 {
      JoinOne(sentences, a);
      assert LegibleAt(text, sentences, a);
    } else {
      var front := Join(sentences[a..b - 1]);
      GroupReads(text, sentences, a, b - 1, front);
      JoinSlice(sentences, a, b);
      GroupGrows(text, sentences, a, b, front, joined);
    }
  }

  lemma JoinOne(sentences: seq<Sentence>, a: nat)
    requires a < |sentences|
    ensures Join(sentences[a..a + 1]) == sentences[a].text
  {
    assert sentences[a..a + 1] == [sentences[a]];
  }

  lemma JoinSlice(sentences: seq<Sentence>, a: nat, b: nat)
    requires a + 1 < b <= |sentences|
    ensures Join(sentences[a..b]) == Join(sentences[a..b - 1]) + " " + sentences[b - 1].text
  {
    assert sentences[a..b] == sentences[a..b - 1] + [sentences[b - 1]];
    JoinAppend(sentences[a..b - 1], sentences[b - 1]);
  }

  lemma GroupGrows(text: string, sentences: seq<Sentence>, a: nat, b: nat, front: string, joined: string)
    requires Legible(text, sentences) && a + 1 < b <= |sentences| && joined == front + " " + sentences[b - 1].text
    requires ReadsWhenPlain(text, sentences, a, b - 1, front)
    ensures ReadsWhenPlain(text, sentences, a, b, joined)
  {
    assert LegibleAt(text, sentences, b - 2) && LegibleAt(text, sentences, b - 1);
    PlainUnfold(text, sentences, a, b);
    ReadsOn(text, sentences[a].start, front, sentences[b - 2].end, sentences[b - 1], joined,
            Plain(text, sentences, a, b - 1), Plain(text, sentences, a, b));
  }

  /** What is read up to e goes on with the next sentence exactly when one ' ' lies between them. */
  lemma ReadsOn(text: string, start: nat, front: string, e: nat, next: Sentence, joined: string, plainFront: bool,
                plain: bool)
    requires joined == front + " " + next.text
    requires e < |text| && NextStart(text, e, next.start) && next.start < |text|
    requires next.text != "" && !IsSpace(next.text[0]) && Reads(text, next.start, next.text)
    requires (Reads(text, start, front) <==> plainFront) && (plainFront ==> start + |front| == e)
    requires plain <==> plainFront && text[e] == ' ' && next.start == e + 1
    ensures Reads(text, start, joined) <==> plain
    ensures plain ==> start + |joined| == next.start + |next.text|
  {
    ReadsJoined(text, start, front, next.text);
    if Reads(text, e + 1, next.text) { FirstRead(text, e + 1, next.text); }
  }

  lemma PlainUnfold(text: string, sentences: seq<Sentence>, a: nat, b: nat)
    requires a + 1 < b <= |sentences|
    ensures Plain(text, sentences, a, b) <==> Plain(text, sentences, a, b - 1) && SingleBlank(text, sentences, b - 2)
  {
  }

  /** The text between the chunk's start and end is its content. */
  predicate IsSlice(text: string, c: TextChunk) {
    c.start <= c.end <= |text| && text[c.start..c.end] == c.content
  }

  /** A chunk's start and end name exactly its content in the text if and only if its first sentence does not start
      with blanks and its sentences are separated by single ' ' characters. */
  lemma ChunkIsSliceExactly(text: string, sentences: seq<Sentence>, a: nat, b: nat, c: TextChunk)
    requires SentencesOf(text, sentences) && ChunkOf(sentences, a, b, c)
    ensures IsSlice(text, c) <==> Plain(text, sentences, a, b)
  {
    SentencesAreLegible(text, sentences);
    GroupReads(text, sentences, a, b, c.content);
    ReadsIsSlice(text, c.start, c.content);
  }

  // ----- the condition on the text -----

  /** Whatever the budget, every chunk of these sentences is a slice of the text. */
  ghost predicate AlwaysSlices(text: string, sentences: seq<Sentence>) {
    forall budget: nat, chunks, k ::
      GreedyChunks(sentences, budget, chunks) && 0 <= k < |chunks| ==> IsSlice(text, chunks[k])
  }

  /** In a plain text every group of sentences is plain. */
  lemma PlainInside(text: string, sentences: seq<Sentence>, a: nat, b: nat)
    requires Legible(text, sentences) && a < b <= |sentences| && Plain(text, sentences, 0, |sentences|)
    ensures Plain(text, sentences, a, b)
  {
    if a > 0 { assert LegibleAt(text, sentences, a - 1); }
  }

  /** All sentences in one chunk. */
  function WholeChunk(sentences: seq<Sentence>): TextChunk
    requires sentences != []
  {
    var joined := Join(sentences);
    TextChunk(joined, sentences[0].start, sentences[0].start + |joined|, EstimateTokens(joined))
  }

  /** A budget as large as the whole text puts everything in one chunk. */
  lemma WholeIsGreedy(sentences: seq<Sentence>)
    requires sentences != []
    ensures GreedyChunks(sentences, 2 * Total(Weights(sentences)), [WholeChunk(sentences)])
    ensures ChunkOf(sentences, 0, |sentences|, WholeChunk(sentences))
  {
    var weights, cuts: seq<nat> := Weights(sentences), [0, |sentences|];
    var budget := 2 * Total(weights);
    EstimateIsCeiling(|Words(Join(sentences))|, 0);
    assert sentences[0..|sentences|] == sentences && weights[0..|weights|] == weights;
    assert GroupFits(weights, budget, cuts, 1);
    assert Greedy(weights, budget, cuts) && ChunksOf(sentences, cuts, [WholeChunk(sentences)]);
  }

  /** Every chunk is a slice of the text, whatever the budget, if and only if the text starts at a character that is
      not blank and separates its sentences by single ' ' characters. */
  lemma AlwaysSlicesExactly(text: string, sentences: seq<Sentence>)
    requires SentencesOf(text, sentences)
    ensures AlwaysSlices(text, sentences) <==> sentences == [] || Plain(text, sentences, 0, |sentences|)
  {
    if sentences == [] || Plain(text, sentences, 0, |sentences|) {
      forall budget: nat, chunks, k | GreedyChunks(sentences, budget, chunks) && 0 <= k < |chunks|
        ensures IsSlice(text, chunks[k])
      {
        PlainChunkIsSlice(text, sentences, budget, chunks, k);
      }
    }
    if AlwaysSlices(text, sentences) && sentences != [] { WholeSliceIsPlain(text, sentences, WholeChunk(sentences)); }
  }

  lemma WholeSliceIsPlain(text: string, sentences: seq<Sentence>, whole: TextChunk)
    requires SentencesOf(text, sentences) && AlwaysSlices(text, sentences)
    requires sentences != [] && whole == WholeChunk(sentences)
    ensures Plain(text, sentences, 0, |sentences|)
  {
    WholeIsGreedy(sentences);
    assert IsSlice(text, [whole][0]);
    ChunkIsSliceExactly(text, sentences, 0, |sentences|, whole);
  }

  lemma PlainChunkIsSlice(text: string, sentences: seq<Sentence>, budget: nat, chunks: seq<TextChunk>, k: nat)
    requires SentencesOf(text, sentences) && (sentences == [] || Plain(text, sentences, 0, |sentences|))
    requires GreedyChunks(sentences, budget, chunks) && k < |chunks|
    ensures IsSlice(text, chunks[k])
  {
    var cuts :| Greedy(Weights(sentences), budget, cuts) && ChunksOf(sentences, cuts, chunks);
    assert ChunkOf(sentences, cuts[k], cuts[k + 1], chunks[k]);
    SentencesAreLegible(text, sentences);
    PlainInside(text, sentences, cuts[k], cuts[k + 1]);
    ChunkIsSliceExactly(text, sentences, cuts[k], cuts[k + 1], chunks[k]);
  }

  // ----- a text whose chunk is misplaced -----

  const TWO_BLANKS := "A.  B."
  const TWO_SENTENCES := [Sentence(0, 2, "A."), Sentence(4, 6, "B.")]

  lemma TwoBlanksSentences()
    ensures SentencesOf(TWO_BLANKS, TWO_SENTENCES)
  {
    var text, sentences := TWO_BLANKS, TWO_SENTENCES;
    assert text[0..2] == "A." && text[4..6] == "B.";
    TrimmedIsFixed("A.");
    TrimmedIsFixed("B.");
    assert SentenceOk(text, sentences[0]);
    assert SentenceOk(text, sentences[1]);
    assert sentences[..0] == [] && sentences[..1] == [sentences[0]];
    assert StartOk(text, sentences, 0) && StartOk(text, sentences, 1);
  }

  /** Two blanks between two sentences: the chunk "A. B." claims the positions 0 to 5, where the text reads "A.  B". */
  lemma TwoBlanksMisplace()
    ensures SentencesOf(TWO_BLANKS, TWO_SENTENCES) && !Plain(TWO_BLANKS, TWO_SENTENCES, 0, 2)
    ensures TWO_BLANKS[0..5] == "A.  B"
    ensures WholeChunk(TWO_SENTENCES).content == "A. B."
    ensures WholeChunk(TWO_SENTENCES).start == 0 && WholeChunk(TWO_SENTENCES).end == 5
    ensures exists budget: nat :: GreedyChunks(TWO_SENTENCES, budget, [WholeChunk(TWO_SENTENCES)])
    ensures !IsSlice(TWO_BLANKS, WholeChunk(TWO_SENTENCES))
  {
    TwoBlanksSentences();
    TwoBlanksJoined();
    WholeIsGreedy(TWO_SENTENCES);
    assert !SingleBlank(TWO_BLANKS, TWO_SENTENCES, 0);
    ChunkIsSliceExactly(TWO_BLANKS, TWO_SENTENCES, 0, 2, WholeChunk(TWO_SENTENCES));
  }

  lemma TwoBlanksJoined()
    ensures Join(TWO_SENTENCES) == "A. B." && TWO_BLANKS[0..5] == "A.  B"
  {
    assert TWO_SENTENCES == [TWO_SENTENCES[0]] + [TWO_SENTENCES[1]];
    JoinAppend([TWO_SENTENCES[0]], TWO_SENTENCES[1]);
  }
}
