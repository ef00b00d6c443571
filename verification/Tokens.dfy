/** Chunks, and the whitespace-separated words they are measured in (crates/vil_chunker/src/strategy.rs). */
module Tokens {

  datatype TextChunk = TextChunk(content: string, start: nat, end: nat, tokenCount: nat)

  /** One whitespace predicate throughout: space, tab, line feed, carriage return, form feed. */
  predicate IsSpace(c: char) {
    c == ' ' || c == '\t' || c == '\n' || c == '\r' || c == '\U{000C}'
  }

  /** Length of the word at the start of s. */
  function WordLength(s: string): (n: nat)
    ensures n <= |s|
    ensures forall i :: 0 <= i < n ==> !IsSpace(s[i])
    ensures n < |s| ==> IsSpace(s[n])
  {
    if s == "" || IsSpace(s[0]) then 0 else 1 + WordLength(s[1..])
  }

  /** The maximal blank-free runs of s, in order. */
  function Words(s: string): seq<string> {
    if s == "" then []
    else if IsSpace(s[0]) then Words(s[1..])
    else [s[..WordLength(s)]] + Words(s[WordLength(s)..])
  }

  /** About 1.3 tokens a word, rounded up. */
  function TokensFor(words: nat): nat {
    (13 * words + 9) / 10
  }

  function EstimateTokens(text: string): nat {
    TokensFor(|Words(text)|)
  }

  /** The estimate is the least number of tokens not below 1.3 a word, so a budget holds it exactly when it holds 1.3
      tokens a word. */
  lemma EstimateIsCeiling(words: nat, budget: nat)
    ensures 13 * words <= 10 * TokensFor(words) < 13 * words + 10
    ensures TokensFor(words) <= budget <==> 13 * words <= 10 * budget
  {
  }

  /** The blanks by their code points. */
  lemma BlankCodePoints(c: char)
    ensures IsSpace(c) <==> c as int in {9, 10, 12, 13, 32}
  {
  }

  lemma WordLengthUnique(s: string, n: nat)
    requires n <= |s| && (forall i :: 0 <= i < n ==> !IsSpace(s[i])) && (n < |s| ==> IsSpace(s[n]))
    ensures WordLength(s) == n
  {
  }

  predicate BlankFree(s: string) {
    forall i :: 0 <= i < |s| ==> !IsSpace(s[i])
  }

  predicate Blank(s: string) {
    forall i :: 0 <= i < |s| ==> IsSpace(s[i])
  }

  lemma WordsOfWord(w: string)
    requires w != "" && BlankFree(w)
    ensures Words(w) == [w]
  {
    WordLengthUnique(w, |w|);
    assert w[..|w|] == w && w[|w|..] == "";
  }

  lemma {:induction false} WordsOfBlank(s: string)
    requires Blank(s)
    ensures Words(s) == []
  {
    if s != "" { WordsOfBlank(s[1..]); }
  }

  /** Between a and b no word is cut in two. */
  predicate CleanCut(a: string, b: string) {
    a == "" || b == "" || IsSpace(a[|a| - 1]) || IsSpace(b[0])
  }

  /** Words split at any cut beside a blank. */
  lemma {:induction false} WordsSplit(a: string, b: string)
    requires CleanCut(a, b)
    ensures Words(a + b) == Words(a) + Words(b)
    decreases |a|
  {
    if a == "" || b == "" {
      assert a + b == if a == "" then b else a;
    } else if IsSpace(a[0]) {
      WordsSplit(a[1..], b);
      LeadingBlank(a, b);
    } else {
      var n := WordLength(a);
      WordLengthUnique(a + b, n);
      WordsSplit(a[n..], b);
      FirstWord(a, b, n);
    }
  }

  lemma LeadingBlank(a: string, b: string)
    requires a != "" && IsSpace(a[0]) && Words(a[1..] + b) == Words(a[1..]) + Words(b)
    ensures Words(a + b) == Words(a) + Words(b)
  {
    assert (a + b)[1..] == a[1..] + b;
  }

  /** The first word of a stays the first word of a + b. */
  lemma FirstWord(a: string, b: string, n: nat)
    requires a != "" && !IsSpace(a[0]) && n == WordLength(a) == WordLength(a + b)
    requires Words(a[n..] + b) == Words(a[n..]) + Words(b)
    ensures Words(a + b) == Words(a) + Words(b)
  {
    CutConcat(a, b, n);
    PutFirst(a, a[..n], a[n..], Words(a[n..]));
    PutFirst(a + b, a[..n], a[n..] + b, Words(a[n..]) + Words(b));
    Reassociate([a[..n]], Words(a[n..]), Words(b));
  }

  lemma CutConcat(a: string, b: string, n: nat)
    requires n <= |a|
    ensures (a + b)[..n] == a[..n] && (a + b)[n..] == a[n..] + b
  {
  }

  lemma PutFirst(s: string, first: string, tail: string, words: seq<string>)
    requires s != "" && !IsSpace(s[0]) && first == s[..WordLength(s)] && tail == s[WordLength(s)..] &&
      Words(tail) == words
    ensures Words(s) == [first] + words
  {
  }

  lemma Reassociate(a: seq<string>, b: seq<string>, c: seq<string>)
    ensures a + (b + c) == (a + b) + c
  {
  }

  // ----- trimming -----

  function TrimStart(s: string): (t: string)
    ensures t == "" || !IsSpace(t[0])
  {
    if s == "" || !IsSpace(s[0]) then s else TrimStart(s[1..])
  }

  function TrimEnd(s: string): (t: string)
    ensures t == "" || !IsSpace(t[|t| - 1])
  {
    if s == "" || !IsSpace(s[|s| - 1]) then s else TrimEnd(s[..|s| - 1])
  }

  function Trim(s: string): string {
    TrimEnd(TrimStart(s))
  }

  lemma {:induction false} TrimStartWords(s: string)
    ensures Words(TrimStart(s)) == Words(s)
  {
    if s != "" && IsSpace(s[0]) { TrimStartWords(s[1..]); }
  }

  lemma {:induction false} TrimEndWords(s: string)
    ensures Words(TrimEnd(s)) == Words(s)
    ensures s != "" && !IsSpace(s[0]) ==> TrimEnd(s) != "" && TrimEnd(s)[0] == s[0]
    decreases |s|
  {
    if s != "" && IsSpace(s[|s| - 1]) {
      var m := |s| - 1;
      TrimEndWords(s[..m]);
      assert s == s[..m] + s[m..];
      WordsSplit(s[..m], s[m..]);
      WordsOfBlank(s[m..]);
    }
  }

  /** Trimming loses no word and leaves nothing blank at either end. */
  lemma TrimWords(s: string)
    ensures Words(Trim(s)) == Words(s)
    ensures Trim(s) == "" || (!IsSpace(Trim(s)[0]) && !IsSpace(Trim(s)[|Trim(s)| - 1]))
  {
    TrimStartWords(s);
    TrimEndWords(TrimStart(s));
  }

  lemma MoreBlanksBefore(s: string, head: string, rest: string, dropped: string, kept: string)
    requires s == head + rest && rest == dropped + kept && Blank(head) && Blank(dropped)
    ensures Blank(head + dropped) && s == (head + dropped) + kept
  {
  }

  lemma MoreBlanksBehind(s: string, rest: string, last: string, kept: string, dropped: string)
    requires s == rest + last && rest == kept + dropped && Blank(last) && Blank(dropped)
    ensures Blank(dropped + last) && s == kept + (dropped + last)
  {
  }

  lemma CutFirst(s: string)
    requires s != "" && IsSpace(s[0])
    ensures s == s[..1] + s[1..] && Blank(s[..1]) && TrimStart(s) == TrimStart(s[1..])
  {
  }

  lemma CutLast(s: string)
    requires s != "" && IsSpace(s[|s| - 1])
    ensures s == s[..|s| - 1] + s[|s| - 1..] && Blank(s[|s| - 1..])
  {
  }

  lemma {:induction false} TrimStartDrops(s: string) returns (before: string)
    ensures Blank(before) && s == before + TrimStart(s)
  {
    before := "";
    if s != "" && IsSpace(s[0]) {
      CutFirst(s);
      var dropped := TrimStartDrops(s[1..]);
      MoreBlanksBefore(s, s[..1], s[1..], dropped, TrimStart(s));
      before := s[..1] + dropped;
    }
  }

  lemma {:induction false} TrimEndDrops(s: string) returns (behind: string)
    ensures Blank(behind) && s == TrimEnd(s) + behind
    decreases |s|
  {
    behind := "";
    if s != "" && IsSpace(s[|s| - 1]) {
      CutLast(s);
      var m := |s| - 1;
      var dropped := TrimEndDrops(s[..m]);
      MoreBlanksBehind(s, s[..m], s[m..], TrimEnd(s[..m]), dropped);
      behind := dropped + s[m..];
    }
  }

  /** Trimming drops nothing but the blanks at the two ends. */
  lemma TrimDropsBlanks(s: string) returns (before: string, behind: string)
    ensures Blank(before) && Blank(behind) && s == before + Trim(s) + behind
  {
    before := TrimStartDrops(s);
    behind := TrimEndDrops(TrimStart(s));
  }

  /** Trimming leaves nothing exactly of a blank text. */
  lemma {:induction false} TrimToNothing(s: string)
    ensures Trim(s) == "" <==> Blank(s)
    decreases |s|
  {
    if s != "" {
      if IsSpace(s[0]) {
        TrimToNothing(s[1..]);
        assert s == [s[0]] + s[1..];
      } else {
        TrimEndWords(s);
      }
    }
  }

  predicate Trimmed(s: string) {
    s != "" && !IsSpace(s[0]) && !IsSpace(s[|s| - 1])
  }

  lemma TrimmedIsFixed(s: string)
    requires Trimmed(s)
    ensures Trim(s) == s && TrimEnd(s) == s && Words(s) != []
  {
  }
}
