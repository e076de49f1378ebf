/** `split_text_into_chunks`: a text is cut into sentences at whitespace
    that follows `.`, `!` or `?`, and the sentences are packed greedily into
    chunks of bounded size; a sentence longer than the bound is packed word
    by word instead.  The model keeps the code's quirks: the word sub-chunks
    of an oversized sentence are emitted before the pending accumulator, the
    leftover words go back into the accumulator, and when the first word
    of an oversized sentence is at least as long as the bound, the still
    empty word sub-chunk is emitted as an empty chunk (a later long word
    flushes the words before it instead). */
module Chunker {
  import opened Text

  /** Default `chunk_size`. */
  const ChunkSize: nat := 800

  predicate IsSentenceEnd(c: char) {
    c == '.' || c == '!' || c == '?'
  }

  /** The pattern `(?<=[.!?])\s+` matches starting at index `p`. */
  predicate BreaksAt(s: string, p: int) {
    0 < p < |s| && IsSentenceEnd(s[p - 1]) && IsSpace(s[p])
  }

  /** No sentence break starts in `[from, to)`. */
  predicate NoBreakIn(s: string, from: int, to: int) {
    forall q :: from <= q < to ==> !BreaksAt(s, q)
  }

  /** The first index at or after `from` where a sentence break starts, or `|s|`. */
  function FirstBreak(s: string, from: nat): (p: nat)
    requires from <= |s|
    ensures from <= p <= |s|
    ensures p < |s| ==> BreaksAt(s, p)
    ensures NoBreakIn(s, from, p)
    decreases |s| - from
  {
    if from == |s| || BreaksAt(s, from) then from else FirstBreak(s, from + 1)
  }

  /** `re.split(r'(?<=[.!?])\s+', s)`: the pieces between maximal whitespace
      runs that follow a sentence end. */
  function SplitSentences(s: string): (r: seq<string>)
    ensures |r| >= 1
    decreases |s|
  {
    var p := FirstBreak(s, 0);
    if p == |s| then
      [s]
    else
      var q := p + LeadingSpaces(s[p..]);
      [s[..p]] + SplitSentences(s[q..])
  }

  /** Every piece but the last ends with `.`, `!` or `?`, and no piece
      contains a break of its own. */
  predicate Maximal(r: seq<string>) {
    && (forall k :: 0 <= k < |r| - 1 ==> |r[k]| > 0 && IsSentenceEnd(r[k][|r[k]| - 1]))
    && (forall k, j :: 0 <= k < |r| && 0 <= j < |r[k]| ==> !BreaksAt(r[k], j))
  }

  /** The pieces of the split are maximal. */
  lemma {:induction false} SentencesAreMaximal(s: string)
    ensures Maximal(SplitSentences(s))
    decreases |s|
  {
    var p := FirstBreak(s, 0);
    if p < |s| {
      var q := p + LeadingSpaces(s[p..]);
      SentencesAreMaximal(s[q..]);
      HeadIsSentence(s, p);
      SentencesCons(s[..p], SplitSentences(s[q..]));
    } else {
      assert SplitSentences(s) == [s];
    }
  }

  lemma {:induction false} SentencesCons(head: string, rest: seq<string>)
    requires |head| > 0 && IsSentenceEnd(head[|head| - 1])
    requires forall j :: 0 <= j < |head| ==> !BreaksAt(head, j)
    requires Maximal(rest)
    ensures Maximal([head] + rest)
  {
    var r := [head] + rest;
    assert forall k :: 1 <= k < |r| ==> r[k] == rest[k - 1];
  }

  /** The text before the first break is one whole sentence. */
  lemma {:induction false} HeadIsSentence(s: string, p: nat)
    requires p < |s| && BreaksAt(s, p) && NoBreakIn(s, 0, p)
    ensures |s[..p]| > 0 && IsSentenceEnd(s[..p][p - 1])
    ensures forall j :: 0 <= j < p ==> !BreaksAt(s[..p], j)
  {
    assert forall j :: 0 <= j < p ==> BreaksAt(s[..p], j) ==> BreaksAt(s, j);
  }

  /** A text the chunker may still append to: empty or ending in a space. */
  predicate EndsOpen(t: string) {
    |t| == 0 || t[|t| - 1] == ' '
  }

  predicate AllStripped(xs: seq<string>) {
    forall k :: 0 <= k < |xs| ==> IsStripped(xs[k])
  }

  predicate AllFit(xs: seq<string>, size: nat) {
    forall k :: 0 <= k < |xs| ==> |xs[k]| <= size
  }

  /** State of the word loop: sub-chunks emitted so far and `temp_chunk`. */
  datatype Packed = Packed(emitted: seq<string>, temp: string)

  /** One iteration of `for word in words`: flush `temp_chunk` when the
      word does not fit beside it, then add the word and a space. */
  function PackNext(acc: Packed, w: string, size: nat): (r: Packed)
    requires AllStripped(acc.emitted) && EndsOpen(acc.temp)
    ensures AllStripped(r.emitted) && EndsOpen(r.temp)
    ensures |r.emitted| >= |acc.emitted| && r.emitted[..|acc.emitted|] == acc.emitted
  {
    if |acc.temp| + |w| + 1 > size then Packed(acc.emitted + [Strip(acc.temp)], w + " ")
    else Packed(acc.emitted, acc.temp + w + " ")
  }

  /** The loop `for word in words` of the oversized-sentence branch. */
  function PackWords(words: seq<string>, size: nat, acc: Packed): (r: Packed)
    requires AllStripped(acc.emitted) && EndsOpen(acc.temp)
    ensures AllStripped(r.emitted) && EndsOpen(r.temp)
    ensures |r.emitted| >= |acc.emitted| && r.emitted[..|acc.emitted|] == acc.emitted
    decreases |words|
  {
    if |words| == 0 then acc
    else PackWords(words[1..], size, PackNext(acc, words[0], size))
  }

  /** The accumulated chunks and `current_chunk` of the sentence loop. */
  datatype Progress = Progress(chunks: seq<string>, current: string)

  /** The sub-chunks of an oversized sentence go out after the chunks so
      far; its leftover words join `current_chunk` unless blank. */
  function Merge(st: Progress, packed: Packed): (r: Progress)
    requires AllStripped(st.chunks) && EndsOpen(st.current)
    requires AllStripped(packed.emitted) && EndsOpen(packed.temp)
    ensures AllStripped(r.chunks) && EndsOpen(r.current)
  {
    Progress(st.chunks + packed.emitted,
             if !IsBlank(packed.temp) then st.current + packed.temp else st.current)
  }

  /** One iteration of `for sentence in sentences`. */
  function Step(st: Progress, sentence: string, size: nat): (r: Progress)
    requires AllStripped(st.chunks) && EndsOpen(st.current)
    ensures AllStripped(r.chunks) && EndsOpen(r.current)
    ensures |r.chunks| >= |st.chunks| && r.chunks[..|st.chunks|] == st.chunks
  {
    if |sentence| > size then
      Merge(st, PackWords(Words(sentence), size, Packed([], [])))
    else if |st.current| + |sentence| > size then
      Progress(st.chunks + [Strip(st.current)], sentence + " ")
    else
      Progress(st.chunks, st.current + sentence + " ")
  }

  function Fold(st: Progress, sentences: seq<string>, size: nat): (r: Progress)
    requires AllStripped(st.chunks) && EndsOpen(st.current)
    ensures AllStripped(r.chunks) && EndsOpen(r.current)
    decreases |sentences|
  {
    if |sentences| == 0 then st
    else Fold(Step(st, sentences[0], size), sentences[1..], size)
  }

  /** `split_text_into_chunks(text, size)`. */
  function SplitTextIntoChunks(text: string, size: nat): (chunks: seq<string>)
    ensures AllStripped(chunks)
  {
    if |text| == 0 then []
    else
      var last := Fold(Progress([], []), SplitSentences(text), size);
      if !IsBlank(last.current) then last.chunks + [Strip(last.current)] else last.chunks
  }

  // ---------------------------------------------------------------------
  // Words are neither lost nor duplicated

  /** The sentence pieces hold exactly the words of the text, in order. */
  lemma {:induction false} SplitSentencesKeepsWords(s: string)
    ensures AllWords(SplitSentences(s)) == Words(s)
    decreases |s|, 1
  {
    if FirstBreak(s, 0) == |s| {
      assert SplitSentences(s) == [s];
      AllWordsSingle(s);
    } else {
      BrokenTextKeepsWords(s);
    }
  }

  lemma {:induction false} BrokenTextKeepsWords(s: string)
    requires FirstBreak(s, 0) < |s|
    ensures AllWords(SplitSentences(s)) == Words(s)
    decreases |s|, 0
  {
    var p := FirstBreak(s, 0);
    var q := p + LeadingSpaces(s[p..]);
    var rest := SplitSentences(s[q..]);
    SentenceGap(s, p);
    SplitSentencesUnfold(s, p, q);
    SplitSentencesKeepsWords(s[q..]);
    GapKeepsWords(s, p, q, rest);
  }

  lemma {:induction false} SplitSentencesUnfold(s: string, p: nat, q: nat)
    requires p == FirstBreak(s, 0) < |s| && q == p + LeadingSpaces(s[p..])
    ensures SplitSentences(s) == [s[..p]] + SplitSentences(s[q..])
  {
  }

  /** A sentence, the gap after it, and the pieces of the rest. */
  lemma {:induction false} GapKeepsWords(s: string, p: nat, q: nat, rest: seq<string>)
    requires p < q <= |s| && IsBlank(s[p..q]) && AllWords(rest) == Words(s[q..])
    requires SplitSentences(s) == [s[..p]] + rest
    ensures AllWords(SplitSentences(s)) == Words(s)
  {
    AllWordsCons(s[..p], rest);
    WordsAroundGap(s[..p], s[p..q], s[q..]);
    Reassemble3(s, p, q);
  }

  /** The whitespace run after a sentence break is a non-empty gap. */
  lemma {:induction false} SentenceGap(s: string, p: nat)
    requires p < |s| && BreaksAt(s, p)
    ensures var q := p + LeadingSpaces(s[p..]);
      p < q <= |s| && IsBlank(s[p..q])
  {
    var n := LeadingSpaces(s[p..]);
    assert s[p..][0] == s[p];
    assert s[p..][..n] == s[p..p + n];
  }

  lemma {:induction false} AllWordsCons(h: string, rest: seq<string>)
    ensures AllWords([h] + rest) == Words(h) + AllWords(rest)
  {
    assert ([h] + rest)[1..] == rest;
  }

  /** Flushing `temp` and restarting it with `w` keeps the words in order. */
  lemma {:induction false} FlushKeepsWords(emitted: seq<string>, temp: string, w: string)
    requires IsWord(w)
    ensures AllWords(emitted + [Strip(temp)]) + Words(w + " ") == AllWords(emitted) + Words(temp) + [w]
  {
    AllWordsAppend(emitted, [Strip(temp)]);
    AllWordsSingle(Strip(temp));
    StripKeepsWords(temp);
    WordsSpaceAfter(w);
    WordsOfWord(w);
  }

  /** Appending `w + " "` to an open accumulator adds exactly the word `w`. */
  lemma {:induction false} AppendKeepsWords(temp: string, w: string)
    requires EndsOpen(temp) && IsWord(w)
    ensures Words(temp + w + " ") == Words(temp) + [w]
  {
    AppendAssoc(temp, w, " ");
    WordsAppend(temp, w + " ");
    WordsSpaceAfter(w);
    WordsOfWord(w);
  }

  /** One word-loop iteration adds exactly that word to what was packed. */
  lemma {:induction false} PackNextKeepsWords(acc: Packed, w: string, size: nat)
    requires AllStripped(acc.emitted) && EndsOpen(acc.temp) && IsWord(w)
    ensures var next := PackNext(acc, w, size);
      AllWords(next.emitted) + Words(next.temp) == AllWords(acc.emitted) + Words(acc.temp) + [w]
  {
    if |acc.temp| + |w| + 1 > size {
      FlushKeepsWords(acc.emitted, acc.temp, w);
    } else {
      AppendKeepsWords(acc.temp, w);
      AppendAssoc(AllWords(acc.emitted), Words(acc.temp), [w]);
    }
  }

  /** The word loop loses no word and keeps their order. */
  lemma {:induction false} PackWordsKeepsWords(words: seq<string>, size: nat, acc: Packed)
    requires AllStripped(acc.emitted) && EndsOpen(acc.temp)
    requires forall k :: 0 <= k < |words| ==> IsWord(words[k])
    ensures var r := PackWords(words, size, acc);
      AllWords(r.emitted) + Words(r.temp) == AllWords(acc.emitted) + Words(acc.temp) + words
    decreases |words|
  {
    if |words| > 0 {
      var next := PackNext(acc, words[0], size);
      PackNextKeepsWords(acc, words[0], size);
      PackWordsKeepsWords(words[1..], size, next);
      ConsAssoc(AllWords(acc.emitted) + Words(acc.temp), words);
    }
  }

  /** `before + [w] + rest` with `w` the head of `words`. */
  lemma {:induction false} ConsAssoc<T>(before: seq<T>, words: seq<T>)
    requires |words| > 0
    ensures before + [words[0]] + words[1..] == before + words
  {
    assert [words[0]] + words[1..] == words;
  }

  /** All words seen so far: those in emitted chunks, then those pending. */
  function Seen(st: Progress): seq<string> {
    AllWords(st.chunks) + Words(st.current)
  }

  lemma {:induction false} SwapMiddle<T>(a: seq<T>, b: seq<T>, c: seq<T>, d: seq<T>)
    ensures multiset(a + b + (c + d)) == multiset(a + c + (b + d))
  {
  }

  /** Sub-chunks go after the emitted chunks; leftover words are merged
      into the accumulator unless they are blank. */
  lemma {:induction false} MergeKeepsWords(st: Progress, emitted: seq<string>, temp: string)
    requires EndsOpen(st.current)
    ensures var merged := Progress(st.chunks + emitted,
                                   if !IsBlank(temp) then st.current + temp else st.current);
      Seen(merged) == AllWords(st.chunks) + AllWords(emitted) + (Words(st.current) + Words(temp))
  {
    AllWordsAppend(st.chunks, emitted);
    if !IsBlank(temp) {
      WordsAppend(st.current, temp);
    } else {
      WordsOfBlank(temp);
    }
  }

  /** An oversized sentence: its words go to the sub-chunks and the
      accumulator, after the words already pending there. */
  lemma {:induction false} OversizedStepKeepsWords(st: Progress, sentence: string, size: nat)
    requires AllStripped(st.chunks) && EndsOpen(st.current)
    requires |sentence| > size
    ensures multiset(Seen(Step(st, sentence, size))) == multiset(Seen(st) + Words(sentence))
  {
    var packed := PackWords(Words(sentence), size, Packed([], []));
    PackWordsKeepsWords(Words(sentence), size, Packed([], []));
    assert AllWords([]) + Words([]) == [];
    assert AllWords(packed.emitted) + Words(packed.temp) == Words(sentence);
    MergeKeepsWords(st, packed.emitted, packed.temp);
    SwapMiddle(AllWords(st.chunks), AllWords(packed.emitted), Words(st.current), Words(packed.temp));
  }

  /** A sentence that does not fit next to the accumulator flushes it. */
  lemma {:induction false} FlushStepKeepsWords(st: Progress, sentence: string)
    ensures AllWords(st.chunks + [Strip(st.current)]) + Words(sentence + " ") == Seen(st) + Words(sentence)
  {
    AllWordsAppend(st.chunks, [Strip(st.current)]);
    AllWordsSingle(Strip(st.current));
    StripKeepsWords(st.current);
    WordsSpaceAfter(sentence);
  }

  /** A sentence that fits is appended to the accumulator. */
  lemma {:induction false} AppendStepKeepsWords(st: Progress, sentence: string)
    requires EndsOpen(st.current)
    ensures AllWords(st.chunks) + Words(st.current + sentence + " ") == Seen(st) + Words(sentence)
  {
    AppendAssoc(st.current, sentence, " ");
    WordsAppend(st.current, sentence + " ");
    WordsSpaceAfter(sentence);
    AppendAssoc(AllWords(st.chunks), Words(st.current), Words(sentence));
  }

  /** One sentence step keeps every word exactly once; it keeps their order
      too unless the sentence is oversized. */
  lemma {:induction false} StepKeepsWords(st: Progress, sentence: string, size: nat)
    requires AllStripped(st.chunks) && EndsOpen(st.current)
    ensures multiset(Seen(Step(st, sentence, size))) == multiset(Seen(st) + Words(sentence))
    ensures |sentence| <= size ==> Seen(Step(st, sentence, size)) == Seen(st) + Words(sentence)
  {
    if |sentence| > size {
      OversizedStepKeepsWords(st, sentence, size);
    } else if |st.current| + |sentence| > size {
      FlushStepKeepsWords(st, sentence);
    } else {
      AppendStepKeepsWords(st, sentence);
    }
  }

  lemma {:induction false} FoldKeepsWords(st: Progress, sentences: seq<string>, size: nat)
    requires AllStripped(st.chunks) && EndsOpen(st.current)
    ensures multiset(Seen(Fold(st, sentences, size))) == multiset(Seen(st) + AllWords(sentences))
    decreases |sentences|
  {
    if |sentences| > 0 {
      var next := Step(st, sentences[0], size);
      assert Fold(st, sentences, size) == Fold(next, sentences[1..], size);
      StepKeepsWords(st, sentences[0], size);
      FoldKeepsWords(next, sentences[1..], size);
      assert AllWords(sentences) == Words(sentences[0]) + AllWords(sentences[1..]);
      calc {
        multiset(Seen(Fold(st, sentences, size)));
        multiset(Seen(next)) + multiset(AllWords(sentences[1..]));
        multiset(Seen(st)) + multiset(Words(sentences[0])) + multiset(AllWords(sentences[1..]));
        multiset(Seen(st) + AllWords(sentences));
      }
    }
  }

  lemma {:induction false} FoldKeepsWordOrder(st: Progress, sentences: seq<string>, size: nat)
    requires AllStripped(st.chunks) && EndsOpen(st.current)
    requires AllFit(sentences, size)
    ensures Seen(Fold(st, sentences, size)) == Seen(st) + AllWords(sentences)
    decreases |sentences|
  {
    if |sentences| > 0 {
      var next := Step(st, sentences[0], size);
      assert Fold(st, sentences, size) == Fold(next, sentences[1..], size);
      StepKeepsWords(st, sentences[0], size);
      FoldKeepsWordOrder(next, sentences[1..], size);
      assert AllWords(sentences) == Words(sentences[0]) + AllWords(sentences[1..]);
      AppendAssoc(Seen(st), Words(sentences[0]), AllWords(sentences[1..]));
    }
  }

  /** The words of the final chunks are those seen by the fold. */
  lemma {:induction false} FinalChunksWords(text: string, size: nat)
    requires |text| > 0
    ensures var last := Fold(Progress([], []), SplitSentences(text), size);
      AllWords(SplitTextIntoChunks(text, size)) == Seen(last)
  {
    var last := Fold(Progress([], []), SplitSentences(text), size);
    if !IsBlank(last.current) {
      AllWordsAppend(last.chunks, [Strip(last.current)]);
      assert AllWords([Strip(last.current)]) == Words(Strip(last.current)) + AllWords([]);
      StripKeepsWords(last.current);
    } else {
      WordsOfBlank(last.current);
    }
  }

  /** Every word of the text lands in exactly one chunk (as a multiset:
      an oversized sentence can move words ahead of pending ones). */
  lemma {:induction false} ChunksKeepWords(text: string, size: nat)
    ensures multiset(AllWords(SplitTextIntoChunks(text, size))) == multiset(Words(text))
  {
    if |text| > 0 {
      var start := Progress([], []);
      FoldKeepsWords(start, SplitSentences(text), size);
      SplitSentencesKeepsWords(text);
      FinalChunksWords(text, size);
      assert Seen(start) == [];
    }
  }

  /** If no sentence is longer than the bound, the chunks hold the words of
      the text in their original order. */
  lemma {:induction false} ChunksInOrderWhenNoLongSentence(text: string, size: nat)
    requires AllFit(SplitSentences(text), size)
    ensures AllWords(SplitTextIntoChunks(text, size)) == Words(text)
  {
    if |text| > 0 {
      var start := Progress([], []);
      FoldKeepsWordOrder(start, SplitSentences(text), size);
      SplitSentencesKeepsWords(text);
      FinalChunksWords(text, size);
      assert Seen(start) == [];
    }
  }

  /** If no sentence is longer than the bound, no chunk is either. */
  lemma {:induction false} ChunksFitWhenNoLongSentence(text: string, size: nat)
    requires AllFit(SplitSentences(text), size)
    ensures AllFit(SplitTextIntoChunks(text, size), size)
  {
    if |text| > 0 {
      var start := Progress([], []);
      FoldFits(start, SplitSentences(text), size);
      var last := Fold(start, SplitSentences(text), size);
      StripFits(last.current, size);
      ChunksAfterFold(text, size, SplitSentences(text), last);
      AllFitAppend(last.chunks, [Strip(last.current)], size);
    }
  }

  /** An open accumulator at most one over the bound strips to within it. */
  lemma {:induction false} StripFits(t: string, size: nat)
    requires EndsOpen(t) && |t| <= size + 1
    ensures |Strip(t)| <= size
  {
    if |t| > 0 {
      assert IsSpace(t[|t| - 1]);
    }
  }

  lemma {:induction false} AllFitAppend(a: seq<string>, b: seq<string>, size: nat)
    requires AllFit(a, size) && AllFit(b, size)
    ensures AllFit(a + b, size)
  {
    assert forall k :: |a| <= k < |a + b| ==> (a + b)[k] == b[k - |a|];
  }

  /** One step without an oversized sentence keeps the bound. */
  lemma {:induction false} StepFits(st: Progress, sentence: string, size: nat)
    requires AllStripped(st.chunks) && EndsOpen(st.current)
    requires AllFit(st.chunks, size) && |st.current| <= size + 1 && |sentence| <= size
    ensures var r := Step(st, sentence, size);
      AllFit(r.chunks, size) && |r.current| <= size + 1
  {
    if |st.current| + |sentence| > size {
      StripFits(st.current, size);
      AllFitAppend(st.chunks, [Strip(st.current)], size);
    }
  }

  /** Without oversized sentences `current_chunk` never exceeds the bound by
      more than its trailing space, so every flushed chunk fits. */
  lemma {:induction false} FoldFits(st: Progress, sentences: seq<string>, size: nat)
    requires AllStripped(st.chunks) && EndsOpen(st.current)
    requires AllFit(st.chunks, size) && |st.current| <= size + 1
    requires AllFit(sentences, size)
    ensures var r := Fold(st, sentences, size);
      AllFit(r.chunks, size) && |r.current| <= size + 1
    decreases |sentences|
  {
    if |sentences| > 0 {
      var next := Step(st, sentences[0], size);
      StepFits(st, sentences[0], size);
      assert AllFit(sentences[1..], size);
      FoldFits(next, sentences[1..], size);
    }
  }

  /** Blank text (and only blank text) yields no chunk at all. */
  lemma {:induction false} NoChunksIffBlank(text: string, size: nat)
    ensures SplitTextIntoChunks(text, size) == [] <==> IsBlank(text)
  {
    if IsBlank(text) && |text| > 0 {
      assert FirstBreak(text, 0) == |text|;
      assert SplitSentences(text) == [text];
      WordsOfBlank(text);
      assert Fold(Progress([], []), [text], size) == Step(Progress([], []), text, size);
      assert IsBlank(text + " ");
    }
    if SplitTextIntoChunks(text, size) == [] {
      ChunksKeepWords(text, size);
      assert multiset(Words(text)) == multiset{};
      BlankOfNoWords(text);
    }
  }

  /** The chunks of a non-empty text, given its sentences and the fold's
      final state. */
  lemma {:induction false} ChunksAfterFold(text: string, size: nat, sentences: seq<string>, last: Progress)
    requires |text| > 0 && SplitSentences(text) == sentences
    requires Fold(Progress([], []), sentences, size) == last
    ensures SplitTextIntoChunks(text, size) ==
      if !IsBlank(last.current) then last.chunks + [Strip(last.current)] else last.chunks
  {
  }

  // ---------------------------------------------------------------------
  // The code's quirks, on concrete inputs

  /** A text that is one word longer than the bound: the word loop
      flushes the still-empty `temp_chunk` first, so an empty chunk comes
      out ahead of the word. */
  lemma {:induction false} LongWordEmitsEmptyChunk(w: string, size: nat)
    requires IsWord(w) && |w| > size
    ensures SplitTextIntoChunks(w, size) == ["", w]
  {
    OneWordOneSentence(w);
    LongWordStep(w, size);
    assert [w][1..] == [];
    assert Fold(Progress([], []), [w], size) == Progress([""], w + " ");
    assert IsStripped(w);
    StripTrailingSpace(w);
    ChunksAfterFold(w, size, [w], Progress([""], w + " "));
    assert [""] + [w] == ["", w];
  }

  /** A word holds no sentence break, so it is a single piece. */
  lemma {:induction false} OneWordOneSentence(w: string)
    requires IsWord(w)
    ensures SplitSentences(w) == [w]
  {
    assert !BreaksAt(w, FirstBreak(w, 0));
  }

  lemma {:induction false} LongWordStep(w: string, size: nat)
    requires IsWord(w) && |w| > size
    ensures Step(Progress([], []), w, size) == Progress([""], w + " ")
  {
    WordsOfWord(w);
    assert Strip([]) == [];
    assert [w][1..] == [];
    assert PackWords([w], size, Packed([], [])) == Packed([""], w + " ");
    assert !IsBlank(w + " ") by {
      assert (w + " ")[0] == w[0];
    }
    assert [] + (w + " ") == w + " ";
  }

  /** The word sub-chunks of an oversized sentence are emitted before the
      sentences still pending in `current_chunk`, so chunk order differs
      from text order: "cde" comes out ahead of "ab.". */
  lemma {:induction false} OversizedSentenceReordersWords()
    ensures SplitTextIntoChunks("ab. cde fgh.", 5) == ["cde", "ab. fgh."]
  {
    ExampleSentences();
    ExampleFold();
    ExampleLastChunk();
    ChunksAfterFold("ab. cde fgh.", 5, ["ab.", "cde fgh."], Progress(["cde"], "ab. fgh. "));
    assert ["cde"] + ["ab. fgh."] == ["cde", "ab. fgh."];
  }

  // ---------------------------------------------------------------------
  // Example scaffolding: the single facts behind the example above, one
  // lemma per fact so that each literal is unfolded on its own

  lemma {:induction false} ExampleSentences()
    ensures SplitSentences("ab. cde fgh.") == ["ab.", "cde fgh."]
  {
    ExampleFirstSentence();
    ExampleSecondSentence();
    TwoSentences("ab.", "cde fgh.");
    ExampleText();
  }

  lemma {:induction false} ExampleFirstSentence()
    ensures |"ab."| > 0 && IsSentenceEnd("ab."[2]) && NoBreakIn("ab.", 0, 3)
  {
  }

  lemma {:induction false} ExampleSecondSentence()
    ensures !IsSpace("cde fgh."[0]) && NoBreakIn("cde fgh.", 0, 8)
  {
    assert !IsSentenceEnd("cde fgh."[2]);
  }

  lemma {:induction false} ExampleText()
    ensures "ab." + " " + "cde fgh." == "ab. cde fgh."
  {
  }

  /** Two sentences joined by one space split back into the two. */
  lemma {:induction false} TwoSentences(a: string, b: string)
    requires |a| > 0 && IsSentenceEnd(a[|a| - 1]) && NoBreakIn(a, 0, |a|)
    requires |b| > 0 && !IsSpace(b[0]) && NoBreakIn(b, 0, |b|)
    ensures SplitSentences(a + " " + b) == [a, b]
  {
    var s := a + " " + b;
    JoinedBreak(a, b);
    FirstBreakIs(s, |a|);
    OneSpaceGap(a, b);
    assert SplitSentences(b) == [b];
  }

  lemma {:induction false} JoinedBreak(a: string, b: string)
    requires |a| > 0 && IsSentenceEnd(a[|a| - 1]) && NoBreakIn(a, 0, |a|)
    ensures var s := a + " " + b; |a| < |s| && BreaksAt(s, |a|) && NoBreakIn(s, 0, |a|)
  {
    var s := a + " " + b;
    forall j | 0 <= j < |a|
      ensures !BreaksAt(s, j)
    {
      assert !BreaksAt(a, j);
      assert s[j] == a[j];
      if j > 0 {
        assert s[j - 1] == a[j - 1];
      }
    }
  }

  lemma {:induction false} OneSpaceGap(a: string, b: string)
    requires |b| > 0 && !IsSpace(b[0])
    ensures var s := a + " " + b;
      && |a| < |s| && LeadingSpaces(s[|a|..]) == 1
      && s[..|a|] == a && s[|a| + 1..] == b
  {
    var s := a + " " + b;
    assert s[|a|..] == " " + b;
    assert (" " + b)[1..] == b;
  }

  lemma {:induction false} FirstBreakIs(s: string, p: nat)
    requires p < |s| && BreaksAt(s, p) && NoBreakIn(s, 0, p)
    ensures FirstBreak(s, 0) == p
  {
  }

  lemma {:induction false} ExampleWords()
    ensures Words("cde fgh.") == ["cde", "fgh."]
  {
    assert IsWord("cde") && IsWord("fgh.");
    TwoWords("cde", "fgh.");
    assert "cde" + " " + "fgh." == "cde fgh.";
  }

  lemma {:induction false} TwoWords(a: string, b: string)
    requires IsWord(a) && IsWord(b)
    ensures Words(a + " " + b) == [a, b]
  {
    WordsOfWord(a);
    WordsOfWord(b);
    WordsAroundGap(a, " ", b);
  }

  lemma {:induction false} ExamplePackFirstWord()
    ensures PackWords(["cde", "fgh."], 5, Packed([], [])) == PackWords(["fgh."], 5, Packed([], "cde "))
  {
    assert ["cde", "fgh."][1..] == ["fgh."];
    assert [] + "cde" + " " == "cde ";
  }

  lemma {:induction false} ExamplePackSecondWord()
    ensures PackWords(["fgh."], 5, Packed([], "cde ")) == Packed(["cde"], "fgh. ")
  {
    assert IsStripped("cde");
    StripTrailingSpace("cde");
    assert "cde" + " " == "cde ";
    assert [] + ["cde"] == ["cde"];
    assert ["fgh."][1..] == [];
  }

  lemma {:induction false} ExampleFirstStep()
    ensures Step(Progress([], []), "ab.", 5) == Progress([], "ab. ")
  {
    assert [] + "ab." + " " == "ab. ";
  }

  lemma {:induction false} ExampleSecondStep()
    ensures Step(Progress([], "ab. "), "cde fgh.", 5) == Progress(["cde"], "ab. fgh. ")
  {
    ExampleWords();
    ExamplePackFirstWord();
    ExamplePackSecondWord();
    assert !IsBlank("fgh. ") by {
      assert "fgh. "[0] == 'f';
    }
    OversizedStep(Progress([], "ab. "), "cde fgh.", 5, Packed(["cde"], "fgh. "));
    ExampleJoin();
  }

  lemma {:induction false} ExampleJoin()
    ensures "ab. " + "fgh. " == "ab. fgh. " && [] + ["cde"] == ["cde"]
  {
  }

  /** An oversized sentence step, given the word loop's result. */
  lemma {:induction false} OversizedStep(st: Progress, sentence: string, size: nat, packed: Packed)
    requires AllStripped(st.chunks) && EndsOpen(st.current)
    requires |sentence| > size && PackWords(Words(sentence), size, Packed([], [])) == packed
    ensures Step(st, sentence, size) ==
      Progress(st.chunks + packed.emitted, if !IsBlank(packed.temp) then st.current + packed.temp else st.current)
  {
  }

  lemma {:induction false} ExampleFold()
    ensures Fold(Progress([], []), ["ab.", "cde fgh."], 5) == Progress(["cde"], "ab. fgh. ")
  {
    ExampleFirstStep();
    ExampleSecondStep();
    assert ["ab.", "cde fgh."][1..] == ["cde fgh."];
    assert ["cde fgh."][1..] == [];
  }

  lemma {:induction false} ExampleLastChunk()
    ensures !IsBlank("ab. fgh. ") && Strip("ab. fgh. ") == "ab. fgh."
  {
    assert "ab. fgh. "[0] == 'a';
    assert IsStripped("ab. fgh.");
    StripTrailingSpace("ab. fgh.");
    assert "ab. fgh." + " " == "ab. fgh. ";
  }
}
