/** Telegram message shaping: the article-content splitter that appears
    three times with the same text (handlers.py twice, bot_new.py once),
    and the truncation of summaries and messages. */
module Messages {
  import opened Text

  /** Room left under Telegram's 4096-character message limit. */
  const MaxLength: nat := 3000

  /** `i` is the last place `pat` occurs in `s`. */
  predicate LastOccurrence(s: string, pat: string, i: int) {
    OccursAt(s, pat, i) && forall j :: i < j <= |s| ==> !OccursAt(s, pat, j)
  }

  lemma {:induction false} RFindIsLast(s: string, pat: string)
    ensures RFind(s, pat) >= 0 ==> LastOccurrence(s, pat, RFind(s, pat))
    ensures RFind(s, pat) == -1 <==> !Occurs(s, pat)
  {
    var r := RFind(s, pat);
    if r != -1 {
      forall j | r < j <= |s|
        ensures !OccursAt(s, pat, j)
      {
        if j > |s| - |pat| {
          assert !OccursAt(s, pat, j);
        }
      }
    }
  }

  /** Where the window `c[:3000]` is cut: the last paragraph break, else
      the last newline, else the last ". ", else the window's end. */
  function BreakPoint(c: string): (sp: nat)
    requires |c| > MaxLength
    ensures sp <= MaxLength
    ensures Occurs(c[..MaxLength], "\n\n") ==> LastOccurrence(c[..MaxLength], "\n\n", sp)
    ensures !Occurs(c[..MaxLength], "\n\n") && Occurs(c[..MaxLength], "\n") ==>
              LastOccurrence(c[..MaxLength], "\n", sp)
    ensures !Occurs(c[..MaxLength], "\n") && Occurs(c[..MaxLength], ". ") ==>
              LastOccurrence(c[..MaxLength], ". ", sp)
    ensures !Occurs(c[..MaxLength], "\n") && !Occurs(c[..MaxLength], ". ") ==> sp == MaxLength
  {
    var w := c[..MaxLength];
    RFindIsLast(w, "\n\n");
    RFindIsLast(w, "\n");
    RFindIsLast(w, ". ");
    NewlineInParagraphBreak(w);
    var p := RFind(w, "\n\n");
    if p != -1 then p
    else
      var n := RFind(w, "\n");
      if n != -1 then n
      else
        var d := RFind(w, ". ");
        if d != -1 then d else MaxLength
  }

  lemma {:induction false} NewlineInParagraphBreak(w: string)
    ensures Occurs(w, "\n\n") ==> Occurs(w, "\n")
  {
    if Occurs(w, "\n\n") {
      var i :| 0 <= i <= |w| && OccursAt(w, "\n\n", i);
      assert w[i] == w[i..i + 2][0] == '\n';
      assert w[i..i + 1] == [w[i]];
      assert OccursAt(w, "\n", i);
    }
  }

  /** A chunk the splitter may emit: at most 3000 characters, or exactly
      3001 when the window held no newline and no ". " to cut at. */
  predicate ChunkFits(x: string) {
    || |x| <= MaxLength
    || (|x| == MaxLength + 1 && !Occurs(x[..MaxLength], "\n") && !Occurs(x[..MaxLength], ". "))
  }

  /** The chunks the `while content:` loop emits. */
  function MessageChunks(c: string): (r: seq<string>)
    ensures Concat(r) == c
    ensures r == [] <==> c == []
    ensures forall k :: 0 <= k < |r| ==> |r[k]| > 0 && ChunkFits(r[k])
    decreases |c|
  {
    if |c| == 0 then []
    else if |c| <= MaxLength then [c]
    else
      var sp := BreakPoint(c);
      var head := c[..sp + 1];
      assert sp == MaxLength ==> head[..MaxLength] == c[..MaxLength];
      assert c == head + c[sp + 1..];
      [head] + MessageChunks(c[sp + 1..])
  }

  /** The loop itself: `content` shrinks by each emitted chunk. */
  method SplitMessage(content: string) returns (chunks: seq<string>)
    ensures Concat(chunks) == content
    ensures chunks == MessageChunks(content)
  {
    chunks := [];
    var rest := content;
    while |rest| > 0
      invariant chunks + MessageChunks(rest) == MessageChunks(content)
      invariant Concat(chunks) + rest == content
      decreases |rest|
    {
      var piece: string, next: string;
      if |rest| <= MaxLength {
        piece, next := rest, [];
      } else {
        var sp := BreakPoint(rest);
        piece, next := rest[..sp + 1], rest[sp + 1..];
      }
      CutAt(rest, piece, next);
      LoopStep(content, chunks, rest, piece, next);
      chunks, rest := chunks + [piece], next;
    }
  }

  /** One cut of the loop: the piece emitted and the text left. */
  lemma {:induction false} CutAt(rest: string, piece: string, next: string)
    requires |rest| > 0
    requires |rest| <= MaxLength ==> piece == rest && next == []
    requires |rest| > MaxLength ==> piece == rest[..BreakPoint(rest) + 1] && next == rest[BreakPoint(rest) + 1..]
    ensures rest == piece + next && MessageChunks(rest) == [piece] + MessageChunks(next)
  {
    if |rest| <= MaxLength {
      assert rest == rest + [];
    }
  }

  lemma {:induction false} LoopStep(content: string, chunks: seq<string>, rest: string, piece: string, next: string)
    requires rest == piece + next && MessageChunks(rest) == [piece] + MessageChunks(next)
    requires chunks + MessageChunks(rest) == MessageChunks(content) && Concat(chunks) + rest == content
    ensures (chunks + [piece]) + MessageChunks(next) == MessageChunks(content)
    ensures Concat(chunks + [piece]) + next == content
  {
    AppendAssoc(chunks, [piece], MessageChunks(next));
    ConcatAppend(chunks, [piece]);
    assert Concat([piece]) == piece;
    AppendAssoc(Concat(chunks), piece, next);
  }

  /** The hard cut is the only way to get a 3001-character chunk. */
  lemma {:induction false} HardCutChunk(c: string)
    requires |c| > MaxLength && !Occurs(c[..MaxLength], "\n") && !Occurs(c[..MaxLength], ". ")
    ensures |MessageChunks(c)[0]| == MaxLength + 1
    ensures MessageChunks(c)[0] == c[..MaxLength + 1]
  {
  }

  /** Cutting at a paragraph break keeps only its first newline: the
      second one opens the next chunk. */
  lemma {:induction false} ParagraphBreakSplitsNewlines(c: string)
    requires |c| > MaxLength && Occurs(c[..MaxLength], "\n\n")
    ensures var r := MessageChunks(c);
      |r| >= 2 && r[0][|r[0]| - 1] == '\n' && r[1][0] == '\n'
  {
    var sp := BreakPoint(c);
    BreakIsDoubleNewline(c);
    var tail := c[sp + 1..];
    CutAt(c, c[..sp + 1], tail);
    FirstChunkStarts(tail);
  }

  lemma {:induction false} BreakIsDoubleNewline(c: string)
    requires |c| > MaxLength && Occurs(c[..MaxLength], "\n\n")
    ensures BreakPoint(c) + 1 < |c| && c[BreakPoint(c)] == '\n' && c[BreakPoint(c) + 1] == '\n'
  {
    var sp := BreakPoint(c);
    var w := c[..MaxLength];
    assert w[sp..sp + 2] == "\n\n";
    assert c[sp] == w[sp..sp + 2][0] && c[sp + 1] == w[sp..sp + 2][1];
  }

  /** The first chunk starts where the text does. */
  lemma {:induction false} FirstChunkStarts(t: string)
    requires |t| > 0
    ensures |MessageChunks(t)| > 0 && MessageChunks(t)[0][0] == t[0]
  {
    if |t| > MaxLength {
      var sp := BreakPoint(t);
      assert MessageChunks(t)[0] == t[..sp + 1];
    }
  }

  /** `text[:limit - 3] + "..."` when the text exceeds `limit`. */
  function Truncate(s: string, limit: nat): (r: string)
    requires limit >= 3
    ensures |s| <= limit ==> r == s
    ensures |s| > limit ==> |r| == limit && r[..limit - 3] == s[..limit - 3] && r[limit - 3..] == "..."
    ensures |r| <= limit
  {
    if |s| > limit then s[..limit - 3] + "..." else s
  }

  /** The summary limit of the article view. */
  const SummaryLimit: nat := 1000

  /** The limit every composed message is cut to. */
  const MessageLimit: nat := 4000

  /** Truncating twice changes nothing. */
  lemma {:induction false} TruncateIdempotent(s: string, limit: nat)
    requires limit >= 3
    ensures Truncate(Truncate(s, limit), limit) == Truncate(s, limit)
  {
  }
}
