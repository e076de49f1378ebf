/** The translation pipeline of wiki_utils.py: `basic_translate` (one HTTP
    call with fall-back to the input), `translate_chunk`, and
    `translate_text`, which fans chunks out to a thread pool and joins the
    per-index results back in index order.  The pool is modelled
    sequentially: the completion order is any permutation of the chunk
    indices, and the futures that raise are a parameter. */
module Translation {
  import opened Text
  import Chunker

  /** Texts shorter than this are translated whole, without chunking. */
  const ShortText: nat := 200

  // ---------------------------------------------------------------------
  // basic_translate

  /** A decoded JSON value, as far as `basic_translate` looks into it. */
  datatype Json = JList(items: seq<Json>) | JString(text: string) | JOther

  /** The outcome of the GET request and `.json()`: an exception, or a
      status code with the decoded body. */
  datatype Response = Raised | Reply(status: int, body: Json)

  /** The reply has status 200 and the shape `[[...], ...]` the code expects. */
  predicate WellShaped(resp: Response) {
    && resp.Reply?
    && resp.status == 200
    && resp.body.JList?
    && |resp.body.items| > 0
    && resp.body.items[0].JList?
  }

  /** `sentence[0]` for every `sentence` that is a non-empty list. */
  function Heads(sentences: seq<Json>): (hs: seq<Json>)
    ensures |hs| <= |sentences|
  {
    if |sentences| == 0 then []
    else if sentences[0].JList? && |sentences[0].items| > 0 then
      [sentences[0].items[0]] + Heads(sentences[1..])
    else Heads(sentences[1..])
  }

  function HeadTexts(hs: seq<Json>): string
    requires forall k :: 0 <= k < |hs| ==> hs[k].JString?
  {
    if |hs| == 0 then [] else hs[0].text + HeadTexts(hs[1..])
  }

  /** `''.join(heads)`; `None` when a head is not a string, where `join`
      raises `TypeError`. */
  function JoinHeads(sentences: seq<Json>): Option<string> {
    var hs := Heads(sentences);
    if forall k :: 0 <= k < |hs| ==> hs[k].JString? then Some(HeadTexts(hs)) else None
  }

  /** `basic_translate(text, to_lang, from_lang)`; `fetch` stands for the
      request to the translation endpoint for the fixed language pair. */
  function BasicTranslate(text: string, fetch: string -> Response): (r: string)
    ensures IsBlank(text) ==> r == text
    ensures r == text || (WellShaped(fetch(text)) && JoinHeads(fetch(text).body.items[0].items) == Some(r))
    ensures !IsBlank(text) && WellShaped(fetch(text)) && JoinHeads(fetch(text).body.items[0].items).Some? ==>
              r == JoinHeads(fetch(text).body.items[0].items).value
  {
    if IsBlank(text) then text
    else
      var resp := fetch(text);
      if !resp.Reply? || resp.status != 200 then text
      else if !WellShaped(resp) then text
      else
        match JoinHeads(resp.body.items[0].items)
        case Some(t) => t
        case None => text
  }

  // ---------------------------------------------------------------------
  // translate_chunk

  /** `translate_chunk`: blank chunks become "", a raising translator
      (`tr` yields `None`) leaves the chunk as it was. */
  function TranslateChunk(chunk: string, tr: string -> Option<string>): (r: string)
    ensures IsBlank(chunk) ==> r == []
    ensures !IsBlank(chunk) ==> (tr(chunk).Some? ==> r == tr(chunk).value) && (tr(chunk).None? ==> r == chunk)
  {
    if IsBlank(chunk) then []
    else
      match tr(chunk)
      case Some(t) => t
      case None => chunk
  }

  /** `basic_translate` never raises, so `translate_chunk` over it never
      takes its `except` branch: a blank chunk gives "", and any other
      chunk gives exactly what `basic_translate` returns. */
  lemma {:induction false} ChunkOverBasicTranslate(chunk: string, fetch: string -> Response)
    ensures TranslateChunk(chunk, x => Some(BasicTranslate(x, fetch))) ==
            if IsBlank(chunk) then [] else BasicTranslate(chunk, fetch)
  {
  }

  /** An endpoint that never answers usefully leaves every text as it was. */
  lemma {:induction false} FailingEndpointKeepsText(text: string, fetch: string -> Response)
    requires forall x :: !WellShaped(fetch(x))
    ensures BasicTranslate(text, fetch) == text
  {
  }

  // ---------------------------------------------------------------------
  // Fan-in

  function Indices(n: nat): (r: seq<nat>)
    ensures |r| == n
    ensures forall i :: 0 <= i < n ==> r[i] == i
  {
    seq(n, i => i)
  }

  /** `order` lists every index below `n` exactly once. */
  predicate IsCompletionOrder(order: seq<nat>, n: nat) {
    multiset(order) == multiset(Indices(n))
  }

  predicate InRange(order: seq<nat>, n: nat) {
    forall k :: 0 <= k < |order| ==> order[k] < n
  }

  /** The loop over `as_completed`: the future of chunk `i` either yields a
      string (`Some`) or raises (`None`, and the chunk itself is kept);
      either way `chunk_results[i]` is written. */
  function Collect(results: map<nat, string>, chunks: seq<string>,
                   outcomes: seq<Option<string>>, order: seq<nat>): (r: map<nat, string>)
    requires |outcomes| == |chunks| && InRange(order, |chunks|)
    ensures forall i :: i in r <==> i in results || i in order
    ensures forall i :: i in r ==> r[i] == if i in order then outcomes[i].GetOr(chunks[i]) else results[i]
    decreases |order|
  {
    if |order| == 0 then results
    else
      var i := order[0];
      assert forall j :: j in order <==> j == i || j in order[1..];
      Collect(results[i := outcomes[i].GetOr(chunks[i])], chunks, outcomes, order[1..])
  }

  /** `[chunk_results.get(i, chunks[i]) for i in range(total_chunks)]`. */
  function Resolve(chunks: seq<string>, results: map<nat, string>): (r: seq<string>)
    ensures |r| == |chunks|
  {
    seq(|chunks|, i requires 0 <= i < |chunks| => if i in results then results[i] else chunks[i])
  }

  /** The fan-in as the code runs it, for one completion order. */
  function FanIn(chunks: seq<string>, outcomes: seq<Option<string>>, order: seq<nat>): string
    requires |outcomes| == |chunks| && InRange(order, |chunks|)
  {
    Join(Resolve(chunks, Collect(map[], chunks, outcomes, order)), " ")
  }

  /** The reference result: chunk `i` contributes its translation, or the
      chunk itself if its future raised. */
  function Expected(chunks: seq<string>, outcomes: seq<Option<string>>): (r: seq<string>)
    requires |outcomes| == |chunks|
    ensures |r| == |chunks|
  {
    seq(|chunks|, i requires 0 <= i < |chunks| => outcomes[i].GetOr(chunks[i]))
  }

  lemma {:induction false} CompletionOrderCovers(order: seq<nat>, n: nat)
    requires IsCompletionOrder(order, n)
    ensures InRange(order, n)
    ensures forall i :: 0 <= i < n ==> i in order
  {
    var idx := Indices(n);
    forall k | 0 <= k < |order|
      ensures order[k] < n
    {
      assert order[k] in multiset(order);
      assert order[k] in multiset(idx);
    }
    forall i | 0 <= i < n
      ensures i in order
    {
      assert idx[i] == i;
      assert i in multiset(idx);
    }
  }

  /** Whatever the completion order, the fan-in joins the per-index
      results in index order. */
  lemma {:induction false} FanInIgnoresOrder(chunks: seq<string>, outcomes: seq<Option<string>>, order: seq<nat>)
    requires |outcomes| == |chunks| && IsCompletionOrder(order, |chunks|)
    ensures InRange(order, |chunks|)
    ensures FanIn(chunks, outcomes, order) == Join(Expected(chunks, outcomes), " ")
  {
    CompletionOrderCovers(order, |chunks|);
    var results := Collect(map[], chunks, outcomes, order);
    assert Resolve(chunks, results) == Expected(chunks, outcomes);
  }

  /** Two completion orders give the same text. */
  lemma {:induction false} FanInSameForAnyOrder(chunks: seq<string>, outcomes: seq<Option<string>>, o1: seq<nat>, o2: seq<nat>)
    requires |outcomes| == |chunks|
    requires IsCompletionOrder(o1, |chunks|) && IsCompletionOrder(o2, |chunks|)
    ensures InRange(o1, |chunks|) && InRange(o2, |chunks|)
    ensures FanIn(chunks, outcomes, o1) == FanIn(chunks, outcomes, o2)
  {
    FanInIgnoresOrder(chunks, outcomes, o1);
    FanInIgnoresOrder(chunks, outcomes, o2);
  }

  /** A chunk whose future raised, or that never recorded a result,
      contributes its original text; every other chunk contributes its own
      result, whatever happened to its siblings. */
  lemma {:induction false} FanInPieces(chunks: seq<string>, outcomes: seq<Option<string>>, order: seq<nat>)
    requires |outcomes| == |chunks| && InRange(order, |chunks|)
    ensures var pieces := Resolve(chunks, Collect(map[], chunks, outcomes, order));
      forall i :: 0 <= i < |chunks| ==>
        pieces[i] == if i in order && outcomes[i].Some? then outcomes[i].value else chunks[i]
  {
  }

  /** A raising future is indistinguishable from one that returned its
      chunk untranslated. */
  lemma {:induction false} RaisedIsLikeUntranslated(chunks: seq<string>, outcomes: seq<Option<string>>, order: seq<nat>, i: nat)
    requires |outcomes| == |chunks| && InRange(order, |chunks|) && i < |chunks|
    ensures FanIn(chunks, outcomes[i := None], order) == FanIn(chunks, outcomes[i := Some(chunks[i])], order)
  {
    var o1, o2 := outcomes[i := None], outcomes[i := Some(chunks[i])];
    FanInPieces(chunks, o1, order);
    FanInPieces(chunks, o2, order);
    var a := Resolve(chunks, Collect(map[], chunks, o1, order));
    var b := Resolve(chunks, Collect(map[], chunks, o2, order));
    forall j | 0 <= j < |chunks|
      ensures a[j] == b[j]
    {
      if j != i {
        assert o1[j] == o2[j];
      }
    }
    assert a == b;
  }

  // ---------------------------------------------------------------------
  // translate_text

  /** The translated text and the texts handed to translation, in the order
      they were submitted. */
  datatype Translated = Translated(text: string, requests: seq<string>)

  /** What each chunk's future yields: `translate_chunk`'s result, unless the
      future raised. */
  function ChunkOutcomes(chunks: seq<string>, tr: string -> Option<string>, raised: set<nat>): (r: seq<Option<string>>)
    ensures |r| == |chunks|
  {
    seq(|chunks|, i requires 0 <= i < |chunks| => if i in raised then None else Some(TranslateChunk(chunks[i], tr)))
  }

  function Chunks(text: string): seq<string> {
    Chunker.SplitTextIntoChunks(text, Chunker.ChunkSize)
  }

  /** `translate_text(text, to_lang, from_lang)`: `tr` is `basic_translate`
      for the language pair (`None` when it raises), `raised` the chunk
      indices whose future raised, `order` the completion order. */
  function TranslateText(text: string, tr: string -> Option<string>, raised: set<nat>, order: seq<nat>): (r: Translated)
    requires |text| >= ShortText ==> IsCompletionOrder(order, |Chunks(text)|)
    ensures |text| == 0 ==> r == Translated([], [])
    ensures 0 < |text| < ShortText ==> r.requests == [text]
    ensures 0 < |text| < ShortText && tr(text).Some? ==> r.text == tr(text).value
    ensures 0 < |text| < ShortText && tr(text).None? ==> r.text == text
    ensures |text| >= ShortText ==>
      && r.requests == Chunks(text)
      && r.text == Join(Expected(Chunks(text), ChunkOutcomes(Chunks(text), tr, raised)), " ")
  {
    if |text| == 0 then Translated([], [])
    else if |text| < ShortText then
      match tr(text)
      case Some(t) => Translated(t, [text])
      case None => Translated(text, [text])
    else
      var chunks := Chunks(text);
      if |chunks| == 0 then Translated([], [])
      else
        var outcomes := ChunkOutcomes(chunks, tr, raised);
        FanInIgnoresOrder(chunks, outcomes, order);
        Translated(FanIn(chunks, outcomes, order), chunks)
  }

  /** The completion order of the pool does not change the translation. */
  lemma {:induction false} TranslateTextIgnoresOrder(text: string, tr: string -> Option<string>, raised: set<nat>, o1: seq<nat>, o2: seq<nat>)
    requires |text| >= ShortText ==> IsCompletionOrder(o1, |Chunks(text)|) && IsCompletionOrder(o2, |Chunks(text)|)
    ensures TranslateText(text, tr, raised, o1) == TranslateText(text, tr, raised, o2)
  {
  }

  /** Each piece of a long translation is its chunk untranslated or the
      translator's output for exactly that chunk. */
  lemma {:induction false} PiecesAreChunksOrTranslations(text: string, tr: string -> Option<string>, raised: set<nat>)
    ensures var chunks := Chunks(text);
      var pieces := Expected(chunks, ChunkOutcomes(chunks, tr, raised));
      forall i :: 0 <= i < |chunks| ==> pieces[i] == chunks[i] || tr(chunks[i]) == Some(pieces[i])
  {
    var chunks := Chunks(text);
    forall i | 0 <= i < |chunks|
      ensures IsBlank(chunks[i]) ==> chunks[i] == []
    {
      assert IsStripped(chunks[i]);
    }
  }
}
