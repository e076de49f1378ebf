/** The highlight store behind `save_highlight` of attached_assets/app.py:
    the `article_id` parse and the keyed upsert and lookup. The store a
    request works on is the value `load_highlights` returned: the parsed
    file, or `{}` when the file could not be read or parsed. Writing the
    file is I/O and appears only as a flag saying whether the save went
    through. */
module Highlights {
  import opened Text
  import Bot

  /** One saved highlight; the timestamp is `int(time.time())`, supplied
      by the caller. */
  datatype Highlight = Highlight(text: string, context: string, timestamp: int)

  /** `highlights_data[title]['languages'][lang]`. */
  datatype Entry = Entry(languageName: string, highlights: seq<Highlight>)

  /** `highlights_data`: title, then language, then the entry. */
  type Store = map<string, map<string, Entry>>

  /** `title, lang = article_id.rsplit('_', 1)`, with the `ValueError`
      of an id holding no `_` caught as title `article_id`, lang `'en'`. */
  function ParseArticleId(id: string): (r: (string, string))
    ensures RFind(id, "_") == -1 ==> r == (id, "en")
    ensures RFind(id, "_") != -1 ==> r.0 + "_" + r.1 == id && !Occurs(r.1, "_")
  {
    var i := RFind(id, "_");
    if i == -1 then (id, "en")
    else
      assert id == id[..i] + "_" + id[i + 1..];
      NoLaterUnderscore(id, i);
      (id[..i], id[i + 1..])
  }

  lemma {:induction false} NoLaterUnderscore(id: string, i: nat)
    requires i < |id| && OccursAt(id, "_", i)
    requires forall j :: i < j <= |id| - 1 ==> !OccursAt(id, "_", j)
    ensures !Occurs(id[i + 1..], "_")
  {
    var rest := id[i + 1..];
    forall j | 0 <= j <= |rest|
      ensures !OccursAt(rest, "_", j)
    {
      if OccursAt(rest, "_", j) {
        assert rest[j..j + 1] == id[i + 1 + j..i + 2 + j];
        assert OccursAt(id, "_", i + 1 + j);
      }
    }
  }

  /** Ids the app builds as `f"{title}_{lang}"` parse back to their parts
      when the language code holds no `_`. */
  lemma {:induction false} ArticleIdRoundTrip(title: string, lang: string)
    requires !Occurs(lang, "_")
    ensures ParseArticleId(title + "_" + lang) == (title, lang)
  {
    var id := title + "_" + lang;
    var i := |title|;
    assert id[i..i + 1] == "_";
    forall j | i < j <= |id| - 1
      ensures !OccursAt(id, "_", j)
    {
      assert id[j..j + 1] == lang[j - i - 1..j - i];
      assert !OccursAt(lang, "_", j - i - 1);
    }
    assert OccursAt(id, "_", i);
    assert RFind(id, "_") == i;
    assert id[..i] == title && id[i + 1..] == lang;
  }

  /** The retrieve-only branch: the stored list, or `[]` when the title or
      the language is missing. */
  function Retrieve(store: Store, title: string, lang: string): (r: seq<Highlight>)
    ensures title in store && lang in store[title] ==> r == store[title][lang].highlights
    ensures !(title in store && lang in store[title]) ==> r == []
  {
    if title in store && lang in store[title] then store[title][lang].highlights else []
  }

  /** Creates the missing title and language entries, then appends `h` to
      the list of `(title, lang)`. */
  function Upsert(store: Store, title: string, lang: string, h: Highlight): (r: Store)
    ensures r.Keys == store.Keys + {title}
    ensures r[title].Keys == (if title in store then store[title].Keys else {}) + {lang}
    ensures Retrieve(r, title, lang) == Retrieve(store, title, lang) + [h]
    ensures title in store && lang in store[title] ==>
              r[title][lang].languageName == store[title][lang].languageName
    ensures !(title in store && lang in store[title]) ==>
              r[title][lang].languageName == Bot.LanguageName(lang)
  {
    var langs := if title in store then store[title] else map[];
    var entry := if lang in langs then langs[lang] else Entry(Bot.LanguageName(lang), []);
    store[title := langs[lang := entry.(highlights := entry.highlights + [h])]]
  }

  /** Every other title, and every other language of the same title, keeps
      its entry. */
  lemma {:induction false} UpsertKeepsOthers(store: Store, title: string, lang: string, h: Highlight)
    ensures var r := Upsert(store, title, lang, h);
      && (forall t :: t in store && t != title ==> r[t] == store[t])
      && (forall l :: title in store && l in store[title] && l != lang ==> r[title][l] == store[title][l])
  {
  }

  /** Every lookup after an upsert: the new highlight shows up under its own
      key and nowhere else. */
  lemma {:induction false} RetrieveAfterUpsert(store: Store, title: string, lang: string, h: Highlight, t: string, l: string)
    ensures Retrieve(Upsert(store, title, lang, h), t, l) ==
      if (t, l) == (title, lang) then Retrieve(store, t, l) + [h] else Retrieve(store, t, l)
  {
  }

  /** `load_highlights()`: the parsed file, or `{}` when reading or
      parsing raised (`None`); the error is logged and swallowed. */
  function LoadHighlights(file: Option<Store>): Store {
    if file.Some? then file.value else map[]
  }

  /** The JSON reply of `save_highlight`. */
  datatype Reply = Found(highlights: seq<Highlight>) | Failed(error: string)

  /** `save_highlight()` on the loaded `store`: the reply, and the store
      value the request leaves, which is what it writes when the save goes
      through. `saveOk` says whether `save_highlights` wrote the file. */
  function SaveHighlight(store: Store, articleId: string, text: string, context: string,
                         timestamp: int, saveOk: bool): (r: (Reply, Store))
    ensures |articleId| > 0 && context == "retrieve_only" ==>
              var (title, lang) := ParseArticleId(articleId);
              r == (Found(Retrieve(store, title, lang)), store)
    ensures !(|articleId| > 0 && context == "retrieve_only") && (|articleId| == 0 || |text| == 0) ==>
              r == (Failed("Missing required parameters"), store)
    ensures r.0.Failed? ==> r.1 == store
    ensures r.1 != store ==> saveOk && |articleId| > 0 && |text| > 0
    ensures |articleId| > 0 && |text| > 0 && context != "retrieve_only" ==>
              var (title, lang) := ParseArticleId(articleId);
              var h := Highlight(text, context, timestamp);
              && (saveOk ==> r.1 == Upsert(store, title, lang, h)
                             && r.0 == Found(Retrieve(store, title, lang) + [h]))
              && (!saveOk ==> r == (Failed("Error saving highlight"), store))
  {
    var (title, lang) := ParseArticleId(articleId);
    if |articleId| > 0 && context == "retrieve_only" then
      (Found(Retrieve(store, title, lang)), store)
    else if |articleId| == 0 || |text| == 0 then
      (Failed("Missing required parameters"), store)
    else
      var updated := Upsert(store, title, lang, Highlight(text, context, timestamp));
      if saveOk then (Found(Retrieve(updated, title, lang)), updated)
      else (Failed("Error saving highlight"), store)
  }

  /** A saved request leaves the list of every other title and language as
      it was. */
  lemma {:induction false} SaveKeepsOtherLists(store: Store, articleId: string, text: string, context: string,
                                               timestamp: int, t: string, l: string)
    requires |articleId| > 0 && |text| > 0 && context != "retrieve_only"
    requires (t, l) != ParseArticleId(articleId)
    ensures Retrieve(SaveHighlight(store, articleId, text, context, timestamp, true).1, t, l) == Retrieve(store, t, l)
  {
    var (title, lang) := ParseArticleId(articleId);
    RetrieveAfterUpsert(store, title, lang, Highlight(text, context, timestamp), t, l);
  }

  /** A file that could not be read or parsed loads as `{}`, so a saved
      request writes a store holding the new highlight alone: every list
      the file held is lost. */
  lemma {:induction false} UnreadableFileKeepsOnlyNewHighlight(articleId: string, text: string, context: string,
                                                               timestamp: int, t: string, l: string)
    requires |articleId| > 0 && |text| > 0 && context != "retrieve_only"
    ensures var (title, lang) := ParseArticleId(articleId);
      var saved := SaveHighlight(LoadHighlights(None), articleId, text, context, timestamp, true).1;
      && saved.Keys == {title} && saved[title].Keys == {lang}
      && Retrieve(saved, title, lang) == [Highlight(text, context, timestamp)]
      && ((t, l) != (title, lang) ==> Retrieve(saved, t, l) == [])
  {
    var (title, lang) := ParseArticleId(articleId);
    var h := Highlight(text, context, timestamp);
    RetrieveAfterUpsert(map[], title, lang, h, t, l);
  }

  /** A saved highlight is answered with the full list it now ends, and a
      later retrieve-only request for the same id sees that list. */
  lemma {:induction false} SavedHighlightIsRetrieved(store: Store, articleId: string, text: string, context: string, timestamp: int)
    requires |articleId| > 0 && |text| > 0 && context != "retrieve_only"
    ensures var (reply, after) := SaveHighlight(store, articleId, text, context, timestamp, true);
      var (title, lang) := ParseArticleId(articleId);
      && reply == Found(Retrieve(store, title, lang) + [Highlight(text, context, timestamp)])
      && SaveHighlight(after, articleId, "", "retrieve_only", 0, false).0 == reply
  {
  }
}
