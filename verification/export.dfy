/** `export_article` of attached_assets/app.py: the per-section
    translation list, the outline of the exported Word document, its
    heading levels and its download name. Fetching the article, Flask's
    redirects and python-docx's rendering are outside; the translator is
    `translate_text` with the language pair fixed, `None` when it raised. */
module Export {
  import opened Text
  import Sections
  import Article
  import Bot
  import Documents
  import Highlights

  type Section = Sections.Section
  type Block = Documents.Block

  // ---------------------------------------------------------------------
  // Translations

  /** One entry of `translations['sections']`. */
  datatype Entry = Entry(title: Option<string>, content: string)

  /** The `translations` dictionary: each key present or absent. */
  datatype Translations = Translations(summary: Option<string>, sections: Option<seq<Entry>>)

  /** The loop filling `translations['sections']`: an empty content is
      kept as `''` without a call; the list stops at the first call that
      raised. */
  function SectionTranslations(secs: seq<Section>, tr: string -> Option<string>): (r: seq<Entry>)
    ensures |r| <= |secs|
    ensures forall k :: 0 <= k < |r| ==> r[k].title == secs[k].title
    ensures forall k :: 0 <= k < |r| && secs[k].content == [] ==> r[k].content == []
    ensures forall k :: 0 <= k < |r| && secs[k].content != [] ==> tr(secs[k].content) == Some(r[k].content)
    ensures |r| < |secs| ==> secs[|r|].content != [] && tr(secs[|r|].content).None?
  {
    if |secs| == 0 then []
    else
      var x := secs[0];
      var c := if x.content == [] then Some([]) else tr(x.content);
      if c.None? then []
      else
        var rest := SectionTranslations(secs[1..], tr);
        var r := [Entry(x.title, c.value)] + rest;
        assert forall k :: 1 <= k < |r| ==> r[k] == rest[k - 1] && secs[k] == secs[1..][k - 1];
        assert |rest| < |secs| - 1 ==> secs[|r|] == secs[1..][|rest|];
        r
  }

  /** The list is complete exactly when no call raised. */
  lemma {:induction false} SectionTranslationsComplete(secs: seq<Section>, tr: string -> Option<string>)
    ensures |SectionTranslations(secs, tr)| == |secs| <==>
      forall k :: 0 <= k < |secs| && secs[k].content != [] ==> tr(secs[k].content).Some?
  {
    var r := SectionTranslations(secs, tr);
    if |r| < |secs| {
      assert secs[|r|].content != [] && tr(secs[|r|].content).None?;
    }
  }

  /** Exports ask for translations with `include_translations=true` and a
      non-empty `to_lang`. */
  predicate Translating(includeTranslations: bool, translateTo: string) {
    includeTranslations && |translateTo| > 0
  }

  /** The `try` block gathering translations: a raising summary call leaves
      the dictionary empty; otherwise the summary is there and the section
      list holds what was done before a call raised. */
  function Gather(summary: string, secs: seq<Section>, translating: bool,
                  tr: string -> Option<string>): (r: Translations)
    ensures !translating ==> r == Translations(None, None)
    ensures r.summary.Some? <==> translating && tr(summary).Some?
    ensures r.summary.Some? ==> r.summary == tr(summary)
    ensures r.sections.Some? <==> r.summary.Some?
    ensures r.sections.Some? ==> r.sections.value == SectionTranslations(secs, tr)
  {
    if !translating then Translations(None, None)
    else
      match tr(summary)
      case None => Translations(None, None)
      case Some(s) => Translations(Some(s), Some(SectionTranslations(secs, tr)))
  }

  // ---------------------------------------------------------------------
  // Heading levels

  /** `min(section['level'] + 1, 9)`. */
  function ExportLevel(level: nat): (r: nat)
    ensures 1 <= r <= Documents.DeepestLevel
    ensures r == level + 1 || (level + 1 > Documents.DeepestLevel && r == Documents.DeepestLevel)
  {
    if level + 1 < Documents.DeepestLevel then level + 1 else Documents.DeepestLevel
  }

  /** Below the cap the web export puts every section one level higher
      than the bot's document does. */
  lemma {:induction false} ExportLevelAboveDocumentLevel(level: nat)
    ensures level + 2 <= Documents.DeepestLevel ==> ExportLevel(level) + 1 == Documents.HeadingLevel(level)
    ensures ExportLevel(level) <= Documents.HeadingLevel(level)
  {
  }

  // ---------------------------------------------------------------------
  // Outline

  /** `f"Translation ({get_language_name(translate_to)})"`. */
  function TranslationLabel(translateTo: string): string {
    "Translation (" + Bot.LanguageName(translateTo) + ")"
  }

  /** A section gets its translation when the list reaches it and its
      content is not blank. */
  predicate HasTranslation(x: Section, i: nat, entries: Option<seq<Entry>>) {
    entries.Some? && i < |entries.value| && !IsBlank(x.content)
  }

  /** The section's own blocks: its heading when the title is truthy, then
      its content. */
  function OwnBlocks(x: Section): seq<Block> {
    (if Article.HasTitle(x) then [Documents.Heading(x.title.value, ExportLevel(x.level))] else [])
      + [Documents.Paragraph(x.content)]
  }

  /** The blocks following a section's content when it has a translation. */
  function TranslationBlocks(caption: string, level: nat, text: string): seq<Block> {
    [Documents.Heading(caption, level), Documents.Paragraph(text), Documents.Paragraph("---")]
  }

  /** The section loop AS WRITTEN: `level` is assigned only under a truthy
      title, so an untitled section reads the previous titled section's
      level, or raises `UnboundLocalError` (`None` here) when no titled
      section came before and a translation heading is due. */
  function SectionsAsWritten(secs: seq<Section>, i: nat, level: Option<nat>,
                             entries: Option<seq<Entry>>, caption: string): (r: Option<seq<Block>>)
    requires i <= |secs|
    ensures level.Some? ==> r.Some?
    ensures entries.None? ==> r.Some?
    decreases |secs| - i
  {
    if i == |secs| then Some([])
    else
      var x := secs[i];
      var lvl := if Article.HasTitle(x) then Some(ExportLevel(x.level)) else level;
      if HasTranslation(x, i, entries) && lvl.None? then None
      else
        var extra := if HasTranslation(x, i, entries)
                     then TranslationBlocks(caption, if Article.HasTitle(x) then lvl.value + 1 else lvl.value,
                                            entries.value[i].content)
                     else [];
        match SectionsAsWritten(secs, i + 1, lvl, entries, caption)
        case None => None
        case Some(rest) => Some(OwnBlocks(x) + extra + rest)
  }

  /** No section from `i` to `j` has a truthy title. */
  predicate Untitled(secs: seq<Section>, i: nat, j: nat)
    requires j < |secs|
  {
    forall m :: i <= m <= j ==> !Article.HasTitle(secs[m])
  }

  /** The loop raises exactly when, with no level assigned yet, a
      translated section comes before every titled one. */
  lemma {:induction false} AsWrittenRaisesIff(secs: seq<Section>, i: nat, level: Option<nat>,
                                              entries: Option<seq<Entry>>, caption: string)
    requires i <= |secs|
    ensures SectionsAsWritten(secs, i, level, entries, caption).None? <==>
      level.None? && exists j :: i <= j < |secs| && Untitled(secs, i, j) && HasTranslation(secs[j], j, entries)
    decreases |secs| - i
  {
    if i < |secs| && level.None? {
      var x := secs[i];
      if Article.HasTitle(x) {
        assert forall j :: i <= j < |secs| ==> !Untitled(secs, i, j);
      } else if !HasTranslation(x, i, entries) {
        AsWrittenRaisesIff(secs, i + 1, level, entries, caption);
        if exists j :: i + 1 <= j < |secs| && Untitled(secs, i + 1, j) && HasTranslation(secs[j], j, entries) {
          var j :| i + 1 <= j < |secs| && Untitled(secs, i + 1, j) && HasTranslation(secs[j], j, entries);
          assert Untitled(secs, i, j);
        }
        if exists j :: i <= j < |secs| && Untitled(secs, i, j) && HasTranslation(secs[j], j, entries) {
          var j :| i <= j < |secs| && Untitled(secs, i, j) && HasTranslation(secs[j], j, entries);
          assert j != i && Untitled(secs, i + 1, j);
        }
      } else {
        assert Untitled(secs, i, i);
      }
    }
  }

  lemma {:induction false} OwnParagraphs(x: Section)
    ensures Documents.ParagraphTexts(OwnBlocks(x)) == [x.content]
  {
    var own := OwnBlocks(x);
    var p := [Documents.Paragraph(x.content)];
    assert own == own[..|own| - 1] + p;
    Documents.ParagraphTextsAppend(own[..|own| - 1], p);
    assert Documents.ParagraphTexts(p) == [x.content];
  }

  /** Every heading among `bs` has a level in `[lo, hi]`. */
  predicate LevelsWithin(bs: seq<Block>, lo: nat, hi: nat) {
    forall k :: 0 <= k < |bs| && bs[k].Heading? ==> lo <= bs[k].level <= hi
  }

  lemma {:induction false} LevelsWithinAppend(a: seq<Block>, b: seq<Block>, lo: nat, hi: nat)
    requires LevelsWithin(a, lo, hi) && LevelsWithin(b, lo, hi)
    ensures LevelsWithin(a + b, lo, hi)
  {
    forall k | 0 <= k < |a + b| && (a + b)[k].Heading?
      ensures lo <= (a + b)[k].level <= hi
    {
      if k >= |a| {
        assert (a + b)[k] == b[k - |a|];
      }
    }
  }

  /** One section's blocks in the corrected loop: its own blocks and, when
      it has a translation, the translation heading one level below a
      titled section's heading, or at the section's own level. */
  function FixedBlocks(x: Section, i: nat, entries: Option<seq<Entry>>, caption: string): (r: seq<Block>)
    ensures LevelsWithin(r, 1, Documents.DeepestLevel + 1)
    ensures x.level + 2 <= Documents.DeepestLevel ==> LevelsWithin(r, 1, Documents.DeepestLevel)
    ensures entries.None? ==> r == OwnBlocks(x)
  {
    var lvl := ExportLevel(x.level);
    var extra := if HasTranslation(x, i, entries)
                 then TranslationBlocks(caption, if Article.HasTitle(x) then lvl + 1 else lvl,
                                        entries.value[i].content)
                 else [];
    assert OwnBlocks(x) + [] == OwnBlocks(x);
    OwnBlocks(x) + extra
  }

  /** The section loop with `level` assigned for every section, as the
      translation heading evidently intends. */
  function SectionsFixed(secs: seq<Section>, i: nat, entries: Option<seq<Entry>>, caption: string): (r: seq<Block>)
    requires i <= |secs|
    ensures LevelsWithin(r, 1, Documents.DeepestLevel + 1)
    ensures (forall m :: i <= m < |secs| ==> secs[m].level + 2 <= Documents.DeepestLevel) ==>
              LevelsWithin(r, 1, Documents.DeepestLevel)
    ensures entries.None? ==> Documents.ParagraphTexts(r) == Documents.Contents(secs[i..])
    decreases |secs| - i
  {
    if i == |secs| then []
    else
      var head := FixedBlocks(secs[i], i, entries, caption);
      var rest := SectionsFixed(secs, i + 1, entries, caption);
      FixedCons(secs, i, entries, head, rest);
      head + rest
  }

  lemma {:induction false} FixedCons(secs: seq<Section>, i: nat, entries: Option<seq<Entry>>,
                                     head: seq<Block>, rest: seq<Block>)
    requires i < |secs|
    requires LevelsWithin(head, 1, Documents.DeepestLevel + 1) && LevelsWithin(rest, 1, Documents.DeepestLevel + 1)
    requires secs[i].level + 2 <= Documents.DeepestLevel ==> LevelsWithin(head, 1, Documents.DeepestLevel)
    requires (forall m :: i + 1 <= m < |secs| ==> secs[m].level + 2 <= Documents.DeepestLevel) ==>
               LevelsWithin(rest, 1, Documents.DeepestLevel)
    requires entries.None? ==> head == OwnBlocks(secs[i])
    requires entries.None? ==> Documents.ParagraphTexts(rest) == Documents.Contents(secs[i + 1..])
    ensures LevelsWithin(head + rest, 1, Documents.DeepestLevel + 1)
    ensures (forall m :: i <= m < |secs| ==> secs[m].level + 2 <= Documents.DeepestLevel) ==>
              LevelsWithin(head + rest, 1, Documents.DeepestLevel)
    ensures entries.None? ==> Documents.ParagraphTexts(head + rest) == Documents.Contents(secs[i..])
  {
    LevelsWithinAppend(head, rest, 1, Documents.DeepestLevel + 1);
    if forall m :: i <= m < |secs| ==> secs[m].level + 2 <= Documents.DeepestLevel {
      LevelsWithinAppend(head, rest, 1, Documents.DeepestLevel);
    }
    if entries.None? {
      OwnParagraphs(secs[i]);
      Documents.ParagraphTextsAppend(head, rest);
      assert secs[i..] == [secs[i]] + secs[i + 1..];
    }
  }

  /** Where every section from `i` on is titled, the stale or missing
      `level` is never read and the loop agrees with the corrected one. */
  lemma {:induction false} AsWrittenMatchesFixed(secs: seq<Section>, i: nat, level: Option<nat>,
                                                 entries: Option<seq<Entry>>, caption: string)
    requires i <= |secs|
    requires forall m :: i <= m < |secs| ==> Article.HasTitle(secs[m])
    ensures SectionsAsWritten(secs, i, level, entries, caption) == Some(SectionsFixed(secs, i, entries, caption))
    decreases |secs| - i
  {
    if i < |secs| {
      AsWrittenMatchesFixed(secs, i + 1, Some(ExportLevel(secs[i].level)), entries, caption);
    }
  }

  /** An optional untitled lead followed by sections with non-empty
      titles, the shape `split_content_into_sections` produces when no
      heading line has an empty title (`== ==` has one, see
      `Sections.EmptyTitleMatches`): the loop as written raises exactly
      when the lead has a translation, and otherwise agrees with the
      corrected loop. */
  lemma {:induction false} LeadDecidesAsWritten(secs: seq<Section>, entries: Option<seq<Entry>>, caption: string)
    requires |secs| > 0 && forall m :: 0 < m < |secs| ==> Article.HasTitle(secs[m])
    ensures SectionsAsWritten(secs, 0, None, entries, caption) ==
      if !Article.HasTitle(secs[0]) && HasTranslation(secs[0], 0, entries) then None
      else Some(SectionsFixed(secs, 0, entries, caption))
  {
    var x := secs[0];
    var lvl := if Article.HasTitle(x) then Some(ExportLevel(x.level)) else None;
    AsWrittenMatchesFixed(secs, 1, lvl, entries, caption);
  }

  /** A concrete lead section with a translation makes the loop raise. */
  lemma {:induction false} UntitledLeadRaises()
    ensures SectionsAsWritten([Sections.Section(None, "Intro.", 0), Sections.Section(Some("A"), "Body.", 2)], 0, None,
                              Some([Entry(None, "Intro."), Entry(Some("A"), "Body.")]), TranslationLabel("es")).None?
  {
    assert !IsBlank("Intro.") by { assert !IsSpace("Intro."[0]); }
  }

  /** Later untitled sections reuse a stale level: after a titled
      section, an untitled one with a translation gets its translation
      heading at the titled section's level, where the corrected loop uses
      its own, so the two documents differ whenever those levels do. */
  lemma {:induction false} StaleLevelDiverges(secs: seq<Section>, entries: Option<seq<Entry>>, caption: string)
    requires |secs| >= 2 && Article.HasTitle(secs[0]) && !Article.HasTitle(secs[1])
    requires HasTranslation(secs[1], 1, entries)
    requires ExportLevel(secs[0].level) != ExportLevel(secs[1].level)
    ensures SectionsAsWritten(secs, 0, None, entries, caption).Some?
    ensures SectionsAsWritten(secs, 0, None, entries, caption) != Some(SectionsFixed(secs, 0, entries, caption))
  {
    var t, u := secs[0], secs[1];
    var stale := ExportLevel(t.level);
    var a1 := SectionsAsWritten(secs, 1, Some(stale), entries, caption).value;
    var f1 := SectionsFixed(secs, 1, entries, caption);
    var k := |OwnBlocks(u)|;
    assert a1 == OwnBlocks(u) + TranslationBlocks(caption, stale, entries.value[1].content)
                 + SectionsAsWritten(secs, 2, Some(stale), entries, caption).value;
    assert f1 == FixedBlocks(u, 1, entries, caption) + SectionsFixed(secs, 2, entries, caption);
    assert a1[k] == Documents.Heading(caption, stale);
    assert f1[k] == Documents.Heading(caption, ExportLevel(u.level));
    var extra := if HasTranslation(t, 0, entries) then TranslationBlocks(caption, stale + 1, entries.value[0].content) else [];
    var head := OwnBlocks(t) + extra;
    assert SectionsAsWritten(secs, 0, None, entries, caption) == Some(head + a1);
    assert SectionsFixed(secs, 0, entries, caption) == head + f1;
    assert (head + a1)[|head| + k] == a1[k];
    assert (head + f1)[|head| + k] == f1[k];
  }

  // ---------------------------------------------------------------------
  // Download name

  /** `title.replace('/', '_').replace('\\', '_')`. */
  function SafeFileName(title: string): (r: string)
    ensures |r| == |title|
    ensures forall k :: 0 <= k < |r| ==> r[k] != '/' && r[k] != '\\'
    ensures forall k :: 0 <= k < |r| && title[k] != '/' && title[k] != '\\' ==> r[k] == title[k]
    ensures forall k :: 0 <= k < |r| && (title[k] == '/' || title[k] == '\\') ==> r[k] == '_'
  {
    seq(|title|, k requires 0 <= k < |title| => if title[k] == '/' || title[k] == '\\' then '_' else title[k])
  }

  /** The web export's mapping only replaces separators, so the bot's
      stricter mapping gives the same result after it. */
  lemma {:induction false} SafeTitleAbsorbsSafeFileName(title: string, isAlnum: char -> bool)
    requires !isAlnum('/') && !isAlnum('\\')
    ensures Documents.SafeTitle(SafeFileName(title), isAlnum) == Documents.SafeTitle(title, isAlnum)
  {
  }

  /** The download name, with or without the translation suffix. */
  function DownloadName(title: string, lang: string, translateTo: string, translating: bool): (r: string)
    ensures !translating ==> r == SafeFileName(title) + "_" + lang + ".docx"
    ensures translating ==> r == SafeFileName(title) + "_" + lang + "_with_" + translateTo + "_translations.docx"
  {
    var base := SafeFileName(title) + "_" + lang;
    if translating then base + "_with_" + translateTo + "_translations.docx" else base + ".docx"
  }

  /** Without translations, the name less `.docx` is an `article_id` of
      the highlight store naming the same title and language. */
  lemma {:induction false} DownloadNameIsArticleId(title: string, lang: string, translateTo: string)
    requires !Occurs(lang, "_")
    ensures var name := DownloadName(title, lang, translateTo, false);
      Highlights.ParseArticleId(name[..|name| - 5]) == (SafeFileName(title), lang)
  {
    var name := DownloadName(title, lang, translateTo, false);
    assert name[..|name| - 5] == SafeFileName(title) + "_" + lang;
    Highlights.ArticleIdRoundTrip(SafeFileName(title), lang);
  }

  // ---------------------------------------------------------------------
  // The export

  /** The blocks before the sections: title, source, languages, export
      time (`now`, from the clock), summary and its translation. */
  function Front(a: Article.Article, lang: string, translateTo: string, translating: bool,
                 now: string, ts: Translations): seq<Block> {
    [Documents.Heading(a.title, 0), Documents.Paragraph("Source: " + a.url)]
    + (if translating
       then [Documents.Paragraph("Original Language: " + Bot.LanguageName(lang) + " (" + lang + ")"),
             Documents.Paragraph("Translated to: " + Bot.LanguageName(translateTo) + " (" + translateTo + ")")]
       else [Documents.Paragraph("Language: " + Bot.LanguageName(lang) + " (" + lang + ")")])
    + [Documents.Paragraph("Exported on: " + now),
       Documents.Heading("Summary", 1), Documents.Paragraph(a.summary)]
    + (if translating && ts.summary.Some?
       then [Documents.Heading("Summary (Translated to " + Bot.LanguageName(translateTo) + ")", 2),
             Documents.Paragraph(ts.summary.value)]
       else [])
    + [Documents.Heading("Full Content", 1)]
  }

  /** What the route answers: a redirect home for a missing article, the
      document to download, or a redirect back after an exception. */
  datatype Outcome = NotFound | Download(name: string, blocks: seq<Block>) | Failed

  /** `export_article(title)` AS WRITTEN; `article` is what
      `get_article_content` returned, `None` when falsy. */
  function ExportArticle(title: string, article: Option<Article.Article>, lang: string,
                         includeTranslations: bool, translateTo: string, now: string,
                         tr: string -> Option<string>): (r: Outcome)
    ensures r.NotFound? <==> article.None?
    ensures r.Failed? ==> Translating(includeTranslations, translateTo)
    ensures r.Download? ==> r.name == DownloadName(title, lang, translateTo, Translating(includeTranslations, translateTo))
  {
    if article.None? then NotFound
    else
      var a := article.value;
      var secs := Sections.SplitContentIntoSections(a.content);
      var translating := Translating(includeTranslations, translateTo);
      var ts := Gather(a.summary, secs, translating, tr);
      match SectionsAsWritten(secs, 0, None, ts.sections, TranslationLabel(translateTo))
      case None => Failed
      case Some(body) =>
        Download(DownloadName(title, lang, translateTo, translating),
                 Front(a, lang, translateTo, translating, now, ts) + body)
  }

  /** `export_article(title)` with `level` assigned for every section. */
  function ExportArticleFixed(title: string, article: Option<Article.Article>, lang: string,
                              includeTranslations: bool, translateTo: string, now: string,
                              tr: string -> Option<string>): (r: Outcome)
    ensures r.NotFound? <==> article.None?
    ensures article.Some? ==> r.Download?
    ensures r.Download? ==> r.name == DownloadName(title, lang, translateTo, Translating(includeTranslations, translateTo))
  {
    if article.None? then NotFound
    else
      var a := article.value;
      var secs := Sections.SplitContentIntoSections(a.content);
      var translating := Translating(includeTranslations, translateTo);
      var ts := Gather(a.summary, secs, translating, tr);
      Download(DownloadName(title, lang, translateTo, translating),
               Front(a, lang, translateTo, translating, now, ts)
               + SectionsFixed(secs, 0, ts.sections, TranslationLabel(translateTo)))
  }

  /** Exporting with translations fails for every article whose content
      opens with text before its first heading, as soon as the summary and
      that text translate. */
  lemma {:induction false} LeadTextBreaksExport(title: string, a: Article.Article, lang: string, translateTo: string,
                             now: string, tr: string -> Option<string>)
    requires |translateTo| > 0
    requires var secs := Sections.SplitContentIntoSections(a.content);
      && !Article.HasTitle(secs[0]) && !IsBlank(secs[0].content)
      && tr(a.summary).Some? && tr(secs[0].content).Some?
    ensures ExportArticle(title, Some(a), lang, true, translateTo, now, tr) == Failed
  {
    var secs := Sections.SplitContentIntoSections(a.content);
    assert secs[0].content != [];
    assert |SectionTranslations(secs, tr)| > 0;
  }

  /** In particular for every non-blank article without a heading. */
  lemma {:induction false} HeadinglessArticleBreaksExport(title: string, a: Article.Article, lang: string, translateTo: string,
                                       now: string, tr: string -> Option<string>)
    requires |translateTo| > 0 && !IsBlank(a.content) && Sections.NoMatchIn(a.content, 0, |a.content|)
    requires tr(a.summary).Some? && tr(Strip(a.content)).Some?
    ensures ExportArticle(title, Some(a), lang, true, translateTo, now, tr) == Failed
  {
    Sections.NoHeadingsOneSection(a.content);
    LeadTextBreaksExport(title, a, lang, translateTo, now, tr);
  }

  /** A translator that never raises: `translate_text` wraps its whole
      body in `try`/`except` and returns its input on any exception. */
  function NeverRaising(f: string -> string): string -> Option<string> {
    x => Some(f(x))
  }

  /** Since `translate_text` never raises, the translation conditions above
      always hold in the program: exporting with translations fails for
      every article whose content opens with text before its first
      heading. */
  lemma {:induction false} LeadTextAlwaysBreaksExport(title: string, a: Article.Article, lang: string, translateTo: string,
                                                      now: string, f: string -> string)
    requires |translateTo| > 0
    requires var secs := Sections.SplitContentIntoSections(a.content);
      !Article.HasTitle(secs[0]) && !IsBlank(secs[0].content)
    ensures ExportArticle(title, Some(a), lang, true, translateTo, now, NeverRaising(f)) == Failed
  {
    LeadTextBreaksExport(title, a, lang, translateTo, now, NeverRaising(f));
  }

  /** The corrected export hands python-docx only heading levels 0 to 9:
      the front matter uses 0 to 2, and the splitter's levels, at most 6,
      stay below the cap of the section loop. */
  lemma {:induction false} FixedExportLevelsInRange(title: string, a: Article.Article, lang: string,
                                                    includeTranslations: bool, translateTo: string, now: string,
                                                    tr: string -> Option<string>)
    ensures var r := ExportArticleFixed(title, Some(a), lang, includeTranslations, translateTo, now, tr);
      r.Download? && LevelsWithin(r.blocks, 0, Documents.DeepestLevel)
  {
    var secs := Sections.SplitContentIntoSections(a.content);
    var translating := Translating(includeTranslations, translateTo);
    var ts := Gather(a.summary, secs, translating, tr);
    var front := Front(a, lang, translateTo, translating, now, ts);
    var body := SectionsFixed(secs, 0, ts.sections, TranslationLabel(translateTo));
    FrontLevels(a, lang, translateTo, translating, now, ts);
    SplitterLevelsBelowCap(a.content);
    LevelsWithinWiden(body, 1, 0, Documents.DeepestLevel);
    LevelsWithinAppend(front, body, 0, Documents.DeepestLevel);
  }

  lemma {:induction false} FrontLevels(a: Article.Article, lang: string, translateTo: string, translating: bool,
                                       now: string, ts: Translations)
    ensures LevelsWithin(Front(a, lang, translateTo, translating, now, ts), 0, 2)
    ensures LevelsWithin(Front(a, lang, translateTo, translating, now, ts), 0, Documents.DeepestLevel)
  {
  }

  lemma {:induction false} SplitterLevelsBelowCap(content: string)
    ensures var secs := Sections.SplitContentIntoSections(content);
      forall m :: 0 <= m < |secs| ==> secs[m].level + 2 <= Documents.DeepestLevel
  {
  }

  lemma {:induction false} LevelsWithinWiden(bs: seq<Block>, lo: nat, lo2: nat, hi: nat)
    requires LevelsWithin(bs, lo, hi) && lo2 <= lo
    ensures LevelsWithin(bs, lo2, hi)
  {
  }

  /** Where the export as written succeeds on an article whose later
      sections all carry a non-empty title, the corrected one produces the
      same document. */
  lemma {:induction false} FixedAgreesWhereAsWrittenSucceeds(title: string, a: Article.Article, lang: string,
                                          includeTranslations: bool, translateTo: string, now: string,
                                          tr: string -> Option<string>)
    requires var secs := Sections.SplitContentIntoSections(a.content);
      forall m :: 0 < m < |secs| ==> Article.HasTitle(secs[m])
    requires !ExportArticle(title, Some(a), lang, includeTranslations, translateTo, now, tr).Failed?
    ensures ExportArticle(title, Some(a), lang, includeTranslations, translateTo, now, tr) ==
            ExportArticleFixed(title, Some(a), lang, includeTranslations, translateTo, now, tr)
  {
    var secs := Sections.SplitContentIntoSections(a.content);
    var ts := Gather(a.summary, secs, Translating(includeTranslations, translateTo), tr);
    LeadDecidesAsWritten(secs, ts.sections, TranslationLabel(translateTo));
  }
}
