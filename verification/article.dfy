/** `translate_article_content` of wiki_article.py: an article translated
    field by field with an abstract translator that may raise. */
module Article {
  import opened Text
  import Sections

  type Section = Sections.Section

  /** The article dictionary: the fields the bot reads and writes. */
  datatype Article = Article(
    title: string,
    summary: string,
    content: string,
    url: string,
    languages: seq<string>,
    sections: seq<Section>)

  /** `section.get('title')` is truthy. */
  predicate HasTitle(s: Section) {
    s.title.Some? && |s.title.value| > 0
  }

  /** One section: the content always, the title only when truthy; `None`
      when a call raised. */
  function TranslateSection(s: Section, tr: string -> Option<string>): (r: Option<Section>)
    ensures r.Some? ==> r.value.level == s.level
    ensures r.Some? && !HasTitle(s) ==> r.value.title == s.title
    ensures r.Some? && HasTitle(s) ==> r.value.title == tr(s.title.value)
    ensures r.Some? ==> Some(r.value.content) == tr(s.content)
    ensures r.None? <==> tr(s.content).None? || (HasTitle(s) && tr(s.title.value).None?)
  {
    var title := if HasTitle(s) then tr(s.title.value) else Some(s.title.GetOr([]));
    var content := tr(s.content);
    if title.None? || content.None? then None
    else Some(s.(title := if HasTitle(s) then Some(title.value) else s.title, content := content.value))
  }

  /** The loop over `article['sections']`; `None` as soon as a call raised. */
  function TranslateSections(secs: seq<Section>, tr: string -> Option<string>): (r: Option<seq<Section>>)
    ensures r.Some? ==> |r.value| == |secs|
    ensures r.Some? ==> forall k :: 0 <= k < |secs| ==> TranslateSection(secs[k], tr) == Some(r.value[k])
    ensures r.None? <==> exists k :: 0 <= k < |secs| && TranslateSection(secs[k], tr).None?
  {
    if |secs| == 0 then Some([])
    else
      match (TranslateSection(secs[0], tr), TranslateSections(secs[1..], tr))
      case (Some(x), Some(rest)) =>
        assert forall k :: 1 <= k < |secs| ==> secs[k] == secs[1..][k - 1];
        Some([x] + rest)
      case (None, _) => None
      case (_, None) =>
        var k :| 0 <= k < |secs[1..]| && TranslateSection(secs[1..][k], tr).None?;
        assert secs[k + 1] == secs[1..][k];
        None
  }

  /** `translate_article_content(article, from_lang, to_lang)`; `None`
      stands for a falsy article and `tr` for `translate_text` with the
      language pair, yielding `None` when it raises. */
  function TranslateArticle(article: Option<Article>, fromLang: string, toLang: string,
                            tr: string -> Option<string>): (r: Option<Article>)
    ensures article.None? ==> r.None?
    ensures fromLang == toLang ==> r == article
    ensures article.Some? ==> r.Some?
  {
    if article.None? || fromLang == toLang then article
    else
      var a := article.value;
      match (tr(a.title), tr(a.summary), TranslateSections(a.sections, tr))
      case (Some(t), Some(s), Some(secs)) =>
        Some(a.(title := t, summary := s, sections := if |a.sections| > 0 then secs else a.sections))
      case _ => article
  }

  /** A translation that went through replaces the title and summary with
      the translator's outputs, keeps the sections' count, order and levels,
      translates only truthy titles and every content, and copies every
      other field. */
  lemma {:induction false} TranslatedArticleShape(a: Article, fromLang: string, toLang: string, tr: string -> Option<string>)
    requires fromLang != toLang
    requires tr(a.title).Some? && tr(a.summary).Some? && TranslateSections(a.sections, tr).Some?
    ensures var r := TranslateArticle(Some(a), fromLang, toLang, tr).value;
      && r.title == tr(a.title).value
      && r.summary == tr(a.summary).value
      && r.content == a.content && r.url == a.url && r.languages == a.languages
      && |r.sections| == |a.sections|
      && forall k :: 0 <= k < |a.sections| ==>
           && r.sections[k].level == a.sections[k].level
           && Some(r.sections[k].content) == tr(a.sections[k].content)
           && r.sections[k].title == (if HasTitle(a.sections[k]) then tr(a.sections[k].title.value)
                                      else a.sections[k].title)
  {
    var secs := TranslateSections(a.sections, tr).value;
    forall k | 0 <= k < |a.sections|
      ensures TranslateSection(a.sections[k], tr) == Some(secs[k])
    {
    }
  }

  /** When any call raises, the original article comes back. */
  lemma {:induction false} RaisingTranslatorKeepsArticle(a: Article, fromLang: string, toLang: string, tr: string -> Option<string>)
    requires tr(a.title).None? || tr(a.summary).None?
             || exists k :: 0 <= k < |a.sections| && TranslateSection(a.sections[k], tr).None?
    ensures TranslateArticle(Some(a), fromLang, toLang, tr) == Some(a)
  {
  }

  /** A translator that returns its input leaves the article as it was. */
  lemma {:induction false} IdentityTranslatorKeepsArticle(a: Article, fromLang: string, toLang: string, tr: string -> Option<string>)
    requires forall x :: tr(x) == Some(x)
    ensures TranslateArticle(Some(a), fromLang, toLang, tr) == Some(a)
  {
    if fromLang != toLang {
      forall k | 0 <= k < |a.sections|
        ensures TranslateSection(a.sections[k], tr) == Some(a.sections[k])
      {
        var x := a.sections[k];
        assert tr(x.content) == Some(x.content);
        assert HasTitle(x) ==> tr(x.title.value) == Some(x.title.value);
      }
      var secs := TranslateSections(a.sections, tr).value;
      assert secs == a.sections;
    }
  }
}
