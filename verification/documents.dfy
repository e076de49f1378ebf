/** `create_document_from_article` of document_generator.py: the outline
    of headings and paragraphs the Word document receives, the safe file
    name, and the heading-level clamp. Fonts, alignment and italics are
    rendering and are not part of the outline. */
module Documents {
  import opened Text
  import Sections
  import Article

  type Section = Sections.Section

  /** One element added to the document, in order. */
  datatype Block = Heading(text: string, level: nat) | Paragraph(text: string)

  /** Word's deepest heading level. */
  const DeepestLevel: nat := 9

  // ---------------------------------------------------------------------
  // File name

  /** A title character the file name keeps: alphanumeric (as `isAlnum`
      decides), space, `-` or `_`. */
  predicate Kept(c: char, isAlnum: char -> bool) {
    isAlnum(c) || c == ' ' || c == '-' || c == '_'
  }

  /** `safe_title`: every character that is not kept becomes `_`. */
  function SafeTitle(title: string, isAlnum: char -> bool): (r: string)
    ensures |r| == |title|
    ensures forall k :: 0 <= k < |r| ==> Kept(r[k], isAlnum)
    ensures forall k :: 0 <= k < |r| ==> Kept(title[k], isAlnum) ==> r[k] == title[k]
    ensures forall k :: 0 <= k < |r| ==> !Kept(title[k], isAlnum) ==> r[k] == '_'
  {
    seq(|title|, k requires 0 <= k < |title| => if Kept(title[k], isAlnum) then title[k] else '_')
  }

  /** A title is its own safe title exactly when every character is kept;
      hence the mapping is idempotent. */
  lemma {:induction false} SafeTitleFixpoint(title: string, isAlnum: char -> bool)
    ensures SafeTitle(title, isAlnum) == title <==> forall k :: 0 <= k < |title| ==> Kept(title[k], isAlnum)
    ensures SafeTitle(SafeTitle(title, isAlnum), isAlnum) == SafeTitle(title, isAlnum)
  {
    var s := SafeTitle(title, isAlnum);
    if forall k :: 0 <= k < |title| ==> Kept(title[k], isAlnum) {
      assert s == title;
    }
  }

  /** A safe title holds no path separator unless `isAlnum` claims one. */
  lemma {:induction false} SafeTitleHasNoSeparator(title: string, isAlnum: char -> bool)
    requires !isAlnum('/') && !isAlnum('\\')
    ensures forall k :: 0 <= k < |title| ==> SafeTitle(title, isAlnum)[k] !in "/\\"
  {
  }

  /** `f"{safe_title}_{language}.docx"`. */
  function FileName(title: string, language: string, isAlnum: char -> bool): (r: string)
    ensures |r| == |title| + |language| + 6
    ensures r[..|title|] == SafeTitle(title, isAlnum)
    ensures r[|title|] == '_' && r[|title| + 1..|r| - 5] == language && r[|r| - 5..] == ".docx"
  {
    SafeTitle(title, isAlnum) + "_" + language + ".docx"
  }

  // ---------------------------------------------------------------------
  // Heading levels

  /** `min(section.get('level', 0) + 2, 9)`. */
  function HeadingLevel(level: nat): (r: nat)
    ensures 2 <= r <= DeepestLevel
    ensures r == level + 2 || (level + 2 > DeepestLevel && r == DeepestLevel)
  {
    if level + 2 < DeepestLevel then level + 2 else DeepestLevel
  }

  /** The clamp keeps the order of levels, and strictly so below the cap. */
  lemma {:induction false} HeadingLevelMonotone(a: nat, b: nat)
    requires a <= b
    ensures HeadingLevel(a) <= HeadingLevel(b)
    ensures b + 2 <= DeepestLevel && a < b ==> HeadingLevel(a) < HeadingLevel(b)
  {
  }

  /** The sections `split_content_into_sections` produces are never
      clamped: a titled section of level 2..6 becomes a heading of level
      4..8. */
  lemma {:induction false} SplitSectionsUnclamped(x: Section)
    requires Sections.TitledSection(x)
    ensures HeadingLevel(x.level) == x.level + 2 && 4 <= HeadingLevel(x.level) <= 8
  {
  }

  // ---------------------------------------------------------------------
  // Outline

  /** The texts of the paragraphs among `bs`, in order. */
  function ParagraphTexts(bs: seq<Block>): seq<string> {
    if |bs| == 0 then []
    else (if bs[0].Paragraph? then [bs[0].text] else []) + ParagraphTexts(bs[1..])
  }

  /** The texts of the headings among `bs`, in order. */
  function HeadingTexts(bs: seq<Block>): seq<string> {
    if |bs| == 0 then []
    else (if bs[0].Heading? then [bs[0].text] else []) + HeadingTexts(bs[1..])
  }

  lemma {:induction false} ParagraphTextsAppend(a: seq<Block>, b: seq<Block>)
    ensures ParagraphTexts(a + b) == ParagraphTexts(a) + ParagraphTexts(b)
  {
    if |a| > 0 {
      assert (a + b)[1..] == a[1..] + b;
      ParagraphTextsAppend(a[1..], b);
    } else {
      assert a + b == b;
    }
  }

  lemma {:induction false} HeadingTextsAppend(a: seq<Block>, b: seq<Block>)
    ensures HeadingTexts(a + b) == HeadingTexts(a) + HeadingTexts(b)
  {
    if |a| > 0 {
      assert (a + b)[1..] == a[1..] + b;
      HeadingTextsAppend(a[1..], b);
    } else {
      assert a + b == b;
    }
  }

  /** The contents of `secs`, in order. */
  function Contents(secs: seq<Section>): (r: seq<string>)
    ensures |r| == |secs|
  {
    if |secs| == 0 then [] else [secs[0].content] + Contents(secs[1..])
  }

  /** The truthy titles of `secs`, in order. */
  function Titles(secs: seq<Section>): seq<string> {
    if |secs| == 0 then []
    else (if Article.HasTitle(secs[0]) then [secs[0].title.value] else []) + Titles(secs[1..])
  }

  /** The blocks of one section: its heading when the title is truthy, then
      its content. */
  function SectionBlock(x: Section): seq<Block> {
    (if Article.HasTitle(x) then [Heading(x.title.value, HeadingLevel(x.level))] else [])
      + [Paragraph(x.content)]
  }

  /** The loop over `article['sections']`. */
  function SectionBlocks(secs: seq<Section>): (r: seq<Block>)
    ensures ParagraphTexts(r) == Contents(secs)
    ensures HeadingTexts(r) == Titles(secs)
    ensures forall k :: 0 <= k < |r| && r[k].Heading? ==> 2 <= r[k].level <= DeepestLevel
    ensures forall k :: 0 <= k < |r| && r[k].Heading? ==> k + 1 < |r| && r[k + 1].Paragraph?
    ensures |secs| > 0 ==> |r| > 0 && r[|r| - 1].Paragraph?
  {
    if |secs| == 0 then []
    else
      var head := SectionBlock(secs[0]);
      var rest := SectionBlocks(secs[1..]);
      ParagraphTextsAppend(head, rest);
      HeadingTextsAppend(head, rest);
      assert ParagraphTexts(head) == [secs[0].content] by {
        assert ParagraphTexts([Paragraph(secs[0].content)]) == [secs[0].content];
        ParagraphTextsAppend(head[..|head| - 1], [Paragraph(secs[0].content)]);
        assert head == head[..|head| - 1] + [Paragraph(secs[0].content)];
      }
      assert HeadingTexts(head) == (if Article.HasTitle(secs[0]) then [secs[0].title.value] else []) by {
        HeadingTextsAppend(head[..|head| - 1], [Paragraph(secs[0].content)]);
        assert head == head[..|head| - 1] + [Paragraph(secs[0].content)];
      }
      head + rest
  }

  /** A section as a reader of the document sees it: the heading above its
      paragraph (text and level), if there is one, and the paragraph. */
  datatype Shown = Shown(heading: Option<(string, nat)>, content: string)

  /** Reads blocks back as sections: a heading with the paragraph right
      after it, or a paragraph on its own; `None` for a heading that is
      not followed by a paragraph. */
  function Regroup(bs: seq<Block>): Option<seq<Shown>>
    decreases |bs|
  {
    if |bs| == 0 then Some([])
    else if bs[0].Paragraph? then
      match Regroup(bs[1..])
      case Some(rest) => Some([Shown(None, bs[0].text)] + rest)
      case None => None
    else if |bs| >= 2 && bs[1].Paragraph? then
      match Regroup(bs[2..])
      case Some(rest) => Some([Shown(Some((bs[0].text, bs[0].level)), bs[1].text)] + rest)
      case None => None
    else None
  }

  /** What each section should look like in the document: a heading at
      `HeadingLevel` when its title is truthy, then its content. */
  function ShownSections(secs: seq<Section>): (r: seq<Shown>)
    ensures |r| == |secs|
  {
    seq(|secs|, k requires 0 <= k < |secs| =>
      Shown(if Article.HasTitle(secs[k]) then Some((secs[k].title.value, HeadingLevel(secs[k].level))) else None,
            secs[k].content))
  }

  /** One section's blocks read back as that section, whatever follows. */
  lemma {:induction false} RegroupSectionBlock(x: Section, rest: seq<Block>)
    requires Regroup(rest).Some?
    ensures Regroup(SectionBlock(x) + rest).Some?
    ensures Regroup(SectionBlock(x) + rest).value == ShownSections([x]) + Regroup(rest).value
  {
    var bs := SectionBlock(x) + rest;
    if Article.HasTitle(x) {
      assert bs[0] == Heading(x.title.value, HeadingLevel(x.level)) && bs[1] == Paragraph(x.content);
      assert bs[2..] == rest;
    } else {
      assert bs[0] == Paragraph(x.content);
      assert bs[1..] == rest;
    }
  }

  /** The document shows the sections in order, each with its own heading
      at its own clamped level, directly above its own content. */
  lemma {:induction false} SectionBlocksShowSections(secs: seq<Section>)
    ensures Regroup(SectionBlocks(secs)) == Some(ShownSections(secs))
    decreases |secs|
  {
    if |secs| > 0 {
      SectionBlocksShowSections(secs[1..]);
      RegroupSectionBlock(secs[0], SectionBlocks(secs[1..]));
      assert ShownSections(secs) == ShownSections([secs[0]]) + ShownSections(secs[1..]);
    }
  }

  /** The blocks up to and including the `Full Content` heading. */
  function Front(a: Article.Article, language: string): seq<Block> {
    [Heading(a.title, 0),
     Paragraph("Source: Wikipedia (" + language + ")"),
     Paragraph(a.url),
     Paragraph(Underline),
     Heading("Summary", 1),
     Paragraph(a.summary),
     Heading("Full Content", 1)]
  }

  /** `'_' * 50`. */
  const Underline: string := "__________________________________________________"

  /** The document's core properties, its outline, and the file it is
      saved to. */
  datatype Document = Document(title: string, subject: string, blocks: seq<Block>, fileName: string)

  /** `create_document_from_article(article, language)`; `None` stands for
      a falsy article and for a save that raised (`saveOk` false). */
  function CreateDocument(article: Option<Article.Article>, language: string,
                          isAlnum: char -> bool, saveOk: bool): (r: Option<Document>)
    ensures r.Some? <==> article.Some? && saveOk
    ensures r.Some? ==> r.value.title == article.value.title
    ensures r.Some? ==> r.value.fileName == FileName(article.value.title, language, isAlnum)
  {
    if article.None? || !saveOk then None
    else
      var a := article.value;
      var body := if |a.sections| > 0 then SectionBlocks(a.sections) else [Paragraph(a.content)];
      Some(Document(a.title, "Wikipedia article in " + language, Front(a, language) + body,
                    FileName(a.title, language, isAlnum)))
  }

  /** After the fixed front matter, the document holds one heading per
      truthy section title and one paragraph per section content; with no
      sections it holds the article's content instead. */
  lemma {:induction false} OutlineOfArticle(a: Article.Article, language: string, isAlnum: char -> bool)
    ensures var d := CreateDocument(Some(a), language, isAlnum, true).value;
      && d.blocks[..|Front(a, language)|] == Front(a, language)
      && var body := d.blocks[|Front(a, language)|..];
      && (|a.sections| > 0 ==> ParagraphTexts(body) == Contents(a.sections) && HeadingTexts(body) == Titles(a.sections))
      && (|a.sections| > 0 ==> Regroup(body) == Some(ShownSections(a.sections)))
      && (|a.sections| == 0 ==> body == [Paragraph(a.content)])
  {
    var d := CreateDocument(Some(a), language, isAlnum, true).value;
    var body := if |a.sections| > 0 then SectionBlocks(a.sections) else [Paragraph(a.content)];
    assert d.blocks == Front(a, language) + body;
    assert d.blocks[|Front(a, language)|..] == body;
    if |a.sections| > 0 {
      SectionBlocksShowSections(a.sections);
    }
  }

  /** Only truthy titles become headings: a section list without one adds
      no heading after the front matter. */
  lemma {:induction false} UntitledSectionsAddNoHeading(secs: seq<Section>)
    requires forall k :: 0 <= k < |secs| ==> !Article.HasTitle(secs[k])
    ensures HeadingTexts(SectionBlocks(secs)) == []
  {
    if |secs| > 0 {
      UntitledSectionsAddNoHeading(secs[1..]);
    }
  }
}
