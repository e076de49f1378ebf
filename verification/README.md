# WikiTruthBot text core in Dafny

WikiTruthBot is a Telegram bot with a small Flask companion site. It
fetches Wikipedia articles, translates them chunk by chunk, shows them
section by section, and exports them as Word documents. The bot and the
site share a core of text processing, and that core is modelled here as
pure Dafny functions over `seq<char>`:

- the sentence chunker that cuts long texts for the translator;
- the translation pipeline, where `translate_text` fans chunks out to a
  thread pool and joins the results back in index order;
- the section splitter driven by the heading pattern `^(={2,6})\s*(.*?)\s*\1`;
- the Telegram message splitter, which cuts long content at paragraph
  breaks, newlines or sentence ends;
- the small pure helpers:
  - truncation, language names, two-per-row keyboards and translation
    targets;
  - section navigation and structure-preserving article translation;
  - the outline and file name of the generated Word document;
  - the highlight store of the web site and the outline and download name
    of its export.

Files, one module each:

| file | module | models |
|---|---|---|
| text.dfy | `Text` | Python's whitespace set, `strip()`, `split()`, `join`, `find`, `rfind`, an `Option` type |
| chunker.dfy | `Chunker` | `split_text_into_chunks` and its regex sentence split |
| translation.dfy | `Translation` | `basic_translate`, `translate_chunk`, `translate_text` |
| sections.dfy | `Sections` | `split_content_into_sections`, with an explicit matcher for the heading pattern and `finditer` |
| messages.dfy | `Messages` | the Telegram content splitter and message truncation |
| bot.dfy | `Bot` | language names, keyboards, translation targets, section navigation |
| article.dfy | `Article` | `translate_article_content` |
| documents.dfy | `Documents` | `create_document_from_article` |
| highlights.dfy | `Highlights` | `load_highlights` and `save_highlight` |
| export.dfy | `Export` | `export_article` |

Things the source gets from outside become parameters:

- The translator is `tr: string -> Option<string>`. `None` means the call
  raised.
- The HTTP reply of the translation endpoint is `fetch: string -> Response`.
- The completion order of the thread pool is any permutation of the chunk
  indices, and the set of futures that raised is a parameter.
- `str.isalnum` is a parameter `isAlnum: char -> bool`.
- The clock is a `now` string and a `timestamp` integer.
- Whether a document or the highlight file could be built and saved without
  raising is a `saveOk` flag.
- The highlight file as `load_highlights` finds it is `Option<Store>`:
  `None` when it could not be read or parsed.

## Model

| member | source | states |
|---|---|---|
| Chunker.SentencesAreMaximal | wiki_utils.py:221-222 | every sentence piece but the last ends in `.`, `!` or `?`, and no piece contains a break of the pattern `(?<=[.!?])\s+` |
| Chunker.SplitSentencesKeepsWords | wiki_utils.py:221-222 | the sentence pieces hold exactly the words of the text, in order: the split only removes whitespace |
| Chunker.Step | wiki_utils.py:227-247 | one sentence step keeps every chunk already emitted and emits only stripped chunks; the pending text stays empty or ends in a space |
| Chunker.StepKeepsWords | wiki_utils.py:227-247 | one step keeps the multiset of words seen so far plus the sentence's words, and keeps their order when the sentence fits |
| Chunker.SplitTextIntoChunks | wiki_utils.py:205-253 | every chunk is whitespace-stripped |
| Chunker.ChunksKeepWords | wiki_utils.py:227-251 | the multiset of words across all chunks equals the multiset of words of the text, oversized sentences included |
| Chunker.ChunksInOrderWhenNoLongSentence | wiki_utils.py:227-251 | when no sentence exceeds the chunk size, the chunks hold the text's words in their original order |
| Chunker.ChunksFitWhenNoLongSentence | wiki_utils.py:241-251 | when no sentence exceeds the chunk size, no chunk does |
| Chunker.NoChunksIffBlank | wiki_utils.py:217-251 | the text yields no chunk exactly when it is empty or whitespace only |
| Chunker.LongWordEmitsEmptyChunk | wiki_utils.py:229-240 | a text that is one word longer than the chunk size yields an empty chunk followed by the word |
| Chunker.OversizedSentenceReordersWords | wiki_utils.py:229-247 | on `"ab. cde fgh."` with size 5, the sub-chunk `"cde"` comes out ahead of the pending `"ab."` |
| Translation.BasicTranslate | wiki_utils.py:10-33 | blank text comes back unchanged; otherwise the result is the input or the joined sentence heads of a well-shaped 200 reply, and it is the latter whenever the reply has that shape |
| Translation.TranslateChunk | wiki_utils.py:255-275 | a blank chunk gives `""`; otherwise the translator's output, or the chunk itself when the translator raised |
| Translation.ChunkOverBasicTranslate | wiki_utils.py:267-275 | with the HTTP translator, which never raises, a non-blank chunk is translated exactly as the basic translator translates it |
| Translation.FailingEndpointKeepsText | wiki_utils.py:20-29 | when no reply of the endpoint is well shaped, the basic translator gives back its input |
| Translation.CompletionOrderCovers | wiki_utils.py:316-325 | a completion order holds only chunk indices and holds every one of them |
| Translation.Collect | wiki_utils.py:323-337 | after the completion loop, the result map has a key for exactly the completed indices, each holding its future's string or its chunk when the future raised |
| Translation.FanInIgnoresOrder | wiki_utils.py:316-341 | for every completion order, the output is the per-index results joined by single spaces in index order |
| Translation.FanInSameForAnyOrder | wiki_utils.py:316-341 | two completion orders give the same text |
| Translation.FanInPieces | wiki_utils.py:334-340 | a chunk whose future raised or never completed contributes its own text; every other chunk contributes its own result, whatever its siblings did |
| Translation.RaisedIsLikeUntranslated | wiki_utils.py:334-337 | a raising future gives the same output as one that returned its chunk untranslated |
| Translation.TranslateText | wiki_utils.py:280-347 | empty text gives `""` with no call; text under 200 characters is sent whole exactly once; longer text is chunked and joined in index order |
| Translation.TranslateTextIgnoresOrder | wiki_utils.py:306-343 | the thread pool's completion order does not change the translation |
| Translation.PiecesAreChunksOrTranslations | wiki_utils.py:255-275 | each piece of a long translation is its chunk untranslated or the translator's output for exactly that chunk |
| Sections.MatchAt | wiki_utils.py:361 | a match found at a position starts a line, opens with 2 to 6 `=`, and has a title without a newline |
| Sections.BalancedLineMatches | wiki_utils.py:360-361 | every line `={n} T ={n}` with n in 2..6 and a plain title T (non-empty, no `=`, no newline, no whitespace at either end) starting a line is matched at level n with title T, the match ending after the closing run |
| Sections.FindHeadings | wiki_utils.py:365-369 | the headings found are valid matches, and each starts at or after the end of the previous one |
| Sections.FindHeadingsIsFinditer | wiki_utils.py:365-369 | the headings are exactly what `finditer` yields: each is the match at its position, and no match starts before, between or after them |
| Sections.HeadingsAscending | wiki_utils.py:372 | the heading positions strictly increase, so the sort changes nothing |
| Sections.HeadingEnd | wiki_utils.py:398-401 | the body of a section starts at the first newline at or after its heading, or at the end of the text |
| Sections.SplitContentIntoSections | wiki_utils.py:349-420 | the result is never empty; its first section is an untitled level-0 lead or a titled one, and every other section is titled with level 2 to 6; all contents are stripped |
| Sections.NoHeadingsOneSection | wiki_utils.py:412-418 | with no heading, the result is the single section `(None, content.strip(), 0)` |
| Sections.LeadSectionIffLeadText | wiki_utils.py:377-386 | with headings, the untitled lead section is present exactly when the text before the first heading is not blank, and it holds that text stripped |
| Sections.SectionsFollowHeadings | wiki_utils.py:388-410 | after the lead, section `i` has heading `i`'s title and raw `=` count, and the stripped text from its heading line's newline to the next heading |
| Sections.NoSectionsIffNoHeadings | wiki_utils.py:412-418 | the list is empty before the fallback exactly when no heading was found |
| Sections.SectionsKeepWords | wiki_utils.py:349-420 | no word of the text is lost: the lead, the heading lines and the section contents together hold all the text's words, in order |
| Sections.TrailingTextIgnored | wiki_utils.py:361 | the pattern is not anchored at the line end: `"== A == x"` matches as heading `A` |
| Sections.EmptyTitleMatches | wiki_utils.py:361 | `"== =="` matches as a level-2 heading with the empty title, which is falsy for the export's title test |
| Sections.UnbalancedRunsBackOff | wiki_utils.py:361 | `"=== a =="` matches at level 2 with title `"= a"`, the opening run giving back one `=` |
| Messages.RFindIsLast | handlers.py:422-426 | `rfind` gives the last occurrence, and -1 exactly when there is none |
| Messages.BreakPoint | handlers.py:421-428 | the cut point is the last `\n\n` in the first 3000 characters, else the last `\n`, else the last `. `, else 3000 |
| Messages.MessageChunks | handlers.py:413-431 | the chunks concatenate to the content, there is none exactly when the content is empty, and each is non-empty and at most 3000 long or a 3001-character hard cut |
| Messages.SplitMessage | handlers.py:413-431 | the loop (same text at handlers.py:1095-1113 and bot_new.py:1281-1300) terminates and emits the chunks, which concatenate back to the content |
| Messages.HardCutChunk | handlers.py:427-430 | when the window holds no newline and no `. `, the first chunk has exactly 3001 characters |
| Messages.ParagraphBreakSplitsNewlines | handlers.py:422-431 | cutting at a paragraph break leaves one newline at the end of a chunk and the other at the start of the next |
| Messages.Truncate | handlers.py:358-360 | a text over the limit becomes its first limit-3 characters plus `...`, exactly limit long; a shorter one is unchanged |
| Messages.TruncateIdempotent | bot_new.py:447-449 | truncating twice is truncating once |
| Bot.DisplayName | bot_new.py:98-100 | a known code gives its name; an unknown one gives the code upper-cased |
| Bot.LanguageName | wiki_article.py:23-25 | a known code gives its name; an unknown one gives the code itself |
| Bot.NameLookupsAgree | bot_new.py:98-100 | the two lookups agree on known codes and differ only in case on unknown ones |
| Bot.PopularNamesAgree | bot_new.py:45-70 | every popular language carries the name the name table gives it |
| Bot.Pairs | bot_new.py:234-247 | rows hold one or two items, only the last may hold one, and flattening them gives the items in order |
| Bot.KeyboardRows | bot_new.py:234-247 | the keyboard loop builds exactly the two-per-row layout |
| Bot.LanguageButtonRoundTrip | bot_new.py:238-241 | the text after the first `:` of a button's callback data is the language code it was made for |
| Bot.RemoveFirst | bot_new.py:746-748 | `list.remove` drops exactly one occurrence |
| Bot.RemoveFirstIsWithout | bot_new.py:746-748 | on a list without repeats, removing the first occurrence removes every occurrence |
| Bot.TranslationTargets | bot_new.py:741-748 | the reader's language is never offered, and 10 or 11 targets remain |
| Bot.TargetsAreOthersInOrder | bot_new.py:741-748 | the targets are the fixed list minus the reader's language, the others kept in order |
| Bot.TargetsHaveNames | bot_new.py:750-758 | every target is a known language |
| Bot.Navigate | bot_new.py:384-408 | an empty list or an index out of range falls back; otherwise Previous exists exactly when index > 0 and targets index-1, and Next exists exactly when index < count-1 and targets index+1 |
| Bot.NavigationRoundTrip | bot_new.py:396-408 | following Next and then Previous returns to the starting section, and the other way round |
| Bot.NavigationRowShown | bot_new.py:396-410 | the navigation row appears exactly when there are at least two sections |
| Article.TranslateSection | wiki_article.py:133-137 | a section keeps its level, its content is translated, and only a truthy title is translated; the result is missing exactly when a call raised |
| Article.TranslateSections | wiki_article.py:130-139 | the section loop keeps count and order, and fails exactly when some section's call raised |
| Article.TranslateArticle | wiki_article.py:104-144 | a falsy article, or equal languages, gives the article back; a truthy article always gives an article |
| Article.TranslatedArticleShape | wiki_article.py:119-141 | title and summary become the translator's outputs; sections keep count, order and level; every other field is copied |
| Article.RaisingTranslatorKeepsArticle | wiki_article.py:142-144 | when any call raises, the original article comes back |
| Article.IdentityTranslatorKeepsArticle | wiki_article.py:104-144 | a translator that returns its input leaves the article as it was |
| Documents.SafeTitle | document_generator.py:74 | the safe title has the title's length, keeps alphanumerics, space, `-` and `_`, and turns every other character into `_` |
| Documents.SafeTitleFixpoint | document_generator.py:74 | a title is its own safe title exactly when every character is kept, so the mapping is idempotent |
| Documents.SafeTitleHasNoSeparator | document_generator.py:74 | a safe title holds no `/` or `\` |
| Documents.FileName | document_generator.py:75 | the file name is the safe title, `_`, the language, then `.docx` |
| Documents.HeadingLevel | document_generator.py:64 | the heading level is the section level plus 2, capped at 9 |
| Documents.HeadingLevelMonotone | document_generator.py:64 | the clamp keeps the order of levels, strictly so below the cap |
| Documents.SplitSectionsUnclamped | document_generator.py:62-65 | sections from the section splitter become headings of level 4 to 8, never clamped |
| Documents.SectionBlocks | document_generator.py:59-68 | one paragraph per section content and one heading per truthy title, in order; each heading is followed by a paragraph and the last block is a paragraph |
| Documents.SectionBlocksShowSections | document_generator.py:59-71 | read back section by section, the blocks are each section's own heading, at the section level plus 2 capped at 9 and present exactly when its title is truthy, directly above its own content |
| Documents.CreateDocument | document_generator.py:11-85 | there is a document exactly when the article is truthy and nothing in the `try` block, building or saving, raised; its title and file name follow the article |
| Documents.OutlineOfArticle | document_generator.py:33-71 | after the fixed front matter come the sections, each read back as its own heading directly above its own content, or the article content alone when there are no sections |
| Documents.UntitledSectionsAddNoHeading | document_generator.py:60-65 | sections without a truthy title add no heading |
| Highlights.ParseArticleId | attached_assets/app.py:185-190 | with no `_`, the id is the title and the language is `en`; otherwise title, `_` and language rebuild the id, and the language holds no `_` |
| Highlights.ArticleIdRoundTrip | attached_assets/app.py:211-216 | an id built as title, `_`, language parses back to both parts when the language holds no `_` |
| Highlights.Retrieve | attached_assets/app.py:192-197 | the stored list for the title and language, or `[]` when either is missing |
| Highlights.Upsert | attached_assets/app.py:218-233 | missing title and language entries are created; exactly one highlight is appended to that list; an existing language name is kept |
| Highlights.UpsertKeepsOthers | attached_assets/app.py:218-233 | every other title, and every other language of the same title, keeps its entry |
| Highlights.RetrieveAfterUpsert | attached_assets/app.py:218-233 | after an upsert, the new highlight shows up under its own key and under no other |
| Highlights.SaveHighlight | attached_assets/app.py:172-244 | a retrieve-only request answers without changing the store; a missing id or text is an error that leaves the store unchanged; a saved request stores the upsert of the new highlight into the loaded store and answers with the old list plus it; a failed save answers `Error saving highlight` and leaves the loaded store value unchanged |
| Highlights.SaveKeepsOtherLists | attached_assets/app.py:218-237 | a saved request leaves the list of every other title and language of the loaded store as it was |
| Highlights.UnreadableFileKeepsOnlyNewHighlight | attached_assets/app.py:56-63 | a file that could not be read or parsed loads as `{}`, so a saved request writes a store holding only the new highlight, and every other list is lost |
| Highlights.SavedHighlightIsRetrieved | attached_assets/app.py:228-239 | a saved highlight is answered with the full list it now ends, and a later retrieve-only request sees that list |
| Export.SectionTranslations | attached_assets/app.py:278-290 | entries keep their section's title; empty content stays `''` without a call; the list stops exactly at the first call that raised |
| Export.SectionTranslationsComplete | attached_assets/app.py:278-290 | the list has one entry per section exactly when no call raised |
| Export.Gather | attached_assets/app.py:271-294 | without translation nothing is gathered; the summary is present exactly when its call went through, and the section list with it |
| Export.ExportLevel | attached_assets/app.py:327 | the export heading level is the section level plus 1, capped at 9 |
| Export.ExportLevelAboveDocumentLevel | attached_assets/app.py:327 | below the cap the web export puts a section one level higher than the bot's document |
| Export.SectionsAsWritten | attached_assets/app.py:325-346 | the section loop as written fails only when no level was assigned yet and the translation list exists |
| Export.AsWrittenRaisesIff | attached_assets/app.py:325-346 | the loop raises exactly when a section with a translation comes before every titled section |
| Export.FixedBlocks | attached_assets/app.py:325-346 | one section's blocks in the corrected loop have heading levels in 1..10, within 1..9 below the cap, and are its own blocks when nothing was translated |
| Export.SectionsFixed | attached_assets/app.py:325-346 | the corrected loop keeps heading levels in 1..10, within Word's 1..9 when every section level is at most 7, and without translations its paragraphs are the section contents |
| Export.AsWrittenMatchesFixed | attached_assets/app.py:325-346 | where every section is titled, the loop as written agrees with the corrected one |
| Export.LeadDecidesAsWritten | attached_assets/app.py:325-346 | on an optional lead plus titled sections, the loop raises exactly when the lead has a translation, and otherwise agrees with the corrected one |
| Export.StaleLevelDiverges | attached_assets/app.py:325-346 | after a titled section, an untitled section with a translation gets its translation heading at the stale level, so the loop as written and the corrected loop differ whenever the two sections' export levels do |
| Export.UntitledLeadRaises | attached_assets/app.py:325-340 | a lead section with a translation makes the loop raise |
| Export.SafeFileName | attached_assets/app.py:354 | the download title has the title's length, no `/` or `\`, and changes only those characters |
| Export.SafeTitleAbsorbsSafeFileName | attached_assets/app.py:354 | applying the bot's stricter file-name mapping after the web one gives the same result as applying it alone |
| Export.DownloadName | attached_assets/app.py:356-360 | the name follows the with-translations or without-translations pattern |
| Export.DownloadNameIsArticleId | attached_assets/app.py:356-360 | without translations, the name less `.docx` parses as a highlight `article_id` of the download-safe title (`/` and `\` turned into `_`) and the same language |
| Export.ExportArticle | attached_assets/app.py:252-371 | a missing article redirects home; the modelled failure, the `level` read, happens only while translating; a download carries the download name |
| Export.ExportArticleFixed | attached_assets/app.py:252-371 | with the level assigned for every section, every found article downloads |
| Export.FixedExportLevelsInRange | attached_assets/app.py:296-350 | the corrected export hands python-docx only heading levels 0 to 9, since the splitter's levels stay below the cap |
| Export.LeadTextBreaksExport | attached_assets/app.py:252-371 | with translations, the export fails for every article whose content opens with text before its first heading, when the summary and that text translate |
| Export.LeadTextAlwaysBreaksExport | attached_assets/app.py:271-340 | with a translator that never raises, as `translate_text` never does, exporting with translations fails for every article whose content opens with text before its first heading |
| Export.HeadinglessArticleBreaksExport | attached_assets/app.py:252-371 | with translations, the export fails for every non-blank article without a heading, when the summary and the stripped content translate |
| Export.FixedAgreesWhereAsWrittenSucceeds | attached_assets/app.py:252-371 | where every section after the first has a non-empty title and the export as written succeeds, the corrected export produces the same document |

## Left out

- HTTP to MediaWiki and to the translation endpoint: `get_article_content` becomes an `article` parameter, and `requests.get(...).json()` becomes the `fetch` parameter.
- `ThreadPoolExecutor`, `as_completed`, `max_workers` and `translate_lock`: concurrency. They become a completion-order permutation plus a set of raised futures.
- `translate_text`'s outer `except` (wiki_utils.py:345-347) is never reached: `translate_chunk` and the loop catch every exception in the model, and the translator's failure is `None`.
- Telegram and Flask plumbing: handlers, `USER_DATA`, callback dispatch, `flash` messages, redirects and `send_file`. Only the values they send are modelled.
- python-docx: fonts, alignment, italics and the `BytesIO` stream. The document is modelled as its outline of headings and paragraphs.
- The `os.getcwd()` prefix of the saved path: file-system I/O. The model returns the file name.
- The JSON highlight file: reading and writing are I/O. `load_highlights` (attached_assets/app.py:56-63) swallows every read or parse error and returns `{}`, so after a failed load a saved request overwrites the file with the new highlight alone; `Highlights.UnreadableFileKeepsOnlyNewHighlight` states this loss. A store whose entries lack the `languages` or `highlights` keys, which the handlers at attached_assets/app.py:199-201 and 242-244 would catch, is not modelled: the store type is always well formed.
- Highlights.SaveHighlight: the store it returns is a value, not the file. `save_highlights` (attached_assets/app.py:66-74) opens the file with `'w'` before `json.dump`, so a dump that raises leaves the file truncated; on a failed save the model promises only that the loaded value is unchanged.
- `int(time.time())` and `datetime.now()`: clock reads, passed in as `timestamp` and `now`.
- `str.isalnum`: the Unicode tables are not modelled, so the predicate is a parameter.
- `section.get('level', 0)`: sections always carry a level in the model, as the splitter produces them.
- Export.ExportArticle: python-docx exceptions while building or saving the document (attached_assets/app.py:296-350), which the handler at 368-371 turns into an error redirect, are not modelled; the model fails only on the `level` read.
- Documents.CreateDocument: which python-docx call raised is not modelled; `saveOk` stands for the whole `try` block at document_generator.py:25-85.
- Bot.DisplayName: upper-cases ASCII letters only, not the full Unicode case mapping of `str.upper()`.
- Chunker.SplitTextIntoChunks: `chunk_size` is a parameter; the default 800 is `Chunker.ChunkSize`.
- Sharing links, `timestamp_to_date` and article search: library calls outside the core.

## Findings

| source | as written | input that shows it | evidently intended | confidence | as-written member | corrected member |
|---|---|---|---|---|---|---|
| attached_assets/app.py:325-346 | `level` is assigned only for sections with a truthy title, yet the translation heading reads it for every translated section. An untitled section before any titled one raises `UnboundLocalError`, and the handler at 368-371 turns the export into an error redirect. Later untitled sections reuse a stale level. | Exporting, with `include_translations=true` and a `to_lang`, an article whose content opens with non-blank text before its first `==` heading, for example `"Intro.\n== A ==\nBody."`. The summary and the lead always translate, because `translate_text` returns its input on any exception (wiki_utils.py:295-347), so every such article fails. For the stale level: `"== A ==\na.\n=== ===\nb."`, whose second heading has the empty title, gets its second translation heading at level 3 instead of 4. | Every section gets its translation heading at its own export level, one below a titled section's heading, and the export always downloads. | not executed | Export.SectionsAsWritten, Export.LeadTextAlwaysBreaksExport, Export.StaleLevelDiverges | Export.SectionsFixed, Export.ExportArticleFixed |
