/** `split_content_into_sections` of wiki_utils.py: the heading pattern
    `^(={2,6})\s*(.*?)\s*\1` under `re.MULTILINE`, scanned the way
    `finditer` scans, and the cutting of the article text at the headings
    found. */
module Sections {
  import opened Text

  /** One entry of the result: `title` is `None` for the lead section. */
  datatype Section = Section(title: Option<string>, content: string, level: nat)

  /** A heading match: start position, number of `=` (group 1), the
      title (group 2) and the end of the match. */
  datatype Heading = Heading(pos: nat, level: nat, title: string, end: nat)

  // ---------------------------------------------------------------------
  // The heading pattern

  /** `^` under `re.MULTILINE`. */
  predicate LineStart(s: string, p: nat) {
    p == 0 || (0 < p <= |s| && s[p - 1] == '\n')
  }

  /** Number of `=` characters starting at `i`. */
  function EqRun(s: string, i: nat): (n: nat)
    requires i <= |s|
    ensures i + n <= |s|
    ensures forall k :: i <= k < i + n ==> s[k] == '='
    ensures i + n < |s| ==> s[i + n] != '='
    decreases |s| - i
  {
    if i < |s| && s[i] == '=' then 1 + EqRun(s, i + 1) else 0
  }

  predicate NoNewline(s: string, i: nat, j: nat)
    requires i <= j <= |s|
  {
    forall k :: i <= k < j ==> s[k] != '\n'
  }

  /** `\s*\1` at `e`: the greedy `\s*` takes every space; giving one back
      leaves a space where `\1` needs `=`, so no shorter run can succeed.
      Yields the end of the match. */
  function Close(s: string, e: nat, level: nat): (r: Option<nat>)
    requires e <= |s|
    ensures r.Some? ==> e + level <= r.value <= |s|
  {
    var b := LeadingSpaces(s[e..]);
    if EqRun(s, e + b) >= level then Some(e + b + level) else None
  }

  /** The lazy `(.*?)` starting at `q`, currently `t` characters long,
      followed by `\s*\1`: yields the end of the title and of the match. */
  function Title(s: string, q: nat, t: nat, level: nat): (r: Option<(nat, nat)>)
    requires q + t <= |s| && NoNewline(s, q, q + t)
    ensures r.Some? ==> q + t <= r.value.0 && r.value.0 + level <= r.value.1 <= |s|
    ensures r.Some? ==> NoNewline(s, q, r.value.0)
    decreases |s| - (q + t)
  {
    match Close(s, q + t, level)
    case Some(e) => Some((q + t, e))
    case None =>
      if q + t < |s| && s[q + t] != '\n' then Title(s, q, t + 1, level) else None
  }

  /** The greedy `\s*` before the title, backing off from `a` spaces:
      yields where the title starts and ends, and the end of the match. */
  function Lead(s: string, j: nat, level: nat, a: nat): (r: Option<(nat, nat, nat)>)
    requires j + a <= |s|
    ensures r.Some? ==> j <= r.value.0 <= r.value.1 && r.value.1 + level <= r.value.2 <= |s|
    ensures r.Some? ==> NoNewline(s, r.value.0, r.value.1)
    decreases a
  {
    match Title(s, j + a, 0, level)
    case Some((te, e)) => Some((j + a, te, e))
    case None => if a == 0 then None else Lead(s, j, level, a - 1)
  }

  /** The greedy `={2,6}`, backing off from `level` to 2. */
  function TryLevel(s: string, p: nat, level: nat): (r: Option<Heading>)
    requires 2 <= level && p + level <= |s| && EqRun(s, p) >= level
    ensures r.Some? ==> r.value.pos == p && 2 <= r.value.level <= level
    ensures r.Some? ==> p + 2 * r.value.level <= r.value.end <= |s|
    ensures r.Some? ==> forall k :: 0 <= k < |r.value.title| ==> r.value.title[k] != '\n'
    decreases level
  {
    var j := p + level;
    match Lead(s, j, level, LeadingSpaces(s[j..]))
    case Some((ts, te, e)) => Some(Heading(p, level, s[ts..te], e))
    case None => if level == 2 then None else TryLevel(s, p, level - 1)
  }

  function Min(a: nat, b: nat): nat {
    if a <= b then a else b
  }

  /** The pattern tried at position `p`, as `finditer` tries each position. */
  function MatchAt(s: string, p: nat): (r: Option<Heading>)
    requires p <= |s|
    ensures r.Some? ==> ValidHeading(s, r.value) && r.value.pos == p
  {
    if p < |s| && LineStart(s, p) && EqRun(s, p) >= 2 then TryLevel(s, p, Min(EqRun(s, p), 6))
    else None
  }

  /** What every match satisfies: it starts a line, opens with `level` of
      `=` with `level` in 2..6, and its title stays on one line. */
  predicate ValidHeading(s: string, h: Heading) {
    && h.pos < |s|
    && LineStart(s, h.pos)
    && 2 <= h.level <= 6
    && h.pos + 2 * h.level <= h.end <= |s|
    && EqRun(s, h.pos) >= h.level
    && (forall k :: 0 <= k < |h.title| ==> h.title[k] != '\n')
  }

  /** No match starts in `[a, b)`. */
  predicate NoMatchIn(s: string, a: nat, b: nat)
    requires b <= |s|
  {
    forall p :: a <= p < b ==> MatchAt(s, p).None?
  }

  /** Valid headings, each starting at or after the end of the previous. */
  predicate WellFormed(s: string, hs: seq<Heading>) {
    && (forall i :: 0 <= i < |hs| ==> ValidHeading(s, hs[i]))
    && (forall i :: 0 <= i < |hs| - 1 ==> hs[i].end <= hs[i + 1].pos)
  }

  /** `heading_pattern.finditer(content)` from position `from`: each search
      resumes at the end of the previous match. */
  function FindHeadings(s: string, from: nat): (hs: seq<Heading>)
    requires from <= |s|
    ensures WellFormed(s, hs)
    ensures forall i :: 0 <= i < |hs| ==> from <= hs[i].pos
    decreases |s| - from
  {
    if from == |s| then []
    else
      match MatchAt(s, from)
      case Some(h) =>
        var rest := FindHeadings(s, h.end);
        ConsWellFormed(s, h, rest);
        [h] + rest
      case None => FindHeadings(s, from + 1)
  }

  lemma {:induction false} ConsWellFormed(s: string, h: Heading, rest: seq<Heading>)
    requires ValidHeading(s, h) && WellFormed(s, rest)
    requires forall i :: 0 <= i < |rest| ==> h.end <= rest[i].pos
    ensures WellFormed(s, [h] + rest)
    ensures forall i :: 0 <= i < |rest| + 1 ==> h.pos <= ([h] + rest)[i].pos
  {
    var hs := [h] + rest;
    forall i | 0 <= i < |hs|
      ensures ValidHeading(s, hs[i]) && h.pos <= hs[i].pos
    {
      if i > 0 {
        assert hs[i] == rest[i - 1];
      }
    }
    forall i | 0 <= i < |hs| - 1
      ensures hs[i].end <= hs[i + 1].pos
    {
      assert hs[i + 1] == rest[i];
      if i > 0 {
        assert hs[i] == rest[i - 1];
      }
    }
  }

  lemma {:induction false} NoMatchBefore(s: string, a: nat, b: nat)
    requires a < b <= |s| && MatchAt(s, a).None? && NoMatchIn(s, a + 1, b)
    ensures NoMatchIn(s, a, b)
  {
    forall p | a <= p < b
      ensures MatchAt(s, p).None?
    {
      if p != a {
        assert a + 1 <= p < b;
      }
    }
  }

  /** Every element of `hs` is the match at its position. */
  predicate Hits(s: string, hs: seq<Heading>)
    requires WellFormed(s, hs)
  {
    forall i :: 0 <= i < |hs| ==> MatchAt(s, hs[i].pos) == Some(hs[i])
  }

  /** No match starts between two consecutive elements of `hs`. */
  predicate Gaps(s: string, hs: seq<Heading>)
    requires WellFormed(s, hs)
  {
    forall i :: 0 <= i < |hs| - 1 ==> NoMatchIn(s, hs[i].end, hs[i + 1].pos)
  }

  /** `hs` is what `finditer` yields from `from`: every element is the
      match at its position, and no match starts before the first, between
      two of them, or after the last. */
  predicate IsFinditer(s: string, from: nat, hs: seq<Heading>)
    requires from <= |s| && WellFormed(s, hs)
  {
    && Hits(s, hs)
    && Gaps(s, hs)
    && (|hs| == 0 ==> NoMatchIn(s, from, |s|))
    && (|hs| > 0 ==> from <= hs[0].pos && NoMatchIn(s, from, hs[0].pos) && NoMatchIn(s, hs[|hs| - 1].end, |s|))
  }

  lemma {:induction false} HitsCons(s: string, h: Heading, rest: seq<Heading>)
    requires WellFormed(s, rest) && WellFormed(s, [h] + rest)
    requires h.pos <= |s| && MatchAt(s, h.pos) == Some(h) && Hits(s, rest)
    ensures Hits(s, [h] + rest)
  {
    var hs := [h] + rest;
    assert forall i :: 0 < i < |hs| ==> hs[i] == rest[i - 1];
  }

  lemma {:induction false} GapsCons(s: string, h: Heading, rest: seq<Heading>)
    requires WellFormed(s, rest) && WellFormed(s, [h] + rest)
    requires Gaps(s, rest) && (|rest| > 0 ==> NoMatchIn(s, h.end, rest[0].pos))
    ensures Gaps(s, [h] + rest)
  {
    var hs := [h] + rest;
    forall i | 0 <= i < |hs| - 1
      ensures NoMatchIn(s, hs[i].end, hs[i + 1].pos)
    {
      if i > 0 {
        assert hs[i] == rest[i - 1] && hs[i + 1] == rest[i];
      }
    }
  }

  lemma {:induction false} FinditerMatch(s: string, from: nat, h: Heading, rest: seq<Heading>)
    requires from < |s| && MatchAt(s, from) == Some(h)
    requires WellFormed(s, rest) && h.end <= |s| && IsFinditer(s, h.end, rest)
    requires WellFormed(s, [h] + rest)
    ensures IsFinditer(s, from, [h] + rest)
  {
    var hs := [h] + rest;
    HitsCons(s, h, rest);
    GapsCons(s, h, rest);
    assert hs[0] == h && h.pos == from;
    if |rest| == 0 {
      assert hs[|hs| - 1] == h;
    } else {
      assert hs[|hs| - 1] == rest[|rest| - 1];
    }
  }

  lemma {:induction false} FinditerSkip(s: string, from: nat, rest: seq<Heading>)
    requires from < |s| && MatchAt(s, from).None?
    requires WellFormed(s, rest) && IsFinditer(s, from + 1, rest)
    ensures IsFinditer(s, from, rest)
  {
    NoMatchBefore(s, from, if |rest| > 0 then rest[0].pos else |s|);
  }

  /** The headings found are exactly the matches of the pattern, left to
      right. */
  lemma {:induction false} FindHeadingsIsFinditer(s: string, from: nat)
    requires from <= |s|
    ensures IsFinditer(s, from, FindHeadings(s, from))
    decreases |s| - from, 1
  {
    if from < |s| {
      if MatchAt(s, from).Some? {
        FinditerAtMatch(s, from);
      } else {
        FinditerAtMiss(s, from);
      }
    }
  }

  lemma {:induction false} FinditerAtMatch(s: string, from: nat)
    requires from < |s| && MatchAt(s, from).Some?
    ensures IsFinditer(s, from, FindHeadings(s, from))
    decreases |s| - from, 0
  {
    var h := MatchAt(s, from).value;
    assert FindHeadings(s, from) == [h] + FindHeadings(s, h.end);
    FindHeadingsIsFinditer(s, h.end);
    FinditerMatch(s, from, h, FindHeadings(s, h.end));
  }

  lemma {:induction false} FinditerAtMiss(s: string, from: nat)
    requires from < |s| && MatchAt(s, from).None?
    ensures IsFinditer(s, from, FindHeadings(s, from))
    decreases |s| - from, 0
  {
    assert FindHeadings(s, from) == FindHeadings(s, from + 1);
    FindHeadingsIsFinditer(s, from + 1);
    FinditerSkip(s, from, FindHeadings(s, from + 1));
  }

  /** Positions only grow, so the `headings.sort()` of the code leaves the
      list as `finditer` produced it. */
  lemma {:induction false} HeadingsAscending(s: string, hs: seq<Heading>, i: nat, j: nat)
    requires WellFormed(s, hs) && i < j < |hs|
    ensures hs[i].pos < hs[j].pos
    decreases j - i
  {
    if j > i + 1 {
      HeadingsAscending(s, hs, i + 1, j);
    }
  }

  // ---------------------------------------------------------------------
  // Cutting the text

  /** Python's `s[i:j]` for `j <= len(s)`. */
  function Slice(s: string, i: nat, j: nat): string
    requires j <= |s|
  {
    if i <= j then s[i..j] else []
  }

  /** `content.find('\n', pos)`, or the end of the text. */
  function HeadingEnd(s: string, h: Heading): (n: nat)
    ensures h.pos <= |s| ==> h.pos <= n <= |s|
    ensures h.pos <= |s| ==> n == |s| || s[n] == '\n'
    ensures h.pos <= |s| ==> NoNewline(s, h.pos, n)
  {
    var n := Find(s, '\n', h.pos);
    if n == -1 then |s| else n
  }

  /** Where the section of heading `i` ends: the next heading, or the end. */
  function SectionEnd(s: string, hs: seq<Heading>, i: nat): (n: nat)
    requires WellFormed(s, hs) && i < |hs|
    ensures n <= |s|
  {
    if i + 1 < |hs| then hs[i + 1].pos else |s|
  }

  function SectionAt(s: string, hs: seq<Heading>, i: nat): Section
    requires WellFormed(s, hs) && i < |hs|
  {
    Section(Some(hs[i].title), Strip(Slice(s, HeadingEnd(s, hs[i]), SectionEnd(s, hs, i))), hs[i].level)
  }

  /** One section per heading. */
  function HeadingSections(s: string, hs: seq<Heading>): (r: seq<Section>)
    requires WellFormed(s, hs)
    ensures |r| == |hs|
  {
    seq(|hs|, i requires 0 <= i < |hs| => SectionAt(s, hs, i))
  }

  /** The untitled lead section, present when the text before the first
      heading is not blank. */
  function Intro(s: string, hs: seq<Heading>): seq<Section>
    requires WellFormed(s, hs)
  {
    if |hs| == 0 then []
    else
      var lead := Strip(s[..hs[0].pos]);
      if lead == [] then [] else [Section(None, lead, 0)]
  }

  /** The untitled section before the first heading, or the only one. */
  predicate LeadSection(x: Section) {
    x.title.None? && x.level == 0 && IsStripped(x.content)
  }

  /** The section of a heading: titled, with level 2..6. */
  predicate TitledSection(x: Section) {
    x.title.Some? && 2 <= x.level <= 6 && IsStripped(x.content)
  }

  lemma {:induction false} HeadingSectionsTitled(s: string, hs: seq<Heading>)
    requires WellFormed(s, hs)
    ensures forall k :: 0 <= k < |hs| ==> TitledSection(HeadingSections(s, hs)[k])
  {
    forall k | 0 <= k < |hs|
      ensures TitledSection(HeadingSections(s, hs)[k])
    {
      assert ValidHeading(s, hs[k]);
    }
  }

  /** The sections cut at the headings `hs`; when there are none, the
      whole stripped text is one untitled section. */
  function SectionsOf(s: string, hs: seq<Heading>): (r: seq<Section>)
    requires WellFormed(s, hs)
    ensures |r| >= 1
    ensures LeadSection(r[0]) || TitledSection(r[0])
    ensures forall k :: 0 < k < |r| ==> TitledSection(r[k])
  {
    var intro := Intro(s, hs);
    var body := HeadingSections(s, hs);
    var secs := intro + body;
    if secs == [] then [Section(None, Strip(s), 0)]
    else
      HeadingSectionsTitled(s, hs);
      assert |intro| <= 1;
      assert forall k :: |intro| <= k < |secs| ==> TitledSection(secs[k]);
      secs
  }

  /** `split_content_into_sections(content)`: a lead section (the only
      untitled one, level 0) followed by titled sections of level 2..6,
      every content stripped. */
  function SplitContentIntoSections(s: string): (r: seq<Section>)
    ensures |r| >= 1
    ensures LeadSection(r[0]) || TitledSection(r[0])
    ensures forall k :: 0 < k < |r| ==> TitledSection(r[k])
  {
    SectionsOf(s, FindHeadings(s, 0))
  }

  /** When the pattern matches nowhere, the whole stripped text is the one
      untitled section. */
  lemma {:induction false} NoHeadingsOneSection(s: string)
    requires NoMatchIn(s, 0, |s|)
    ensures SplitContentIntoSections(s) == [Section(None, Strip(s), 0)]
  {
    FindHeadingsIsFinditer(s, 0);
  }

  /** With headings, the result opens with an untitled lead section
      exactly when the text before the first heading is not blank, and
      that section holds this text stripped. */
  lemma {:induction false} LeadSectionIffLeadText(s: string, hs: seq<Heading>)
    requires WellFormed(s, hs) && |hs| > 0
    ensures var r := SectionsOf(s, hs);
      && |r| == |hs| + (if IsBlank(s[..hs[0].pos]) then 0 else 1)
      && (r[0].title.None? <==> !IsBlank(s[..hs[0].pos]))
      && (r[0].title.None? ==> r[0].content == Strip(s[..hs[0].pos]))
  {
    var intro := Intro(s, hs);
    var body := HeadingSections(s, hs);
    SectionsOfSplit(s, hs);
    IntroShape(s, hs);
    SuffixIndex(intro, body);
    assert (intro + body)[|intro|] == body[0] == SectionAt(s, hs, 0);
  }

  /** After the lead section comes one section per heading, in position
      order, carrying the heading's title and `=` count and the stripped
      text from the heading line's end to the next heading. */
  lemma {:induction false} SectionsFollowHeadings(s: string, hs: seq<Heading>)
    requires WellFormed(s, hs) && |hs| > 0
    ensures var r := SectionsOf(s, hs);
      && |r| >= |hs|
      && forall i :: 0 <= i < |hs| ==>
           r[|r| - |hs| + i]
           == Section(Some(hs[i].title), Strip(Slice(s, HeadingEnd(s, hs[i]), SectionEnd(s, hs, i))), hs[i].level)
  {
    SectionsOfSplit(s, hs);
    SuffixIndex(Intro(s, hs), HeadingSections(s, hs));
  }

  lemma {:induction false} SectionsOfSplit(s: string, hs: seq<Heading>)
    requires WellFormed(s, hs) && |hs| > 0
    ensures SectionsOf(s, hs) == Intro(s, hs) + HeadingSections(s, hs)
  {
  }

  lemma {:induction false} SuffixIndex(intro: seq<Section>, body: seq<Section>)
    ensures forall i :: 0 <= i < |body| ==> (intro + body)[|intro| + i] == body[i]
  {
  }

  lemma {:induction false} IntroShape(s: string, hs: seq<Heading>)
    requires WellFormed(s, hs) && |hs| > 0
    ensures |Intro(s, hs)| == if IsBlank(s[..hs[0].pos]) then 0 else 1
    ensures |Intro(s, hs)| == 1 ==> Intro(s, hs)[0] == Section(None, Strip(s[..hs[0].pos]), 0)
  {
  }

  /** The result has no lead section exactly when no heading was found,
      which is why the code's `if not sections` means "no headings". */
  lemma {:induction false} NoSectionsIffNoHeadings(s: string)
    ensures var hs := FindHeadings(s, 0);
      (Intro(s, hs) + HeadingSections(s, hs) == []) <==> |hs| == 0
  {
  }

  // ---------------------------------------------------------------------
  // No text is lost

  /** The words of the heading lines and section contents from heading
      `i` on, in text order. */
  function Outline(s: string, hs: seq<Heading>, i: nat): seq<string>
    requires WellFormed(s, hs) && i <= |hs|
    decreases |hs| - i
  {
    if i == |hs| then []
    else
      Words(Slice(s, hs[i].pos, HeadingEnd(s, hs[i]))) + Words(SectionAt(s, hs, i).content)
      + Outline(s, hs, i + 1)
  }

  /** The line of a heading ends before the next heading starts. */
  lemma {:induction false} HeadingLineBeforeNext(s: string, hs: seq<Heading>, i: nat)
    requires WellFormed(s, hs) && i + 1 < |hs|
    ensures HeadingEnd(s, hs[i]) < hs[i + 1].pos
    ensures s[HeadingEnd(s, hs[i])] == '\n' && s[hs[i + 1].pos - 1] == '\n'
  {
    var q := hs[i + 1].pos;
    assert ValidHeading(s, hs[i]) && ValidHeading(s, hs[i + 1]);
    assert hs[i].end <= q;
    assert q > 0 && s[q - 1] == '\n';
    assert hs[i].pos <= q - 1;
  }

  lemma {:induction false} WordsOfThree(a: string, b: string, c: string)
    requires SpaceSeam(a, b + c) && SpaceSeam(b, c)
    ensures Words(a + b + c) == Words(a) + Words(b) + Words(c)
  {
    AppendAssoc(a, b, c);
    WordsAppend(b, c);
    WordsAppend(a, b + c);
  }

  lemma {:induction false} LastSectionWords(s: string, hs: seq<Heading>)
    requires WellFormed(s, hs) && |hs| > 0
    ensures Words(s[hs[|hs| - 1].pos..]) == Outline(s, hs, |hs| - 1)
  {
    var i := |hs| - 1;
    assert ValidHeading(s, hs[i]);
    var p := hs[i].pos;
    var he := HeadingEnd(s, hs[i]);
    assert Slice(s, p, he) == s[p..he];
    assert SectionAt(s, hs, i).content == Strip(s[he..]) by {
      assert SectionEnd(s, hs, i) == |s|;
      assert Slice(s, he, |s|) == s[he..];
    }
    LineThenBody(s, p, he);
    assert Outline(s, hs, i) == Words(s[p..he]) + Words(Strip(s[he..])) + [];
  }

  /** A heading line followed by text opening with its newline. */
  lemma {:induction false} LineThenBody(s: string, p: nat, he: nat)
    requires p <= he <= |s| && (he == |s| || s[he] == '\n')
    ensures Words(s[p..]) == Words(s[p..he]) + Words(Strip(s[he..])) + []
  {
    SuffixSplit(s, p, he);
    assert IsSpace('\n');
    WordsAppend(s[p..he], s[he..]);
    StripKeepsWords(s[he..]);
  }

  lemma {:induction false} MiddleSectionWords(s: string, hs: seq<Heading>, i: nat)
    requires WellFormed(s, hs) && i + 1 < |hs|
    ensures Words(s[hs[i].pos..]) == Words(Slice(s, hs[i].pos, HeadingEnd(s, hs[i])))
      + Words(SectionAt(s, hs, i).content) + Words(s[hs[i + 1].pos..])
  {
    var p := hs[i].pos;
    var he := HeadingEnd(s, hs[i]);
    var q := hs[i + 1].pos;
    HeadingLineBeforeNext(s, hs, i);
    assert s[p..] == s[p..he] + s[he..q] + s[q..];
    WordsOfThree(s[p..he], s[he..q], s[q..]);
    StripKeepsWords(s[he..q]);
  }

  lemma {:induction false} OutlineKeepsWords(s: string, hs: seq<Heading>, i: nat)
    requires WellFormed(s, hs) && i < |hs|
    ensures Words(s[hs[i].pos..]) == Outline(s, hs, i)
    decreases |hs| - i
  {
    if i + 1 == |hs| {
      LastSectionWords(s, hs);
    } else {
      MiddleSectionWords(s, hs, i);
      OutlineKeepsWords(s, hs, i + 1);
      AppendAssoc(Words(Slice(s, hs[i].pos, HeadingEnd(s, hs[i]))), Words(SectionAt(s, hs, i).content),
                  Outline(s, hs, i + 1));
    }
  }

  /** Every word of the article lies in the lead section, a heading line
      or a section's content, in the order of the text. */
  lemma {:induction false} SectionsKeepWords(s: string)
    ensures var hs := FindHeadings(s, 0);
      var r := SplitContentIntoSections(s);
      && (|hs| == 0 ==> Words(s) == Words(r[0].content))
      && (|hs| > 0 ==> Words(s) == Words(s[..hs[0].pos]) + Outline(s, hs, 0))
      && (|hs| > 0 ==> Words(s[..hs[0].pos]) == if r[0].title.None? then Words(r[0].content) else [])
  {
    var hs := FindHeadings(s, 0);
    if |hs| == 0 {
      StripKeepsWords(s);
    } else {
      var p := hs[0].pos;
      assert ValidHeading(s, hs[0]);
      PrefixSplit(s, p);
      assert IsSpace('\n');
      WordsAppend(s[..p], s[p..]);
      OutlineKeepsWords(s, hs, 0);
      LeadSectionIffLeadText(s, hs);
      StripKeepsWords(s[..p]);
      if IsBlank(s[..p]) {
        WordsOfBlank(s[..p]);
      }
    }
  }

  /** Where no run of `level` signs follows, the title never closes. */
  lemma {:induction false} NoRunNoTitle(s: string, q: nat, t: nat, level: nat)
    requires q + t <= |s| && NoNewline(s, q, q + t)
    requires forall x :: q + t <= x <= |s| ==> EqRun(s, x) < level
    ensures Title(s, q, t, level).None?
    decreases |s| - (q + t)
  {
    if q + t < |s| && s[q + t] != '\n' {
      NoRunNoTitle(s, q, t + 1, level);
    }
  }

  // ---------------------------------------------------------------------
  // Balanced heading lines

  /** `n` copies of `=`. */
  function Equals(n: nat): (r: string)
    ensures |r| == n && forall k :: 0 <= k < n ==> r[k] == '='
  {
    seq(n, k => '=')
  }

  /** The heading line `={n} title ={n}`, as wiki markup writes one. */
  function BalancedLine(n: nat, title: string): string {
    Equals(n) + " " + title + " " + Equals(n)
  }

  /** A title as written between the runs: non-empty, no `=`, no newline,
      and no whitespace at either end. */
  predicate PlainTitle(title: string) {
    && |title| > 0
    && !IsSpace(title[0]) && !IsSpace(title[|title| - 1])
    && forall k :: 0 <= k < |title| ==> title[k] != '=' && title[k] != '\n'
  }

  /** Every balanced line at the start of a line is matched: group 1 is
      the run of `n`, group 2 is the title, and the match ends after the
      closing run. */
  lemma {:induction false} BalancedLineMatches(s: string, p: nat, n: nat, title: string)
    requires 2 <= n <= 6 && PlainTitle(title) && LineStart(s, p)
    requires p + |BalancedLine(n, title)| <= |s| && s[p..p + |BalancedLine(n, title)|] == BalancedLine(n, title)
    ensures MatchAt(s, p) == Some(Heading(p, n, title, p + 2 * n + |title| + 2))
  {
    BalancedLineChars(s, p, n, title);
    BalancedTryLevel(s, p, n, title);
    MatchAtIsTryLevel(s, p, n);
  }

  /** Group 1 of a balanced line takes exactly its `n` signs, and the
      level `n` is the one that matches. */
  lemma {:induction false} BalancedTryLevel(s: string, p: nat, n: nat, title: string)
    requires 2 <= n && PlainTitle(title) && p + 2 * n + |title| + 2 <= |s|
    requires forall k :: p <= k < p + n ==> s[k] == '='
    requires s[p + n] == ' ' && s[p + n + 1 + |title|] == ' '
    requires forall k :: 0 <= k < |title| ==> s[p + n + 1 + k] == title[k]
    requires forall k :: p + n + 2 + |title| <= k < p + 2 * n + 2 + |title| ==> s[k] == '='
    ensures EqRun(s, p) == n
    ensures TryLevel(s, p, n) == Some(Heading(p, n, title, p + 2 * n + |title| + 2))
  {
    BalancedSteps(s, p, n, title);
    TitleToTryLevel(s, p, n, p + n + 1, title, p + 2 * n + |title| + 2);
  }

  /** The steps of the matcher on a balanced line: the opening run has
      exactly `n` signs, one space follows, and the lazy title scan stops
      right after the title. */
  lemma {:induction false} BalancedSteps(s: string, p: nat, n: nat, title: string)
    requires 2 <= n && PlainTitle(title) && p + 2 * n + |title| + 2 <= |s|
    requires forall k :: p <= k < p + n ==> s[k] == '='
    requires s[p + n] == ' ' && s[p + n + 1 + |title|] == ' '
    requires forall k :: 0 <= k < |title| ==> s[p + n + 1 + k] == title[k]
    requires forall k :: p + n + 2 + |title| <= k < p + 2 * n + 2 + |title| ==> s[k] == '='
    ensures EqRun(s, p) == n && LeadingSpaces(s[p + n..]) == 1
    ensures Title(s, p + n + 1, 0, n) == Some((p + n + 1 + |title|, p + 2 * n + |title| + 2))
    ensures s[p + n + 1..p + n + 1 + |title|] == title
  {
    var q := p + n + 1;
    EqRunExact(s, p, n);
    SpacesBefore(s, p + n, 1);
    TitleScans(s, q, 0, n, title);
    TitleSlice(s, q, title);
  }

  /** A title scan that succeeds after one space gives the match at the
      level tried. */
  lemma {:induction false} TitleToTryLevel(s: string, p: nat, n: nat, q: nat, title: string, e: nat)
    requires q == p + n + 1 && 2 <= n && q + |title| <= |s| && EqRun(s, p) >= n
    requires LeadingSpaces(s[p + n..]) == 1
    requires Title(s, q, 0, n) == Some((q + |title|, e)) && s[q..q + |title|] == title
    ensures TryLevel(s, p, n) == Some(Heading(p, n, title, e))
  {
    TitleToLead(s, p + n, n, q, q + |title|, e);
    LeadToTryLevel(s, p, n, q, title, e);
  }

  lemma {:induction false} LeadToTryLevel(s: string, p: nat, n: nat, q: nat, title: string, e: nat)
    requires q == p + n + 1 && 2 <= n && q <= |s| && EqRun(s, p) >= n
    requires LeadingSpaces(s[p + n..]) == 1
    requires Lead(s, p + n, n, 1) == Some((q, q + |title|, e)) && s[q..q + |title|] == title
    ensures TryLevel(s, p, n) == Some(Heading(p, n, title, e))
  {
  }

  lemma {:induction false} TitleToLead(s: string, j: nat, n: nat, q: nat, te: nat, e: nat)
    requires q == j + 1 && q <= |s| && Title(s, q, 0, n) == Some((te, e))
    ensures Lead(s, j, n, 1) == Some((q, te, e))
  {
  }

  /** With exactly `n` signs opening a line, the pattern tries level `n`
      first. */
  lemma {:induction false} MatchAtIsTryLevel(s: string, p: nat, n: nat)
    requires 2 <= n <= 6 && p < |s| && LineStart(s, p) && EqRun(s, p) == n
    ensures MatchAt(s, p) == TryLevel(s, p, n)
  {
  }

  lemma {:induction false} TitleSlice(s: string, q: nat, title: string)
    requires q + |title| <= |s|
    requires forall k :: 0 <= k < |title| ==> s[q + k] == title[k]
    ensures s[q..q + |title|] == title
  {
  }

  /** The characters of a balanced line placed at `p`. */
  lemma {:induction false} BalancedLineChars(s: string, p: nat, n: nat, title: string)
    requires p + |BalancedLine(n, title)| <= |s| && s[p..p + |BalancedLine(n, title)|] == BalancedLine(n, title)
    ensures forall k :: p <= k < p + n ==> s[k] == '='
    ensures s[p + n] == ' ' && s[p + n + 1 + |title|] == ' '
    ensures forall k :: 0 <= k < |title| ==> s[p + n + 1 + k] == title[k]
    ensures forall k :: p + n + 2 + |title| <= k < p + 2 * n + 2 + |title| ==> s[k] == '='
  {
    var line := BalancedLine(n, title);
    assert forall k :: 0 <= k < |line| ==> s[p + k] == line[k];
    assert forall k :: 0 <= k < n ==> line[k] == '=';
    assert line[n] == ' ' && line[n + 1 + |title|] == ' ';
    assert forall k :: 0 <= k < |title| ==> line[n + 1 + k] == title[k];
    assert forall k :: n + 2 + |title| <= k < 2 * n + 2 + |title| ==> line[k] == Equals(n)[k - n - 2 - |title|];
  }

  /** A run of exactly `n` signs. */
  lemma {:induction false} EqRunExact(s: string, i: nat, n: nat)
    requires i + n < |s| && s[i + n] != '='
    requires forall k :: i <= k < i + n ==> s[k] == '='
    ensures EqRun(s, i) == n
    decreases n
  {
    if n > 0 {
      EqRunExact(s, i + 1, n - 1);
    }
  }

  /** A run of at least `n` signs. */
  lemma {:induction false} EqRunAtLeast(s: string, i: nat, n: nat)
    requires i + n <= |s|
    requires forall k :: i <= k < i + n ==> s[k] == '='
    ensures EqRun(s, i) >= n
    decreases n
  {
    if n > 0 {
      EqRunAtLeast(s, i + 1, n - 1);
    }
  }

  /** Exactly `b` spaces start at `i`, followed by a non-space. */
  lemma {:induction false} SpacesBefore(s: string, i: nat, b: nat)
    requires i + b < |s| && !IsSpace(s[i + b])
    requires forall k :: i <= k < i + b ==> IsSpace(s[k])
    ensures LeadingSpaces(s[i..]) == b
  {
    var m := LeadingSpaces(s[i..]);
    assert s[i..][b] == s[i + b];
    assert forall k :: 0 <= k < b ==> s[i..][k] == s[i + k];
  }

  /** The lazy title scan from `t` characters into a plain title: the
      close fails inside the title and succeeds right after it. */
  lemma {:induction false} TitleScans(s: string, q: nat, t: nat, n: nat, title: string)
    requires 2 <= n && PlainTitle(title) && t <= |title|
    requires q + |title| + 1 + n <= |s| && s[q + |title|] == ' '
    requires forall k :: 0 <= k < |title| ==> s[q + k] == title[k]
    requires forall k :: q + |title| + 1 <= k < q + |title| + 1 + n ==> s[k] == '='
    ensures NoNewline(s, q, q + t)
    ensures Title(s, q, t, n) == Some((q + |title|, q + |title| + 1 + n))
    decreases |title| - t
  {
    TitleHasNoNewline(s, q, t, title);
    if t == |title| {
      CloseAfterTitle(s, q + |title|, n);
      TitleCloses(s, q, t, n, q + |title| + 1 + n);
    } else {
      CloseInsideTitle(s, q, t, n, title);
      TitleScans(s, q, t + 1, n, title);
      TitleMoves(s, q, t, n);
    }
  }

  lemma {:induction false} TitleHasNoNewline(s: string, q: nat, t: nat, title: string)
    requires PlainTitle(title) && t <= |title| && q + |title| <= |s|
    requires forall k :: 0 <= k < |title| ==> s[q + k] == title[k]
    ensures NoNewline(s, q, q + t)
  {
    forall k | q <= k < q + t
      ensures s[k] != '\n'
    {
      assert s[q + (k - q)] == title[k - q];
    }
  }

  lemma {:induction false} TitleCloses(s: string, q: nat, t: nat, n: nat, e: nat)
    requires q + t <= |s| && NoNewline(s, q, q + t) && Close(s, q + t, n) == Some(e)
    ensures Title(s, q, t, n) == Some((q + t, e))
  {
  }

  lemma {:induction false} TitleMoves(s: string, q: nat, t: nat, n: nat)
    requires q + t < |s| && s[q + t] != '\n' && NoNewline(s, q, q + t) && Close(s, q + t, n).None?
    ensures NoNewline(s, q, q + t + 1)
    ensures Title(s, q, t, n) == Title(s, q, t + 1, n)
  {
  }

  lemma {:induction false} CloseAfterTitle(s: string, e: nat, n: nat)
    requires 1 <= n && e + 1 + n <= |s| && s[e] == ' '
    requires forall k :: e + 1 <= k < e + 1 + n ==> s[k] == '='
    ensures Close(s, e, n) == Some(e + 1 + n)
  {
    SpacesBefore(s, e, 1);
    EqRunAtLeast(s, e + 1, n);
  }

  lemma {:induction false} CloseInsideTitle(s: string, q: nat, t: nat, n: nat, title: string)
    requires 1 <= n && PlainTitle(title) && t < |title|
    requires q + |title| <= |s|
    requires forall k :: 0 <= k < |title| ==> s[q + k] == title[k]
    ensures Close(s, q + t, n) == None
  {
    var b := LeadingSpaces(s[q + t..]);
    var last := |title| - 1;
    assert s[q + t..][last - t] == title[last];
    assert t + b <= last;
    assert s[q + t + b] == title[t + b];
    assert EqRun(s, q + t + b) == 0;
  }

  // ---------------------------------------------------------------------
  // The pattern on concrete lines

  /** The pattern is not anchored at the end of the line: text after the
      closing `=` run is ignored. */
  lemma {:induction false} TrailingTextIgnored()
    ensures MatchAt("== A == x", 0) == Some(Heading(0, 2, "A", 7))
  {
    TrailingOpens();
    TrailingLead();
    TrailingTitle();
  }

  /** Unbalanced runs: `===` does not close, so the level backs off to 2
      and the extra `=` becomes part of the title. */
  lemma {:induction false} UnbalancedRunsBackOff()
    ensures MatchAt("=== a ==", 0) == Some(Heading(0, 2, "= a", 8))
  {
    var s := "=== a ==";
    assert EqRun(s, 0) == 3 by {
      assert s[3] == ' ' && EqRun(s, 3) == 0;
    }
    UnbalancedTryLevel();
  }

  /** A heading line may have an empty title: on `== ==` the lazy title
      takes nothing and the second run closes the match. */
  lemma {:induction false} EmptyTitleMatches()
    ensures MatchAt("== ==\ny", 0) == Some(Heading(0, 2, "", 5))
  {
    var s := "== ==\ny";
    assert EqRun(s, 0) == 2 by {
      assert s[2] == ' ' && EqRun(s, 2) == 0;
    }
    EmptyTitleLead();
  }

  // ---------------------------------------------------------------------
  // Example scaffolding: the single facts behind the lines above, one
  // lemma per fact so that each literal is unfolded on its own

  lemma {:induction false} EmptyTitleLead()
    ensures TryLevel("== ==\ny", 0, 2) == Some(Heading(0, 2, "", 5))
  {
    var s := "== ==\ny";
    assert LeadingSpaces(s[2..]) == 1 by {
      assert s[2..][0] == ' ' && s[2..][1..][0] == '=';
      assert LeadingSpaces(s[2..][1..]) == 0;
    }
    assert Close(s, 3, 2) == Some(5) by {
      assert s[3..][0] == '=';
      assert LeadingSpaces(s[3..]) == 0;
      assert s[3] == '=' && s[4] == '=' && s[5] == '\n';
      assert EqRun(s, 5) == 0;
      assert EqRun(s, 3) == 2;
    }
    assert Title(s, 3, 0, 2) == Some((3, 5));
    assert s[3..3] == "";
  }

  lemma {:induction false} TrailingOpens()
    ensures EqRun("== A == x", 0) == 2 && LeadingSpaces("== A == x"[2..]) == 1
  {
    var s := "== A == x";
    assert EqRun(s, 0) == 2 by {
      assert s[2] == ' ' && EqRun(s, 2) == 0;
    }
    assert LeadingSpaces(s[2..]) == 1 by {
      assert s[2..][0] == ' ' && s[2..][1..][0] == 'A';
      assert LeadingSpaces(s[2..][1..]) == 0;
    }
  }

  lemma {:induction false} TrailingTitle()
    ensures "== A == x"[3..4] == "A"
  {
  }

  lemma {:induction false} TrailingLead()
    ensures Lead("== A == x", 2, 2, 1) == Some((3, 4, 7))
  {
    var s := "== A == x";
    TrailingCloses();
    assert Title(s, 3, 0, 2) == Some((4, 7));
  }

  lemma {:induction false} TrailingCloses()
    ensures Close("== A == x", 3, 2) == None
    ensures Close("== A == x", 4, 2) == Some(7)
  {
    var s := "== A == x";
    assert Close(s, 3, 2) == None by {
      assert s[3..][0] == 'A' && s[3] == 'A';
      assert EqRun(s, 3) == 0;
    }
    TrailingClosesAtSeven();
  }

  lemma {:induction false} TrailingClosesAtSeven()
    ensures Close("== A == x", 4, 2) == Some(7)
  {
    var s := "== A == x";
    assert s[5] == '=' && s[6] == '=' && s[7] == ' ';
    assert s[4..][0] == ' ' && s[4..][1..][0] == '=';
    assert LeadingSpaces(s[4..][1..]) == 0;
    assert LeadingSpaces(s[4..]) == 1;
    assert EqRun(s, 7) == 0;
    assert EqRun(s, 5) == 2;
  }

  lemma {:induction false} UnbalancedTryLevel()
    ensures TryLevel("=== a ==", 0, 3) == Some(Heading(0, 2, "= a", 8))
  {
    UnbalancedBacksOff();
    UnbalancedLevelTwoMatches();
  }

  lemma {:induction false} UnbalancedBacksOff()
    ensures TryLevel("=== a ==", 0, 3) == TryLevel("=== a ==", 0, 2)
  {
    UnbalancedGap();
    UnbalancedLevelThree();
  }

  lemma {:induction false} UnbalancedGap()
    ensures LeadingSpaces("=== a =="[3..]) == 1
  {
    var s := "=== a ==";
    assert s[3..][0] == ' ' && s[3..][1..][0] == 'a';
    assert LeadingSpaces(s[3..][1..]) == 0;
  }

  lemma {:induction false} UnbalancedLevelTwoMatches()
    ensures TryLevel("=== a ==", 0, 2) == Some(Heading(0, 2, "= a", 8))
  {
    var s := "=== a ==";
    assert LeadingSpaces(s[2..]) == 0 by {
      assert s[2..][0] == '=';
    }
    UnbalancedLevelTwo();
    UnbalancedTitle();
  }

  lemma {:induction false} UnbalancedTitle()
    ensures "=== a =="[2..5] == "= a"
  {
  }

  lemma {:induction false} UnbalancedLevelThree()
    ensures Lead("=== a ==", 3, 3, 1).None?
  {
    var s := "=== a ==";
    assert s[3] == ' ' && s[4] == 'a' && s[5] == ' ' && s[6] == '=' && s[7] == '=';
    assert EqRun(s, 8) == 0 && EqRun(s, 7) == 1 && EqRun(s, 6) == 2;
    assert EqRun(s, 5) == 0 && EqRun(s, 4) == 0 && EqRun(s, 3) == 0;
    NoRunNoTitle(s, 4, 0, 3);
    NoRunNoTitle(s, 3, 0, 3);
  }

  lemma {:induction false} UnbalancedLevelTwo()
    ensures Lead("=== a ==", 2, 2, 0) == Some((2, 5, 8))
  {
    var s := "=== a ==";
    UnbalancedCloses();
    UnbalancedTitleLine();
    assert Title(s, 2, 3, 2) == Some((5, 8));
    assert Title(s, 2, 2, 2) == Some((5, 8));
    assert Title(s, 2, 1, 2) == Some((5, 8));
  }

  lemma {:induction false} UnbalancedTitleLine()
    ensures NoNewline("=== a ==", 2, 5) && "=== a =="[2] != '\n' && "=== a =="[3] != '\n' && "=== a =="[4] != '\n'
  {
    var s := "=== a ==";
    assert s[2] == '=' && s[3] == ' ' && s[4] == 'a';
  }

  lemma {:induction false} UnbalancedCloses()
    ensures Close("=== a ==", 5, 2) == Some(8)
    ensures Close("=== a ==", 4, 2).None? && Close("=== a ==", 3, 2).None? && Close("=== a ==", 2, 2).None?
  {
    UnbalancedRuns();
    UnbalancedClosesAtEnd();
    UnbalancedNoEarlyClose();
  }

  lemma {:induction false} UnbalancedRuns()
    ensures var s := "=== a ==";
      && EqRun(s, 8) == 0 && EqRun(s, 7) == 1 && EqRun(s, 6) == 2 && EqRun(s, 5) == 0
      && EqRun(s, 4) == 0 && EqRun(s, 3) == 0 && EqRun(s, 2) == 1
  {
    var s := "=== a ==";
    assert s[2] == '=' && s[3] == ' ' && s[4] == 'a' && s[5] == ' ' && s[6] == '=' && s[7] == '=';
  }

  lemma {:induction false} UnbalancedClosesAtEnd()
    requires EqRun("=== a ==", 6) == 2
    ensures Close("=== a ==", 5, 2) == Some(8)
  {
    var s := "=== a ==";
    assert s[5..][0] == ' ' && s[5..][1..][0] == '=';
    assert LeadingSpaces(s[5..][1..]) == 0;
  }

  lemma {:induction false} UnbalancedNoEarlyClose()
    requires EqRun("=== a ==", 4) == 0 && EqRun("=== a ==", 2) == 1
    ensures Close("=== a ==", 4, 2).None? && Close("=== a ==", 3, 2).None? && Close("=== a ==", 2, 2).None?
  {
    UnbalancedNoCloseAtFour();
    UnbalancedNoCloseAtThree();
    UnbalancedNoCloseAtTwo();
  }

  lemma {:induction false} UnbalancedNoCloseAtFour()
    requires EqRun("=== a ==", 4) == 0
    ensures Close("=== a ==", 4, 2).None?
  {
    var s := "=== a ==";
    assert s[4..][0] == 'a';
  }

  lemma {:induction false} UnbalancedNoCloseAtTwo()
    requires EqRun("=== a ==", 2) == 1
    ensures Close("=== a ==", 2, 2).None?
  {
    var s := "=== a ==";
    assert s[2..][0] == '=';
  }

  lemma {:induction false} UnbalancedNoCloseAtThree()
    requires EqRun("=== a ==", 4) == 0
    ensures Close("=== a ==", 3, 2).None?
  {
    var s := "=== a ==";
    assert s[3..][0] == ' ' && s[3..][1..][0] == 'a';
    assert LeadingSpaces(s[3..][1..]) == 0;
  }
}
