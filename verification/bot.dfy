/** The pure helpers of the Telegram bot (bot_new.py): language names, the
    two-per-row keyboards, the translation-target list and section
    navigation. */
module Bot {
  import opened Text

  // ---------------------------------------------------------------------
  // Language names

  /** `LANGUAGE_NAMES`: the same thirteen entries in bot_new.py, config.py
      and attached_assets/utils.py. */
  const LanguageNames: map<string, string> := map[
    "en" := "English", "es" := "Spanish", "fr" := "French", "de" := "German",
    "it" := "Italian", "pt" := "Portuguese", "zh" := "Chinese", "ja" := "Japanese",
    "ru" := "Russian", "ar" := "Arabic", "hi" := "Hindi", "ko" := "Korean",
    "tr" := "Turkish"]

  /** `get_language_name` of bot_new.py: an unknown code is shown upper-cased. */
  function DisplayName(code: string): (r: string)
    ensures code in LanguageNames ==> r == LanguageNames[code]
    ensures code !in LanguageNames ==> |r| == |code| && forall i :: 0 <= i < |code| ==> r[i] == UpperChar(code[i])
  {
    if code in LanguageNames then LanguageNames[code] else Upper(code)
  }

  /** `get_language_name` of wiki_article.py and attached_assets/utils.py:
      an unknown code is shown as it is. */
  function LanguageName(code: string): (r: string)
    ensures code in LanguageNames ==> r == LanguageNames[code]
    ensures code !in LanguageNames ==> r == code
  {
    if code in LanguageNames then LanguageNames[code] else code
  }

  /** The two lookups differ only on unknown codes, and there only in case. */
  lemma {:induction false} NameLookupsAgree(code: string)
    ensures code in LanguageNames ==> DisplayName(code) == LanguageName(code)
    ensures DisplayName(code) == Upper(LanguageName(code)) || code in LanguageNames
    ensures |DisplayName(code)| == |LanguageName(code)| || code in LanguageNames
  {
  }

  // ---------------------------------------------------------------------
  // Keyboards

  /** An inline button: its label and its callback data. */
  datatype Button = Button(text: string, data: string)

  /** `POPULAR_LANGUAGES`, in its insertion order. */
  const PopularLanguages: seq<(string, string)> := [
    ("en", "English"), ("es", "Spanish"), ("fr", "French"), ("de", "German"),
    ("ru", "Russian"), ("zh", "Chinese"), ("ar", "Arabic"), ("ja", "Japanese")]

  /** Every popular language carries the name `LANGUAGE_NAMES` gives it. */
  lemma {:induction false} PopularNamesAgree()
    ensures forall k :: 0 <= k < |PopularLanguages| ==>
      PopularLanguages[k].0 in LanguageNames && LanguageNames[PopularLanguages[k].0] == PopularLanguages[k].1
  {
  }

  /** The concatenation of the rows. */
  function Flatten<T>(rows: seq<seq<T>>): seq<T> {
    if |rows| == 0 then [] else rows[0] + Flatten(rows[1..])
  }

  /** Every row holds one or two items, and only the last may hold one. */
  predicate TwoPerRow<T>(rows: seq<seq<T>>) {
    && (forall k :: 0 <= k < |rows| ==> 1 <= |rows[k]| <= 2)
    && (forall k :: 0 <= k < |rows| - 1 ==> |rows[k]| == 2)
  }

  /** Items laid out two per row, the last row holding one when the count
      is odd. */
  function Pairs<T>(items: seq<T>): (rows: seq<seq<T>>)
    ensures Flatten(rows) == items
    ensures TwoPerRow(rows)
    ensures |rows| == (|items| + 1) / 2
    decreases |items|
  {
    if |items| == 0 then []
    else if |items| <= 2 then [items]
    else [items[..2]] + Pairs(items[2..])
  }

  lemma {:induction false} PairsAppend<T>(a: seq<T>, b: seq<T>)
    requires |a| % 2 == 0 && 0 < |b| <= 2
    ensures Pairs(a + b) == Pairs(a) + [b]
    decreases |a|
  {
    if |a| == 0 {
      assert a + b == b;
    } else {
      assert (a + b)[..2] == a[..2];
      assert (a + b)[2..] == a[2..] + b;
      PairsAppend(a[2..], b);
      if |a| == 2 {
        assert a[..2] == a && a[2..] == [];
      }
      AppendAssoc([a[..2]], Pairs(a[2..]), [b]);
    }
  }

  lemma {:induction false} CloseRow<T>(items: seq<T>, k: nat, end: nat)
    requires 2 * k < end <= |items| && end - 2 * k <= 2
    ensures Pairs(items[..end]) == Pairs(items[..2 * k]) + [items[2 * k..end]]
  {
    assert items[..end] == items[..2 * k] + items[2 * k..end];
    PairsAppend(items[..2 * k], items[2 * k..end]);
  }

  /** The loop building a keyboard: a button joins the current row, and
      the row is closed when it holds two or the last item was added. */
  method KeyboardRows<T>(items: seq<T>) returns (rows: seq<seq<T>>)
    ensures rows == Pairs(items)
  {
    rows := [];
    var row: seq<T> := [];
    var i := 0;
    ghost var k := 0;
    while i < |items|
      invariant i <= |items| && |row| <= 1
      invariant i < |items| ==> 2 * k + |row| == i && row == items[2 * k..i] && rows == Pairs(items[..2 * k])
      invariant i == |items| ==> rows == Pairs(items)
    {
      ExtendRow(items, k, i, row);
      row := row + [items[i]];
      if |row| == 2 || i == |items| - 1 {
        CloseStep(items, k, i, rows, row);
        rows := rows + [row];
        row := [];
        k := k + 1;
      }
      i := i + 1;
    }
  }

  lemma {:induction false} ExtendRow<T>(items: seq<T>, k: nat, i: nat, row: seq<T>)
    requires 2 * k <= i < |items| && row == items[2 * k..i]
    ensures row + [items[i]] == items[2 * k..i + 1]
  {
  }

  /** Closing the row after item `i` adds it as the next pair. */
  lemma {:induction false} CloseStep<T>(items: seq<T>, k: nat, i: nat, rows: seq<seq<T>>, row: seq<T>)
    requires 2 * k <= i < |items| && i + 1 - 2 * k <= 2
    requires row == items[2 * k..i + 1] && rows == Pairs(items[..2 * k])
    requires |row| == 2 || i == |items| - 1
    ensures i + 1 < |items| ==> i + 1 == 2 * (k + 1) && rows + [row] == Pairs(items[..2 * (k + 1)])
    ensures i + 1 == |items| ==> rows + [row] == Pairs(items)
  {
    CloseRow(items, k, i + 1);
    if i + 1 == |items| {
      assert items[..i + 1] == items;
    }
  }

  /** The language-selection button of `POPULAR_LANGUAGES` entry `e`. */
  function LanguageButton(e: (string, string)): Button {
    Button(e.1 + " (" + e.0 + ")", "lang:" + e.0)
  }

  /** Python's `data.split(':', 1)[1]`, `None` when there is no colon. */
  function AfterColon(data: string): (r: Option<string>)
    ensures r.Some? ==> |r.value| < |data|
  {
    var i := Find(data, ':', 0);
    if i == -1 then None else Some(data[i + 1..])
  }

  /** The language a button selects is the one it was made for, provided
      the code holds no colon. */
  lemma {:induction false} LanguageButtonRoundTrip(e: (string, string))
    requires forall k :: 0 <= k < |e.0| ==> e.0[k] != ':'
    ensures AfterColon(LanguageButton(e).data) == Some(e.0)
  {
    var data := LanguageButton(e).data;
    assert data[5..] == e.0;
    assert Find(data, ':', 0) == 4 by {
      assert data[0] == 'l' && data[1] == 'a' && data[2] == 'n' && data[3] == 'g' && data[4] == ':';
    }
  }

  // ---------------------------------------------------------------------
  // Translation targets

  /** The languages offered as translation targets, in this order. */
  const TranslationLanguages: seq<string> := ["en", "es", "fr", "de", "it", "pt", "ru", "ja", "zh", "ko", "ar"]

  /** Python's `list.remove(x)` for an `x` that is present: the first
      occurrence goes. */
  function RemoveFirst(xs: seq<string>, x: string): (r: seq<string>)
    requires x in xs
    ensures |r| == |xs| - 1
    ensures multiset(r) == multiset(xs) - multiset{x}
  {
    assert xs == [xs[0]] + xs[1..];
    if xs[0] == x then xs[1..]
    else [xs[0]] + RemoveFirst(xs[1..], x)
  }

  /** Every element other than `x`, in order. */
  function Without(xs: seq<string>, x: string): (r: seq<string>)
    ensures x !in r
    ensures forall y :: y in r <==> y in xs && y != x
  {
    if |xs| == 0 then []
    else if xs[0] == x then Without(xs[1..], x)
    else [xs[0]] + Without(xs[1..], x)
  }

  predicate Distinct(xs: seq<string>) {
    forall i, j :: 0 <= i < j < |xs| ==> xs[i] != xs[j]
  }

  /** On a list without repeats, removing the first occurrence removes them all. */
  lemma {:induction false} RemoveFirstIsWithout(xs: seq<string>, x: string)
    requires Distinct(xs) && x in xs
    ensures RemoveFirst(xs, x) == Without(xs, x)
  {
    if xs[0] == x {
      assert x !in xs[1..] by {
        forall k | 0 <= k < |xs[1..]| ensures xs[1..][k] != x {
          assert xs[1..][k] == xs[k + 1];
        }
      }
      WithoutAbsent(xs[1..], x);
    } else {
      RemoveFirstIsWithout(xs[1..], x);
    }
  }

  lemma {:induction false} WithoutAbsent(xs: seq<string>, x: string)
    requires x !in xs
    ensures Without(xs, x) == xs
  {
    if |xs| > 0 {
      WithoutAbsent(xs[1..], x);
    }
  }

  /** The translation choices offered to a reader of `language`. */
  function TranslationTargets(language: string): (r: seq<string>)
    ensures language !in r
    ensures |r| == if language in TranslationLanguages then 10 else 11
  {
    if language in TranslationLanguages then
      RemoveFirstIsWithout(TranslationLanguages, language);
      RemoveFirst(TranslationLanguages, language)
    else TranslationLanguages
  }

  /** The targets are the fixed list minus the reader's language, the
      others kept in order. */
  lemma {:induction false} TargetsAreOthersInOrder(language: string)
    ensures TranslationTargets(language) == Without(TranslationLanguages, language)
  {
    if language in TranslationLanguages {
      RemoveFirstIsWithout(TranslationLanguages, language);
    } else {
      WithoutAbsent(TranslationLanguages, language);
    }
  }

  /** The button for translation target `code`. */
  function TranslateButton(code: string): Button {
    Button(DisplayName(code), "translate:" + code)
  }

  /** Every target is a known language, so its button shows a name. */
  lemma {:induction false} TargetsHaveNames(language: string)
    ensures forall k :: 0 <= k < |TranslationTargets(language)| ==>
      TranslationTargets(language)[k] in LanguageNames
  {
    TargetsAreOthersInOrder(language);
    TranslationLanguagesNamed();
    var r := TranslationTargets(language);
    forall k | 0 <= k < |r|
      ensures r[k] in LanguageNames
    {
      assert r[k] in Without(TranslationLanguages, language);
    }
  }

  lemma {:induction false} TranslationLanguagesNamed()
    ensures forall c :: c in TranslationLanguages ==> c in LanguageNames
  {
    var names := LanguageNames.Keys;
    assert "en" in names && "es" in names && "fr" in names && "de" in names && "it" in names && "pt" in names;
    assert "ru" in names && "ja" in names && "zh" in names && "ko" in names && "ar" in names;
  }

  // ---------------------------------------------------------------------
  // Section navigation

  /** What `display_article_section` (and `display_translated_section`)
      does: fall back to the article, or show a section with optional
      Previous and Next targets. */
  datatype Navigation = Fallback | Show(index: nat, previous: Option<nat>, next: Option<nat>)

  function Navigate(count: nat, index: int): (r: Navigation)
    ensures r.Fallback? <==> count == 0 || index < 0 || index >= count
    ensures r.Show? ==> r.index == index && r.index < count
    ensures r.Show? ==> (r.previous.Some? <==> index > 0) && (r.next.Some? <==> index < count - 1)
    ensures r.Show? && r.previous.Some? ==> r.previous.value == index - 1
    ensures r.Show? && r.next.Some? ==> r.next.value == index + 1 && r.next.value < count
  {
    if count == 0 || index >= count || index < 0 then Fallback
    else
      Show(index,
           if index > 0 then Some(index - 1) else None,
           if index < count - 1 then Some(index + 1) else None)
  }

  /** Next then Previous returns to the section one started from, and the
      other way round. */
  lemma {:induction false} NavigationRoundTrip(count: nat, index: int)
    ensures var r := Navigate(count, index);
      r.Show? && r.next.Some? ==> Navigate(count, r.next.value).Show? && Navigate(count, r.next.value).previous == Some(index)
    ensures var r := Navigate(count, index);
      r.Show? && r.previous.Some? ==> Navigate(count, r.previous.value).Show? && Navigate(count, r.previous.value).next == Some(index)
  {
  }

  /** The navigation row is shown exactly when there are two sections or more. */
  lemma {:induction false} NavigationRowShown(count: nat, index: int)
    requires Navigate(count, index).Show?
    ensures var r := Navigate(count, index);
      (r.previous.Some? || r.next.Some?) <==> count >= 2
  {
  }
}
