/** Python string primitives the bot relies on, over `seq<char>`:
    whitespace, `str.strip()`, `str.split()`, `' '.join`, `str.find`
    and `str.rfind`, and an optional value type. */
module Text {

  datatype Option<+T> = None | Some(value: T) {
    function GetOr(default: T): T {
      match this
      case Some(v) => v
      case None => default
    }
  }

  /** The characters CPython treats as whitespace in `str.isspace()`,
      `str.split()`, `str.strip()` and the `\s` class of a str pattern. */
  predicate IsSpace(c: char) {
    || c == ' '
    || ('\t' <= c <= '\r')
    || ('\U{1C}' <= c <= '\U{1F}')
    || c == '\U{85}' || c == '\U{A0}' || c == '\U{1680}'
    || ('\U{2000}' <= c <= '\U{200A}')
    || c == '\U{2028}' || c == '\U{2029}' || c == '\U{202F}'
    || c == '\U{205F}' || c == '\U{3000}'
  }

  /** Python's `not s.strip()`: empty or whitespace only. */
  predicate IsBlank(s: string) {
    forall i :: 0 <= i < |s| ==> IsSpace(s[i])
  }

  /** Neither end of `s` is whitespace, as for any result of `strip()`. */
  predicate IsStripped(s: string) {
    |s| == 0 || (!IsSpace(s[0]) && !IsSpace(s[|s| - 1]))
  }

  /** A word of `str.split()`: non-empty, no whitespace inside. */
  predicate IsWord(w: string) {
    |w| > 0 && forall i :: 0 <= i < |w| ==> !IsSpace(w[i])
  }

  /** Two pieces meet at whitespace (or one is empty), so no word of
      `a + b` straddles the seam. */
  predicate SpaceSeam(a: string, b: string) {
    |a| == 0 || |b| == 0 || IsSpace(a[|a| - 1]) || IsSpace(b[0])
  }

  /** Number of leading whitespace characters. */
  function LeadingSpaces(s: string): (n: nat)
    ensures n <= |s|
    ensures IsBlank(s[..n])
    ensures n < |s| ==> !IsSpace(s[n])
  {
    if |s| > 0 && IsSpace(s[0]) then
      var m := LeadingSpaces(s[1..]);
      assert s[..1 + m] == [s[0]] + s[1..][..m];
      1 + m
    else 0
  }

  /** End of `s` once trailing whitespace is dropped. */
  function TrimmedEnd(s: string): (j: nat)
    ensures j <= |s|
    ensures IsBlank(s[j..])
    ensures j > 0 ==> !IsSpace(s[j - 1])
  {
    if |s| > 0 && IsSpace(s[|s| - 1]) then
      var p := s[..|s| - 1];
      var j := TrimmedEnd(p);
      assert s[j..] == p[j..] + [s[|s| - 1]];
      j
    else |s|
  }

  /** Python's `s.strip()`: drop whitespace at both ends. */
  function Strip(s: string): (r: string)
    ensures IsStripped(r)
    ensures |r| <= |s|
    ensures IsBlank(s) <==> r == []
    ensures |s| > 0 && IsSpace(s[|s| - 1]) ==> |r| < |s|
    ensures LeadingSpaces(s) + |r| <= |s|
    ensures r == s[LeadingSpaces(s)..LeadingSpaces(s) + |r|]
    ensures IsBlank(s[LeadingSpaces(s) + |r|..])
  {
    var i := LeadingSpaces(s);
    if i == |s| then []
    else
      var j := TrimmedEnd(s);
      s[i..j]
  }

  /** Length of the word at the front of `s` (0 if `s` starts with whitespace). */
  function WordLen(s: string): (n: nat)
    ensures n <= |s|
    ensures forall i :: 0 <= i < n ==> !IsSpace(s[i])
    ensures n < |s| ==> IsSpace(s[n])
  {
    if |s| == 0 || IsSpace(s[0]) then 0 else 1 + WordLen(s[1..])
  }

  /** Python's `s.split()` with no separator: the maximal whitespace-free runs. */
  function Words(s: string): (ws: seq<string>)
    ensures forall k :: 0 <= k < |ws| ==> IsWord(ws[k])
    decreases |s|
  {
    if |s| == 0 then []
    else if IsSpace(s[0]) then Words(s[1..])
    else
      var n := WordLen(s);
      [s[..n]] + Words(s[n..])
  }

  /** The words of a list of texts, text by text. */
  function AllWords(xs: seq<string>): seq<string>
  {
    if |xs| == 0 then [] else Words(xs[0]) + AllWords(xs[1..])
  }

  /** Concatenation of a list of strings. */
  function Concat(xs: seq<string>): string
  {
    if |xs| == 0 then [] else xs[0] + Concat(xs[1..])
  }

  /** Python's `sep.join(xs)`. */
  function Join(xs: seq<string>, sep: string): string
  {
    if |xs| == 0 then []
    else if |xs| == 1 then xs[0]
    else xs[0] + sep + Join(xs[1..], sep)
  }

  /** `pat` occurs in `s` at index `i`. */
  predicate OccursAt(s: string, pat: string, i: int) {
    0 <= i && i + |pat| <= |s| && s[i..i + |pat|] == pat
  }

  /** `pat` occurs somewhere in `s`. */
  predicate Occurs(s: string, pat: string) {
    exists i :: 0 <= i <= |s| && OccursAt(s, pat, i)
  }

  /** Python's `s.find(c, start)`: the first index at or after `start`
      holding `c`, or -1. */
  function Find(s: string, c: char, start: nat): (r: int)
    ensures r == -1 || start <= r < |s|
    ensures r >= 0 ==> s[r] == c
    ensures r >= 0 ==> forall j :: start <= j < r ==> s[j] != c
    ensures r == -1 ==> forall j :: start <= j < |s| ==> s[j] != c
    decreases |s| - start
  {
    if start >= |s| then -1
    else if s[start] == c then start
    else Find(s, c, start + 1)
  }

  /** Python's `s.rfind(pat)`: the last index where `pat` occurs, or -1. */
  function RFind(s: string, pat: string): (r: int)
    ensures r == -1 || 0 <= r <= |s| - |pat|
    ensures r >= 0 ==> OccursAt(s, pat, r)
    ensures forall j :: r < j <= |s| - |pat| ==> !OccursAt(s, pat, j)
  {
    if |pat| > |s| then -1 else RFindFrom(s, pat, |s| - |pat|)
  }

  function RFindFrom(s: string, pat: string, i: int): (r: int)
    requires -1 <= i <= |s| - |pat|
    ensures -1 <= r <= i
    ensures r >= 0 ==> OccursAt(s, pat, r)
    ensures forall j :: r < j <= i ==> !OccursAt(s, pat, j)
    decreases i + 1
  {
    if i < 0 then -1
    else if s[i..i + |pat|] == pat then i
    else RFindFrom(s, pat, i - 1)
  }

  /** ASCII upper-casing, the part of Python's `str.upper()` modelled here. */
  function UpperChar(c: char): char {
    if 'a' <= c <= 'z' then (c as int - 32) as char else c
  }

  function Upper(s: string): (r: string)
    ensures |r| == |s|
    ensures forall i :: 0 <= i < |s| ==> r[i] == UpperChar(s[i])
  {
    if |s| == 0 then [] else [UpperChar(s[0])] + Upper(s[1..])
  }

  // ---------------------------------------------------------------------
  // Facts about `Words`

  lemma {:induction false} WordLenAppend(a: string, b: string)
    ensures WordLen(a + b) == if WordLen(a) < |a| then WordLen(a) else |a| + WordLen(b)
    decreases |a|
  {
    if |a| == 0 {
      assert a + b == b;
    } else if !IsSpace(a[0]) {
      assert (a + b)[1..] == a[1..] + b;
      WordLenAppend(a[1..], b);
    }
  }

  lemma {:induction false} WordsOfBlank(s: string)
    requires IsBlank(s)
    ensures Words(s) == []
    decreases |s|
  {
    if |s| > 0 {
      WordsOfBlank(s[1..]);
    }
  }

  lemma {:induction false} BlankOfNoWords(s: string)
    requires Words(s) == []
    ensures IsBlank(s)
    decreases |s|
  {
    if |s| > 0 {
      if IsSpace(s[0]) {
        BlankOfNoWords(s[1..]);
      }
    }
  }

  /** The word at the front of `a` is not extended by `b`. */
  lemma {:induction false} FrontWordOfAppend(a: string, b: string)
    requires |a| > 0 && !IsSpace(a[0]) && SpaceSeam(a, b)
    ensures WordLen(a + b) == WordLen(a)
    ensures Words(a + b) == [a[..WordLen(a)]] + Words((a + b)[WordLen(a)..])
  {
    var n := WordLen(a);
    WordLenAppend(a, b);
    if n == |a| && |b| > 0 {
      assert WordLen(b) == 0;
    }
    assert (a + b)[..n] == a[..n];
  }

  /** Splitting at a whitespace seam splits the word list. */
  lemma {:induction false} WordsAppend(a: string, b: string)
    requires SpaceSeam(a, b)
    ensures Words(a + b) == Words(a) + Words(b)
    decreases |a|, 1
  {
    if |a| == 0 {
      assert a + b == b;
    } else if IsSpace(a[0]) {
      WordsAppendSpace(a, b);
    } else {
      WordsAppendWord(a, b);
    }
  }

  lemma {:induction false} WordsAppendSpace(a: string, b: string)
    requires |a| > 0 && IsSpace(a[0]) && SpaceSeam(a, b)
    ensures Words(a + b) == Words(a) + Words(b)
    decreases |a|, 0
  {
    assert (a + b)[1..] == a[1..] + b;
    assert Words(a + b) == Words(a[1..] + b);
    WordsAppend(a[1..], b);
    assert Words(a) == Words(a[1..]);
  }

  lemma {:induction false} WordsAppendWord(a: string, b: string)
    requires |a| > 0 && !IsSpace(a[0]) && SpaceSeam(a, b)
    ensures Words(a + b) == Words(a) + Words(b)
    decreases |a|, 0
  {
    var n := WordLen(a);
    FrontWordOfAppend(a, b);
    assert (a + b)[n..] == a[n..] + b;
    assert SpaceSeam(a[n..], b);
    WordsAppend(a[n..], b);
    assert Words(a) == [a[..n]] + Words(a[n..]);
    AppendAssoc([a[..n]], Words(a[n..]), Words(b));
  }

  /** Three consecutive slices put back together. */
  lemma {:induction false} Reassemble3(s: string, i: nat, j: nat)
    requires i <= j <= |s|
    ensures s[..i] + s[i..j] + s[j..] == s
  {
  }

  /** A text cut in two. */
  lemma {:induction false} PrefixSplit(s: string, i: nat)
    requires i <= |s|
    ensures s == s[..i] + s[i..]
  {
  }

  /** A suffix cut in two. */
  lemma {:induction false} SuffixSplit(s: string, i: nat, j: nat)
    requires i <= j <= |s|
    ensures s[i..] == s[i..j] + s[j..]
  {
  }

  lemma {:induction false} AppendAssoc<T>(a: seq<T>, b: seq<T>, c: seq<T>)
    ensures a + b + c == a + (b + c)
  {
  }

  lemma {:induction false} WordsAfterGap(gap: string, b: string)
    requires |gap| > 0 && IsBlank(gap)
    ensures Words(gap + b) == Words(b)
    ensures SpaceSeam([], gap + b) && (|gap + b| > 0 && IsSpace((gap + b)[0]))
  {
    WordsOfBlank(gap);
    WordsAppend(gap, b);
    assert (gap + b)[0] == gap[0];
  }

  /** A non-empty whitespace gap separates the words on either side. */
  lemma {:induction false} WordsAroundGap(a: string, gap: string, b: string)
    requires |gap| > 0 && IsBlank(gap)
    ensures Words(a + gap + b) == Words(a) + Words(b)
  {
    WordsAfterGap(gap, b);
    WordsAppend(a, gap + b);
    AppendAssoc(a, gap, b);
  }

  lemma {:induction false} WordsOfWord(w: string)
    requires IsWord(w)
    ensures Words(w) == [w]
  {
    assert WordLen(w) == |w| by {
      WordLenAppend(w, []);
      assert w + [] == w;
    }
    assert w[..|w|] == w;
  }

  /** The words of `a + " "` (as when the chunker appends a space). */
  lemma {:induction false} WordsSpaceAfter(a: string)
    ensures Words(a + " ") == Words(a)
  {
    WordsAppend(a, " ");
    WordsOfBlank(" ");
  }

  /** `strip()` keeps exactly the words. */
  lemma {:induction false} StripKeepsWords(s: string)
    ensures Words(Strip(s)) == Words(s)
  {
    var i := LeadingSpaces(s);
    var r := Strip(s);
    var tail := s[i + |r|..];
    StripParts(s, i, r, tail);
    WordsOfBlank(s[..i]);
    WordsOfBlank(tail);
    WordsAppend(s[..i], r + tail);
    WordsAppend(r, tail);
    assert Words(s) == [] + (Words(r) + []);
  }

  lemma {:induction false} StripParts(s: string, i: nat, r: string, tail: string)
    requires i + |r| <= |s| && r == s[i..i + |r|] && tail == s[i + |r|..]
    ensures s == s[..i] + (r + tail)
  {
  }

  /** Stripping a stripped text with one trailing space gives it back. */
  lemma {:induction false} StripTrailingSpace(s: string)
    requires |s| > 0 && IsStripped(s)
    ensures Strip(s + " ") == s
  {
    var t := s + " ";
    assert t[0] == s[0];
    assert LeadingSpaces(t) == 0;
    assert t[..|t| - 1] == s;
    assert TrimmedEnd(t) == TrimmedEnd(s) == |s|;
    assert t[0..|s|] == s;
  }

  lemma {:induction false} AllWordsSingle(x: string)
    ensures AllWords([x]) == Words(x)
  {
    assert AllWords([x]) == Words(x) + AllWords([]);
  }

  lemma {:induction false} AllWordsAppend(xs: seq<string>, ys: seq<string>)
    ensures AllWords(xs + ys) == AllWords(xs) + AllWords(ys)
    decreases |xs|
  {
    if |xs| == 0 {
      assert xs + ys == ys;
    } else {
      assert (xs + ys)[1..] == xs[1..] + ys;
      AllWordsAppend(xs[1..], ys);
    }
  }

  lemma {:induction false} ConcatAppend(xs: seq<string>, ys: seq<string>)
    ensures Concat(xs + ys) == Concat(xs) + Concat(ys)
    decreases |xs|
  {
    if |xs| == 0 {
      assert xs + ys == ys;
    } else {
      assert (xs + ys)[1..] == xs[1..] + ys;
      ConcatAppend(xs[1..], ys);
    }
  }
}
