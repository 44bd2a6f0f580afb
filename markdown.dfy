/**
 * The markdown text utilities: front-matter splitting (delegated), read-time
 * estimate, excerpt, heading extraction with anchor slugs, and date formatting.
 */
module Markdown {
  import opened Wrappers
  import opened Text

  // ------------------------------------------------------------ front matter

  /** A front-matter value: the flat key/value block holds scalars, strings and string lists. */
  datatype Value = Str(s: string) | Number(n: int) | Flag(b: bool) | List(items: seq<string>)

  type FrontMatter = map<string, Value>

  datatype ParsedMarkdown = ParsedMarkdown(frontmatter: FrontMatter, content: string)

  /**
   * `parseMarkdown`: the front-matter library (given here as `matter`, `None` when it
   * throws) splits the raw text; the body is returned trimmed.
   */
  function ParseMarkdown(raw: string, matter: string -> Option<(FrontMatter, string)>): (r: Option<ParsedMarkdown>)
    ensures r.Some? <==> matter(raw).Some?
    ensures r.Some? ==> r.value.frontmatter == matter(raw).value.0
    ensures r.Some? ==> r.value.content == Trim(matter(raw).value.1)
    ensures r.Some? && r.value.content != [] ==>
      !IsSpace(r.value.content[0]) && !IsSpace(r.value.content[|r.value.content| - 1])
    ensures r.Some? ==> |r.value.content| <= |matter(raw).value.1|
  {
    match matter(raw)
    case None => None
    case Some((data, content)) =>
      TrimEnds(content);
      Some(ParsedMarkdown(data, Trim(content)))
  }

  // --------------------------------------------------------------- read time

  /** `content.trim().split(/\s+/).length`. */
  function WordCount(content: string): nat {
    |SplitOnSpaceRuns(Trim(content))|
  }

  /** The reading speed `calculateReadTime` assumes when its caller gives none. */
  const DefaultWordsPerMinute: nat := 200

  /** `calculateReadTime`: `Math.ceil(words / wordsPerMinute)` in whole minutes. */
  function ReadTime(content: string, wordsPerMinute: nat): int
    requires wordsPerMinute > 0
  {
    (WordCount(content) + wordsPerMinute - 1) / wordsPerMinute
  }

  lemma CeilingDivision(w: int, d: int)
    requires w >= 1 && d > 0
    ensures var q := (w + d - 1) / d; (q - 1) * d < w <= q * d && q >= 1
  {
    var q, r := (w + d - 1) / d, (w + d - 1) % d;
    assert w + d - 1 == q * d + r && 0 <= r < d;
    assert (q - 1) * d == q * d - d;
    assert q * d > 0;
  }

  /** The estimate is the ceiling of words over speed, hence at least one minute for any text. */
  lemma ReadTimeIsCeiling(content: string, wordsPerMinute: nat)
    requires wordsPerMinute > 0
    ensures var m, w := ReadTime(content, wordsPerMinute), WordCount(content);
      (m - 1) * wordsPerMinute < w <= m * wordsPerMinute && m >= 1
  {
    CeilingDivision(WordCount(content), wordsPerMinute);
  }

  /** At the default speed a text reads in one minute exactly when it has at most 200 words. */
  lemma DefaultReadTimeOneMinute(content: string)
    ensures ReadTime(content, DefaultWordsPerMinute) == 1 <==> WordCount(content) <= DefaultWordsPerMinute
  {
    ReadTimeIsCeiling(content, DefaultWordsPerMinute);
  }

  /**
   * The words counted are the non-empty whitespace-free tokens that make up the text,
   * one more than the maximal whitespace runs between them.
   */
  lemma WordCountCountsTokens(content: string)
    ensures var tokens := SplitOnSpaceRuns(Trim(content));
      && Concat(tokens) == NonSpaceChars(Trim(content))
      && (!AllSpace(content) ==> forall i :: 0 <= i < |tokens| ==> tokens[i] != [] && NoSpace(tokens[i]))
      && (AllSpace(content) ==> tokens == [""])
      && WordCount(content) == 1 + SpaceRunCount(Trim(content))
  {
    var t := Trim(content);
    SplitCountsSpaceRuns(t);
    SplitOnSpaceRunsKeepsText(t);
    TrimEnds(content);
    SplitTrimmedTokensNonEmpty(t);
    TrimEmptyIffBlank(content);
  }

  // ----------------------------------------------------------------- excerpt

  /** The markdown syntax characters the excerpt removes: `#`, `*`, backtick, `[`, `]`. */
  predicate IsMarkupChar(c: char) {
    c == '#' || c == '*' || c == '`' || c == '[' || c == ']'
  }

  /** `.replace(/[#*`\[\]]/g, '')`. */
  function StripMarkup(s: string): (r: string)
    ensures |r| <= |s|
    ensures forall k :: 0 <= k < |r| ==> !IsMarkupChar(r[k])
  {
    if s == [] then [] else (if IsMarkupChar(s[0]) then [] else [s[0]]) + StripMarkup(s[1..])
  }

  /** Stripping removes only markup characters: text without them is left as it is. */
  lemma {:induction false} StripMarkupKeepsPlainText(s: string)
    requires forall k :: 0 <= k < |s| ==> !IsMarkupChar(s[k])
    ensures StripMarkup(s) == s
  {
    if s != [] {
      StripMarkupKeepsPlainText(s[1..]);
      assert s == [s[0]] + s[1..];
    }
  }

  /**
   * The plain text of `generateExcerpt`. The source then applies the image pattern
   * `!\[.*?\]\(.*?\)` and the link pattern `\[.*?\]\(.*?\)`; both need a `[`, which
   * the first replacement has already removed (`StripMarkup` keeps none), so both
   * leave the text unchanged and are not written out here.
   */
  function PlainText(content: string): string {
    Trim(StripMarkup(content))
  }

  /** The excerpt length `generateExcerpt` uses when its caller gives none. */
  const DefaultExcerptLength: int := 150

  /** `generateExcerpt`: the plain text, or its first `maxLength` characters trimmed and followed by `...`. */
  function GenerateExcerpt(content: string, maxLength: int): string {
    var plainText := PlainText(content);
    if |plainText| <= maxLength then plainText
    else Trim(plainText[..if maxLength < 0 then 0 else maxLength]) + "..."
  }

  predicate NoMarkup(s: string) {
    forall k :: 0 <= k < |s| ==> !IsMarkupChar(s[k])
  }

  lemma TrimKeepsNoMarkup(s: string)
    requires NoMarkup(s)
    ensures NoMarkup(Trim(s))
  {
    TrimKeepsChars(s, (c: char) => !IsMarkupChar(c));
  }

  /** A cut of markup-free text, trimmed and followed by `...`, is still markup-free. */
  lemma CutKeepsNoMarkup(plain: string, budget: nat)
    requires NoMarkup(plain) && budget <= |plain|
    ensures NoMarkup(Trim(plain[..budget]) + "...")
  {
    var cut := plain[..budget];
    assert NoMarkup(cut) by {
      forall k | 0 <= k < |cut| ensures !IsMarkupChar(cut[k]) { assert cut[k] == plain[k]; }
    }
    TrimKeepsNoMarkup(cut);
    var t := Trim(cut);
    var r := t + "...";
    forall k | 0 <= k < |r| ensures !IsMarkupChar(r[k]) {
      if k < |t| { assert r[k] == t[k]; }
    }
  }

  /** The excerpt never shows markup characters, and short text passes through without an ellipsis. */
  lemma ExcerptProperties(content: string, maxLength: int)
    ensures NoMarkup(GenerateExcerpt(content, maxLength))
    ensures |PlainText(content)| <= maxLength ==> GenerateExcerpt(content, maxLength) == PlainText(content)
  {
    var plain := PlainText(content);
    TrimKeepsNoMarkup(StripMarkup(content));
    if |plain| > maxLength {
      CutKeepsNoMarkup(plain, if maxLength < 0 then 0 else maxLength);
    }
  }

  /** With the default budget an excerpt is at most 153 characters long: 150 plus the ellipsis. */
  lemma DefaultExcerptBound(content: string)
    ensures |GenerateExcerpt(content, DefaultExcerptLength)| <= DefaultExcerptLength + 3
  {
    if |PlainText(content)| > DefaultExcerptLength {
      ExcerptTruncates(content, DefaultExcerptLength);
    }
  }

  /** Long text is cut: the result is the trimmed cut plus `...`, at most three characters over the budget. */
  lemma ExcerptTruncates(content: string, maxLength: int)
    requires |PlainText(content)| > maxLength
    ensures var r, budget := GenerateExcerpt(content, maxLength), if maxLength < 0 then 0 else maxLength;
      && |r| >= 3 && r[|r| - 3..] == "..."
      && |r| <= budget + 3
      && r[..|r| - 3] == Trim(PlainText(content)[..budget])
  {
  }

  lemma {:induction false} StripMarkupAppend(a: string, b: string)
    ensures StripMarkup(a + b) == StripMarkup(a) + StripMarkup(b)
  {
    if a == [] {
      assert a + b == b;
    } else {
      assert (a + b)[0] == a[0];
      assert (a + b)[1..] == a[1..] + b;
      StripMarkupAppend(a[1..], b);
    }
  }

  lemma ExampleStripped(hash: string, title: string, stars: string, bold: string, tail: string)
    requires hash == "# " && title == "Title\nSome " && stars == "**" && bold == "bold" && tail == " text"
    ensures StripMarkup(hash + title + stars + bold + stars + tail) == " " + title + bold + tail
  {
    StripMarkupKeepsPlainText(title);
    StripMarkupKeepsPlainText(bold);
    StripMarkupKeepsPlainText(tail);
    assert StripMarkup(hash) == " ";
    assert StripMarkup(stars) == "";
    var x1 := hash + title;
    StripMarkupAppend(hash, title);
    var x2 := x1 + stars;
    StripMarkupAppend(x1, stars);
    assert StripMarkup(x2) == " " + title;
    var x3 := x2 + bold;
    StripMarkupAppend(x2, bold);
    var x4 := x3 + stars;
    StripMarkupAppend(x3, stars);
    assert StripMarkup(x4) == " " + title + bold;
    StripMarkupAppend(x4, tail);
  }

  /**
   * The worked example `"# Title\nSome **bold** text"` with a budget of ten: markup
   * removed, ten characters kept, ellipsis added. The text is passed in
   * pieces so that the verifier reasons about it instead of evaluating it.
   */
  lemma ExcerptExample(hash: string, title: string, stars: string, bold: string, tail: string)
    requires hash == "# " && title == "Title\nSome " && stars == "**" && bold == "bold" && tail == " text"
    ensures GenerateExcerpt(hash + title + stars + bold + stars + tail, 10) == "Title\nSome..."
  {
    ExamplePlainText(hash, title, stars, bold, tail);
    var plain := title + bold + tail;
    assert |plain| == 20;
    var cut := plain[..10];
    assert cut == "Title\nSome";
    TrimOfTrimmed(cut);
  }

  /** Its plain text: the markup and the space it leaves at the start are gone. */
  lemma ExamplePlainText(hash: string, title: string, stars: string, bold: string, tail: string)
    requires hash == "# " && title == "Title\nSome " && stars == "**" && bold == "bold" && tail == " text"
    ensures PlainText(hash + title + stars + bold + stars + tail) == title + bold + tail
  {
    var content := hash + title + stars + bold + stars + tail;
    ExampleStripped(hash, title, stars, bold, tail);
    var plain := title + bold + tail;
    assert StripMarkup(content) == " " + plain;
    assert plain[0] == 'T' && plain[|plain| - 1] == 't';
    PlainTextAfterSpace(content, plain);
  }

  /** Text that strips to one space before a trimmed text has that text as its plain text. */
  lemma PlainTextAfterSpace(content: string, plain: string)
    requires StripMarkup(content) == " " + plain
    requires plain != [] && !IsSpace(plain[0]) && !IsSpace(plain[|plain| - 1])
    ensures PlainText(content) == plain
  {
    assert (" " + plain)[1..] == plain;
    TrimOfTrimmed(plain);
  }

  // ---------------------------------------------------------------- headings

  /** One entry of the table of contents. */
  datatype Heading = Heading(level: nat, text: string, slug: string)

  /**
   * One match of `/^(#{1,6})\s+(.+)$/gm`: where it starts and ends, the length of the
   * first group, and the second group.
   */
  datatype HeadingMatch = HeadingMatch(start: nat, end: nat, level: nat, captured: string)

  /** `^` under the `m` flag: the start of the text or just after a line terminator. */
  predicate IsLineStart(s: string, p: nat)
    requires p <= |s|
  {
    p == 0 || IsLineTerminator(s[p - 1])
  }

  /** Number of consecutive `#` from position `p`. */
  function HashRun(s: string, p: nat): (n: nat)
    requires p <= |s|
    ensures p + n <= |s|
    decreases |s| - p
  {
    if p < |s| && s[p] == '#' then 1 + HashRun(s, p + 1) else 0
  }

  /** The run is all `#` and stops before something else, or at the end. */
  lemma {:induction false} HashRunShape(s: string, p: nat)
    requires p <= |s|
    ensures forall k :: p <= k < p + HashRun(s, p) ==> s[k] == '#'
    ensures p + HashRun(s, p) < |s| ==> s[p + HashRun(s, p)] != '#'
    decreases |s| - p
  {
    if p < |s| && s[p] == '#' {
      HashRunShape(s, p + 1);
    }
  }

  /** The end of the whitespace run starting at `q`. */
  function SpaceRunEnd(s: string, q: nat): (b: nat)
    requires q <= |s|
    ensures q <= b <= |s|
    decreases |s| - q
  {
    if q < |s| && IsSpace(s[q]) then SpaceRunEnd(s, q + 1) else q
  }

  /** The run is all whitespace and stops before something else, or at the end. */
  lemma {:induction false} SpaceRunEndShape(s: string, q: nat)
    requires q <= |s|
    ensures forall k :: q <= k < SpaceRunEnd(s, q) ==> IsSpace(s[k])
    ensures SpaceRunEnd(s, q) < |s| ==> !IsSpace(s[SpaceRunEnd(s, q)])
    decreases |s| - q
  {
    if q < |s| && IsSpace(s[q]) {
      SpaceRunEndShape(s, q + 1);
    }
  }

  /** `$` under the `m` flag, seen from `q`: the first line terminator at or after `q`, or the end. */
  function LineEnd(s: string, q: nat): (e: nat)
    requires q <= |s|
    ensures q <= e <= |s|
    decreases |s| - q
  {
    if q < |s| && !IsLineTerminator(s[q]) then LineEnd(s, q + 1) else q
  }

  /** No line terminator comes before the line end, and one sits there unless it is the end. */
  lemma {:induction false} LineEndShape(s: string, q: nat)
    requires q <= |s|
    ensures forall k :: q <= k < LineEnd(s, q) ==> !IsLineTerminator(s[k])
    ensures LineEnd(s, q) < |s| ==> IsLineTerminator(s[LineEnd(s, q)])
    decreases |s| - q
  {
    if q < |s| && !IsLineTerminator(s[q]) {
      LineEndShape(s, q + 1);
    }
  }

  /** The last position in `[lo, hi)` that holds something other than a line terminator. */
  function LastNonTerminator(s: string, lo: nat, hi: nat): (c: Option<nat>)
    requires lo <= hi <= |s|
    ensures c.Some? ==> lo <= c.value < hi
    decreases hi - lo
  {
    if lo == hi then None
    else if !IsLineTerminator(s[hi - 1]) then Some(hi - 1)
    else LastNonTerminator(s, lo, hi - 1)
  }

  /** The position found holds no line terminator, and only line terminators follow it. */
  lemma {:induction false} LastNonTerminatorShape(s: string, lo: nat, hi: nat)
    requires lo <= hi <= |s|
    ensures var c := LastNonTerminator(s, lo, hi);
      && (c.Some? ==> !IsLineTerminator(s[c.value]) && forall k :: c.value < k < hi ==> IsLineTerminator(s[k]))
      && (c.None? ==> forall k :: lo <= k < hi ==> IsLineTerminator(s[k]))
    decreases hi - lo
  {
    if lo < hi && IsLineTerminator(s[hi - 1]) {
      LastNonTerminatorShape(s, lo, hi - 1);
    }
  }

  /**
   * The regex tried at one position `p`, with its backtracking resolved:
   * `#{1,6}` takes up to six `#` and must be followed by at least one whitespace character (with seven or
   * more there is a `#` there instead). Greedy `\s+` takes the whole whitespace run,
   * across line breaks. If something follows the run, `(.+)` is the rest of that line.
   * If the run reaches the end of the text, `\s+` gives back characters until `(.+)`
   * can take one that is not a line terminator, which then stands alone before `$`.
   */
  function MatchAt(s: string, p: nat): (m: Option<HeadingMatch>)
    requires p <= |s|
    ensures m.Some? ==> m.value.start == p < m.value.end <= |s|
    ensures m.Some? ==> 1 <= m.value.level <= 6 && HashRun(s, p) == m.value.level && IsLineStart(s, p)
  {
    HashRunShape(s, p);
    var h := Min(HashRun(s, p), 6);
    var b := SpaceRunEnd(s, p + h);
    if !IsLineStart(s, p) || h == 0 || b == p + h then None
    else if b < |s| then
      var e := LineEnd(s, b);
      Some(HeadingMatch(p, e, h, s[b..e]))
    else
      match LastNonTerminator(s, p + h + 1, |s|)
      case None => None
      case Some(c) => Some(HeadingMatch(p, c + 1, h, s[c..c + 1]))
  }

  /**
   * The captured title is non-empty, lies on one line, and ends where the match ends,
   * at a line terminator or at the end of the text.
   */
  predicate CapturedIsTitle(s: string, p: nat, m: HeadingMatch)
    requires m.end <= |s|
  {
    var c := m.captured;
    && c != [] && |c| <= m.end - p && c == s[m.end - |c|..m.end]
    && (forall k :: 0 <= k < |c| ==> !IsLineTerminator(c[k]))
    && (m.end == |s| || IsLineTerminator(s[m.end]))
  }

  lemma MatchAtCaptured(s: string, p: nat)
    requires p <= |s| && MatchAt(s, p).Some?
    ensures CapturedIsTitle(s, p, MatchAt(s, p).value)
  {
    var h := Min(HashRun(s, p), 6);
    var b := SpaceRunEnd(s, p + h);
    if b < |s| {
      SpaceRunEndShape(s, p + h);
      assert MatchAt(s, p).value == HeadingMatch(p, LineEnd(s, b), h, s[b..LineEnd(s, b)]);
      TitleToLineEnd(s, p, h, b);
    } else {
      LastNonTerminatorShape(s, p + h + 1, |s|);
      var c := LastNonTerminator(s, p + h + 1, |s|).value;
      assert MatchAt(s, p).value == HeadingMatch(p, c + 1, h, s[c..c + 1]);
      TitleInTrailingSpace(s, p, h, c);
    }
  }

  /**
   * When the whitespace run reaches the end, `(.+)` is the last character that is not a
   * line terminator, and only line terminators follow it.
   */
  lemma TitleInTrailingSpace(s: string, p: nat, h: nat, c: nat)
    requires p < c < |s| && !IsLineTerminator(s[c])
    requires forall k :: c < k < |s| ==> IsLineTerminator(s[k])
    ensures CapturedIsTitle(s, p, HeadingMatch(p, c + 1, h, s[c..c + 1]))
  {
    assert s[c..c + 1][0] == s[c];
    if c + 1 < |s| {
      assert IsLineTerminator(s[c + 1]);
    }
  }

  /** When the whitespace run stops before the end, `(.+)` is the rest of that line. */
  lemma TitleToLineEnd(s: string, p: nat, h: nat, b: nat)
    requires p < b < |s| && !IsLineTerminator(s[b])
    ensures CapturedIsTitle(s, p, HeadingMatch(p, LineEnd(s, b), h, s[b..LineEnd(s, b)]))
  {
    LineEndShape(s, b);
    var e := LineEnd(s, b);
    var c := s[b..e];
    assert s[b] == c[0];
    assert forall k :: 0 <= k < |c| ==> c[k] == s[b + k];
  }

  /**
   * The common case: a line of one to six `#`, one space and a title that starts
   * with something other than whitespace gives that title at that level.
   */
  lemma HeadingLineMatches(s: string, p: nat, level: nat, title: string)
    requires 1 <= level <= 6 && p + level + 1 + |title| <= |s| && IsLineStart(s, p)
    requires forall k :: p <= k < p + level ==> s[k] == '#'
    requires s[p + level] == ' ' && s[p + level + 1..p + level + 1 + |title|] == title
    requires title != [] && !IsSpace(title[0]) && forall k :: 0 <= k < |title| ==> !IsLineTerminator(title[k])
    requires p + level + 1 + |title| == |s| || IsLineTerminator(s[p + level + 1 + |title|])
    ensures MatchAt(s, p) == Some(HeadingMatch(p, p + level + 1 + |title|, level, title))
  {
    var b := p + level + 1;
    HashRunShape(s, p);
    assert HashRun(s, p) == level;
    assert s[b] == title[0];
    assert SpaceRunEnd(s, p + level) == b;
    var e := LineEnd(s, b);
    LineEndShape(s, b);
    assert forall k :: b <= k < b + |title| ==> s[k] == title[k - b];
    assert e == b + |title|;
  }

  /** `headingRegex.exec(s)` with `lastIndex == from`: the first position from `from` on where the regex matches. */
  function NextMatch(s: string, from: nat): (m: Option<HeadingMatch>)
    requires from <= |s|
    ensures m.Some? ==> from <= m.value.start < m.value.end <= |s|
    decreases |s| - from
  {
    if MatchAt(s, from).Some? then MatchAt(s, from)
    else if from == |s| then None
    else NextMatch(s, from + 1)
  }

  /** `exec` finds the leftmost match: none starts between `lastIndex` and it, and `null` means none at all. */
  lemma {:induction false} NextMatchIsLeftmost(s: string, from: nat)
    requires from <= |s|
    ensures NextMatch(s, from).Some? ==> forall p :: from <= p < NextMatch(s, from).value.start ==> MatchAt(s, p).None?
    ensures NextMatch(s, from).None? ==> forall p :: from <= p <= |s| ==> MatchAt(s, p).None?
    decreases |s| - from
  {
    if MatchAt(s, from).None? && from < |s| {
      NextMatchIsLeftmost(s, from + 1);
    }
  }

  /** What `exec` returns is a match of the regex at the position it reports. */
  lemma {:induction false} NextMatchMatches(s: string, from: nat)
    requires from <= |s| && NextMatch(s, from).Some?
    ensures MatchAt(s, NextMatch(s, from).value.start) == NextMatch(s, from)
    decreases |s| - from
  {
    if MatchAt(s, from).None? {
      NextMatchMatches(s, from + 1);
    }
  }

  /**
   * Every match the global regex produces from `lastIndex == from` on: they lie at
   * or after `from`, each ends after it starts, and they come in document order
   * without overlap.
   */
  function MatchesFrom(s: string, from: nat): (ms: seq<HeadingMatch>)
    requires from <= |s|
    ensures forall i :: 0 <= i < |ms| ==> from <= ms[i].start < ms[i].end <= |s|
    ensures forall i :: 0 <= i < |ms| - 1 ==> ms[i].end <= ms[i + 1].start
    decreases |s| - from
  {
    var next := NextMatch(s, from);
    if next.None? then []
    else
      var rest := MatchesFrom(s, next.value.end);
      var ms := [next.value] + rest;
      assert forall i :: 1 <= i < |ms| ==> ms[i] == rest[i - 1];
      ms
  }

  /** Each reported match is what the regex finds when tried at that match's start. */
  lemma {:induction false} MatchesAreMatches(s: string, from: nat, i: nat)
    requires from <= |s| && i < |MatchesFrom(s, from)|
    ensures MatchAt(s, MatchesFrom(s, from)[i].start) == Some(MatchesFrom(s, from)[i])
    decreases i
  {
    var m := NextMatch(s, from).value;
    if i == 0 {
      NextMatchMatches(s, from);
    } else {
      MatchesAreMatches(s, m.end, i - 1);
      assert MatchesFrom(s, from)[i] == MatchesFrom(s, m.end)[i - 1];
    }
  }

  /**
   * Nothing is skipped: wherever the regex would match on its own, that position
   * either starts a reported match or lies inside an earlier one (a heading whose
   * whitespace ran over a line break swallows the line after it).
   */
  lemma {:induction false} MatchesMissNothing(s: string, from: nat, p: nat)
    requires from <= p <= |s| && MatchAt(s, p).Some?
    ensures exists i :: 0 <= i < |MatchesFrom(s, from)| && MatchesFrom(s, from)[i].start <= p < MatchesFrom(s, from)[i].end
    decreases |s| - from
  {
    var ms := MatchesFrom(s, from);
    NextMatchIsLeftmost(s, from);
    match NextMatch(s, from)
    case None =>
    case Some(m) =>
      assert ms[0] == m;
      if p >= m.end {
        MatchesMissNothing(s, m.end, p);
        var rest := MatchesFrom(s, m.end);
        var i :| 0 <= i < |rest| && rest[i].start <= p < rest[i].end;
        assert ms[i + 1] == rest[i];
      }
  }

  // -------------------------------------------------------------------- slug

  predicate IsAsciiUpper(c: char) { 'A' <= c <= 'Z' }

  /**
   * `toLowerCase()` as far as a slug can tell: ASCII capitals become small letters, and
   * the two characters whose lower case is an ASCII word character are mapped too
   * (KELVIN SIGN to `k`, CAPITAL I WITH DOT ABOVE to `i` plus a combining dot). Every
   * other character is kept: its true lower case is not a word character, whitespace
   * or `-` exactly when it is not one itself, so the next step treats both alike.
   */
  function LowerForSlug(s: string): string {
    if s == [] then []
    else
      var c := s[0];
      var lower :=
        if IsAsciiUpper(c) then [(c as int + 32) as char]
        else if c == '\U{212A}' then "k"
        else if c == '\U{130}' then "i\U{307}"
        else [c];
      lower + LowerForSlug(s[1..])
  }

  /** The characters `.replace(/[^\w\s-]/g, '')` keeps. */
  predicate KeptInSlug(c: char) { IsWordChar(c) || IsSpace(c) || c == '-' }

  function DropNonSlugChars(s: string): string {
    if s == [] then []
    else (if KeptInSlug(s[0]) then [s[0]] else []) + DropNonSlugChars(s[1..])
  }

  /** `.replace(/\s+/g, '-')`: each maximal whitespace run becomes one hyphen. */
  function HyphenateSpaceRuns(s: string): string
    decreases |s|
  {
    if s == [] then []
    else if IsSpace(s[0]) then "-" + HyphenateSpaceRuns(TrimStart(s))
    else [s[0]] + HyphenateSpaceRuns(s[1..])
  }

  /** The anchor slug of a heading text: lower case, strip, hyphenate. */
  function Slugify(text: string): string {
    HyphenateSpaceRuns(DropNonSlugChars(LowerForSlug(text)))
  }

  /** What a slug may contain: lower-case ASCII letters, digits, `_` and `-`. */
  predicate IsSlugChar(c: char) {
    ('a' <= c <= 'z') || IsDigit(c) || c == '_' || c == '-'
  }

  predicate IsSlug(s: string) {
    forall k :: 0 <= k < |s| ==> IsSlugChar(s[k])
  }

  /** Text a slug can be made from without a strip: slug characters and whitespace. */
  predicate SlugOrSpace(s: string) {
    forall k :: 0 <= k < |s| ==> IsSlugChar(s[k]) || IsSpace(s[k])
  }

  /** Only kept characters survive the strip, and lowering left no capitals among them. */
  lemma {:induction false} DropLeavesSlugOrSpace(s: string)
    requires forall k :: 0 <= k < |s| ==> !IsAsciiUpper(s[k])
    ensures SlugOrSpace(DropNonSlugChars(s))
  {
    if s != [] {
      DropLeavesSlugOrSpace(s[1..]);
    }
  }

  /** Hyphenating text made of slug characters and whitespace leaves a slug. */
  lemma {:induction false} HyphenateMakesSlug(s: string)
    requires SlugOrSpace(s)
    ensures IsSlug(HyphenateSpaceRuns(s))
    decreases |s|
  {
    if s != [] {
      var tail := if IsSpace(s[0]) then TrimStart(s) else s[1..];
      TrimStartShape(s);
      assert tail == s[|s| - |tail|..];
      assert SlugOrSpace(tail) by {
        forall k | 0 <= k < |tail| ensures IsSlugChar(tail[k]) || IsSpace(tail[k]) {
          assert tail[k] == s[|s| - |tail| + k];
        }
      }
      HyphenateMakesSlug(tail);
    }
  }

  /** Lowering leaves no ASCII capital. */
  lemma {:induction false} LowerLeavesNoCapitals(s: string)
    ensures forall k :: 0 <= k < |LowerForSlug(s)| ==> !IsAsciiUpper(LowerForSlug(s)[k])
  {
    if s != [] {
      LowerLeavesNoCapitals(s[1..]);
    }
  }

  /** Only word characters, whitespace and `-` survive the strip. */
  lemma {:induction false} DropKeepsOnlySlugChars(s: string)
    ensures forall k :: 0 <= k < |DropNonSlugChars(s)| ==> KeptInSlug(DropNonSlugChars(s)[k])
  {
    if s != [] {
      DropKeepsOnlySlugChars(s[1..]);
    }
  }

  /** Once each whitespace run has become `-`, no whitespace is left. */
  lemma {:induction false} HyphenateLeavesNoSpace(s: string)
    ensures NoSpace(HyphenateSpaceRuns(s))
    decreases |s|
  {
    if s != [] {
      if IsSpace(s[0]) {
        HyphenateLeavesNoSpace(TrimStart(s));
      } else {
        HyphenateLeavesNoSpace(s[1..]);
      }
    }
  }

  /** Slugs are lower case, URL-safe, and hold no whitespace. */
  lemma SlugifyShape(text: string)
    ensures IsSlug(Slugify(text))
    ensures NoSpace(Slugify(text))
  {
    LowerLeavesNoCapitals(text);
    DropLeavesSlugOrSpace(LowerForSlug(text));
    HyphenateMakesSlug(DropNonSlugChars(LowerForSlug(text)));
    HyphenateLeavesNoSpace(DropNonSlugChars(LowerForSlug(text)));
  }

  lemma {:induction false} LowerForSlugKeepsSlug(s: string)
    requires IsSlug(s)
    ensures LowerForSlug(s) == s
  {
    if s != [] {
      LowerForSlugKeepsSlug(s[1..]);
      assert s == [s[0]] + s[1..];
    }
  }

  lemma {:induction false} DropKeepsSlug(s: string)
    requires IsSlug(s)
    ensures DropNonSlugChars(s) == s
  {
    if s != [] {
      DropKeepsSlug(s[1..]);
      assert s == [s[0]] + s[1..];
    }
  }

  lemma {:induction false} HyphenateKeepsSpaceFree(s: string)
    requires NoSpace(s)
    ensures HyphenateSpaceRuns(s) == s
  {
    if s != [] {
      HyphenateKeepsSpaceFree(s[1..]);
      assert s == [s[0]] + s[1..];
    }
  }

  /** Slugging a slug changes nothing. */
  lemma SlugifyIdempotent(text: string)
    ensures Slugify(Slugify(text)) == Slugify(text)
  {
    var slug := Slugify(text);
    SlugifyShape(text);
    LowerForSlugKeepsSlug(slug);
    DropKeepsSlug(slug);
    HyphenateKeepsSpaceFree(slug);
  }

  lemma AppendAssociative<T>(a: seq<T>, b: seq<T>, c: seq<T>)
    ensures a + (b + c) == (a + b) + c
  {
  }

  /** One `exec` call: the matches from `from` on are the next match and the matches after it. */
  lemma MatchesFromStep(s: string, from: nat)
    requires from <= |s|
    ensures NextMatch(s, from).None? ==> MatchesFrom(s, from) == []
    ensures NextMatch(s, from).Some? ==>
      MatchesFrom(s, from) == [NextMatch(s, from).value] + MatchesFrom(s, NextMatch(s, from).value.end)
  {
  }

  /** The table-of-contents entry built from one match: level, trimmed text, slug of that text. */
  function ToHeading(m: HeadingMatch): Heading {
    var text := Trim(m.captured);
    Heading(m.level, text, Slugify(text))
  }

  /**
   * `extractHeadings`: run the global regex with `exec` until it fails, pushing one
   * heading per match; `lastIndex` moves to the end of each match.
   */
  method ExtractHeadings(content: string) returns (headings: seq<Heading>)
    ensures var ms := MatchesFrom(content, 0);
      |headings| == |ms| && forall i :: 0 <= i < |ms| ==> headings[i] == ToHeading(ms[i])
  {
    headings := [];
    var lastIndex := 0;
    ghost var done: seq<HeadingMatch> := [];
    while true
      invariant lastIndex <= |content|
      invariant MatchesFrom(content, 0) == done + MatchesFrom(content, lastIndex)
      invariant |headings| == |done| && forall i :: 0 <= i < |done| ==> headings[i] == ToHeading(done[i])
      decreases |content| - lastIndex
    {
      var match_ := NextMatch(content, lastIndex);
      if match_.None? {
        MatchesFromStep(content, lastIndex);
        break;
      }
      var m := match_.value;
      MatchesFromStep(content, lastIndex);
      ghost var later := MatchesFrom(content, m.end);
      assert done + MatchesFrom(content, lastIndex) == (done + [m]) + later by {
        AppendAssociative(done, [m], later);
      }
      headings := headings + [ToHeading(m)];
      done := done + [m];
      lastIndex := m.end;
    }
  }

  /**
   * Each heading's level is the number of `#` that open its line, from 1 to 6, and
   * its slug has the slug shape; lines opening with seven or more `#` give none.
   */
  lemma HeadingsWellFormed(content: string)
    ensures var ms := MatchesFrom(content, 0);
      forall i :: 0 <= i < |ms| ==>
        && 1 <= ToHeading(ms[i]).level <= 6
        && HashRun(content, ms[i].start) == ToHeading(ms[i]).level
        && IsLineStart(content, ms[i].start)
        && IsSlug(ToHeading(ms[i]).slug)
  {
    var ms := MatchesFrom(content, 0);
    forall i | 0 <= i < |ms|
      ensures && 1 <= ToHeading(ms[i]).level <= 6
              && HashRun(content, ms[i].start) == ToHeading(ms[i]).level
              && IsLineStart(content, ms[i].start)
              && IsSlug(ToHeading(ms[i]).slug)
    {
      MatchesAreMatches(content, 0, i);
      SlugifyShape(Trim(ms[i].captured));
    }
  }

  // ------------------------------------------------------------------- dates

  const MonthNames: seq<string> := [
    "January", "February", "March", "April", "May", "June",
    "July", "August", "September", "October", "November", "December"]

  /** `parts[i]`, which is `undefined` past the end. */
  function PartAt(parts: seq<string>, i: nat): Option<string> {
    if i < |parts| then Some(parts[i]) else None
  }

  /**
   * `monthNames[parseInt(month) - 1]` as it appears in a template string: the name
   * for 1 to 12, and the text `undefined` for anything else, `NaN` included.
   */
  function MonthName(month: Option<string>): (name: string)
    ensures name == "undefined" || name in MonthNames
  {
    if month.None? then "undefined" else MonthOfNumber(ParseInt(month.value))
  }

  /** `monthNames[n - 1]`, where `None` stands for `NaN`. */
  function MonthOfNumber(n: Option<int>): (name: string)
    ensures name == "undefined" || name in MonthNames
  {
    if n.Some? && 1 <= n.value <= 12 then MonthNames[n.value - 1] else "undefined"
  }

  /** A number in a template string; `None` is `NaN`. */
  function NumberText(n: Option<int>): string {
    if n.None? then "NaN" else IntToString(n.value)
  }

  /**
   * `formatDate`: an empty or missing date gives the empty string; otherwise the
   * `-`-separated year, month and day become `Month D, YYYY`, or `Month YYYY` when
   * there is no day.
   */
  function FormatDate(dateString: Option<string>): string {
    if dateString.None? || dateString.value == "" then ""
    else
      var parts := SplitOn(dateString.value, '-');
      var year := parts[0];
      var monthName := MonthName(PartAt(parts, 1));
      var day := PartAt(parts, 2);
      if day.Some? && day.value != "" then monthName + " " + NumberText(ParseInt(day.value)) + ", " + year
      else monthName + " " + year
  }

  /** A missing date and an empty date both print as the empty string. */
  lemma FormatDateEmpty()
    ensures FormatDate(Some("")) == "" && FormatDate(None) == ""
  {
  }

  /** A month written in digits names its month when it is 1 to 12, leading zeros allowed. */
  lemma MonthNameOfDigits(mm: string)
    requires mm != [] && AllDigits(mm)
    ensures 1 <= DigitsValue(mm) <= 12 ==> MonthName(Some(mm)) == MonthNames[DigitsValue(mm) - 1]
    ensures !(1 <= DigitsValue(mm) <= 12) ==> MonthName(Some(mm)) == "undefined"
  {
    ParseIntOfDigits(mm);
    assert MonthName(Some(mm)) == MonthOfNumber(Some(DigitsValue(mm)));
  }

  /** A date with no year-month separator has no month: `2024` gives `undefined 2024`. */
  lemma FormatYearOnly(y: string)
    requires y != [] && '-' !in y
    ensures FormatDate(Some(y)) == "undefined " + y
  {
    SplitWithoutSep(y, '-');
  }

  /** `YYYY-MM` gives the month's name and the year. */
  lemma FormatYearMonth(y: string, mm: string)
    requires '-' !in y && '-' !in mm
    ensures FormatDate(Some(y + "-" + mm)) == MonthName(Some(mm)) + " " + y
  {
    SplitAround(y, mm, '-');
    SplitWithoutSep(y, '-');
    SplitWithoutSep(mm, '-');
    assert y + "-" + mm == y + ['-'] + mm;
  }

  /** `YYYY-MM-DD` gives the month's name, the day's number and the year. */
  lemma FormatYearMonthDay(y: string, mm: string, dd: string)
    requires '-' !in y && '-' !in mm && '-' !in dd && dd != []
    ensures FormatDate(Some(y + "-" + mm + "-" + dd)) == MonthName(Some(mm)) + " " + NumberText(ParseInt(dd)) + ", " + y
  {
    var rest := mm + "-" + dd;
    assert rest == mm + ['-'] + dd;
    SplitAround(mm, dd, '-');
    SplitWithoutSep(mm, '-');
    SplitWithoutSep(dd, '-');
    assert SplitOn(rest, '-') == [mm, dd];
    var full := y + "-" + mm + "-" + dd;
    assert full == y + ['-'] + rest;
    SplitAround(y, rest, '-');
    SplitWithoutSep(y, '-');
    var parts := SplitOn(full, '-');
    assert parts == [y, mm, dd];
    assert PartAt(parts, 1) == Some(mm) && PartAt(parts, 2) == Some(dd);
  }

  /** Two-digit, zero-padded decimal text, as in `2024-03-05`. */
  function Pad2(n: nat): (r: string)
    requires n < 100
    ensures |r| == 2 && AllDigits(r)
  {
    [DigitChar(n / 10), DigitChar(n % 10)]
  }

  lemma Pad2Value(n: nat)
    requires n < 100
    ensures DigitsValue(Pad2(n)) == n
  {
    var r := Pad2(n);
    assert r[..1][..0] == [];
    assert r[..1] == [DigitChar(n / 10)];
  }

  lemma DigitsHaveNoDash(s: string)
    requires AllDigits(s)
    ensures '-' !in s
  {
    forall k | 0 <= k < |s| ensures s[k] != '-' {
      assert IsDigit(s[k]);
    }
  }

  /** A zero-padded month `01` to `12` names its month. */
  lemma MonthOfPad2(month: nat)
    requires 1 <= month <= 12
    ensures MonthName(Some(Pad2(month))) == MonthNames[month - 1]
  {
    Pad2Value(month);
    MonthNameOfDigits(Pad2(month));
  }

  /** A zero-padded day reads back as its number, without the leading zero. */
  lemma DayOfPad2(day: nat)
    requires day < 100
    ensures NumberText(ParseInt(Pad2(day))) == NatToString(day)
  {
    Pad2Value(day);
    ParseIntOfDigits(Pad2(day));
  }

  /** Any calendar date written as `YYYY-MM-DD` reads back as `Month D, YYYY`. */
  lemma FormatIsoDate(year: nat, month: nat, day: nat)
    requires 1 <= month <= 12 && 1 <= day <= 31
    ensures FormatDate(Some(NatToString(year) + "-" + Pad2(month) + "-" + Pad2(day)))
      == MonthNames[month - 1] + " " + NatToString(day) + ", " + NatToString(year)
  {
    var y, mm, dd := NatToString(year), Pad2(month), Pad2(day);
    DigitsHaveNoDash(y);
    DigitsHaveNoDash(mm);
    DigitsHaveNoDash(dd);
    FormatYearMonthDay(y, mm, dd);
    MonthOfPad2(month);
    DayOfPad2(day);
  }
}
